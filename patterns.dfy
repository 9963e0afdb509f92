/** The `PATTERNS` table of game.py: named 0/1 stencils to hand to
    `set_pattern`. */
module Patterns {
  import opened Life

  const Glider: Grid := [
    [0, 1, 0],
    [0, 0, 1],
    [1, 1, 1]
  ]

  const Blinker: Grid := [
    [1, 1, 1]
  ]

  const Toad: Grid := [
    [0, 1, 1, 1],
    [1, 1, 1, 0]
  ]

  const Beacon: Grid := [
    [1, 1, 0, 0],
    [1, 1, 0, 0],
    [0, 0, 1, 1],
    [0, 0, 1, 1]
  ]

  const Pulsar: Grid := [
    [0, 0, 1, 1, 1, 0, 0, 0, 1, 1, 1, 0, 0],
    [0, 0, 0, 0, 0, 0, 0, 0, 0, 0, 0, 0, 0],
    [1, 0, 0, 0, 0, 1, 0, 1, 0, 0, 0, 0, 1],
    [1, 0, 0, 0, 0, 1, 0, 1, 0, 0, 0, 0, 1],
    [1, 0, 0, 0, 0, 1, 0, 1, 0, 0, 0, 0, 1],
    [0, 0, 1, 1, 1, 0, 0, 0, 1, 1, 1, 0, 0],
    [0, 0, 0, 0, 0, 0, 0, 0, 0, 0, 0, 0, 0],
    [0, 0, 1, 1, 1, 0, 0, 0, 1, 1, 1, 0, 0],
    [1, 0, 0, 0, 0, 1, 0, 1, 0, 0, 0, 0, 1],
    [1, 0, 0, 0, 0, 1, 0, 1, 0, 0, 0, 0, 1],
    [1, 0, 0, 0, 0, 1, 0, 1, 0, 0, 0, 0, 1],
    [0, 0, 0, 0, 0, 0, 0, 0, 0, 0, 0, 0, 0],
    [0, 0, 1, 1, 1, 0, 0, 0, 1, 1, 1, 0, 0]
  ]

  /** The table by name.  Every entry is a rectangular 0/1 stencil, so it can
      be placed with `set_pattern` and keeps a 0/1 grid 0/1. */
  function Table(): (t: map<string, Grid>)
    ensures t.Keys == {"glider", "blinker", "toad", "beacon", "pulsar"}
    ensures forall name | name in t :: IsGrid(t[name]) && Binary(t[name]) && |t[name]| > 0
    ensures HasShape(t["glider"], 3, 3) && HasShape(t["blinker"], 1, 3)
    ensures HasShape(t["toad"], 2, 4) && HasShape(t["beacon"], 4, 4)
    ensures HasShape(t["pulsar"], 13, 13)
  {
    map["glider" := Glider, "blinker" := Blinker, "toad" := Toad,
        "beacon" := Beacon, "pulsar" := Pulsar]
  }
}
