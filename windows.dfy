/**
 The record of one ephemeral "error window" and the factory that builds it
 from three random draws and the two counters of the window manager.
 */
module Windows {

  /** One error window: its identity, its position in percent of the screen,
      the message it shows and its stacking order (higher is more in front). */
  datatype Window = Window(id: nat, x: real, y: real, message: string, zIndex: nat)

  /** The three values of Math.random() one spawn consumes: one for the
      message, one per coordinate. */
  datatype Draws = Draws(msg: real, x: real, y: real)

  /** What Math.random() guarantees of each value it returns. */
  predicate InUnit(r: real) {
    0.0 <= r < 1.0
  }

  predicate ValidDraws(d: Draws) {
    InUnit(d.msg) && InUnit(d.x) && InUnit(d.y)
  }

  /** Every draw of a run is a valid one. */
  predicate AllValid(ds: seq<Draws>) {
    forall i :: 0 <= i < |ds| ==> ValidDraws(ds[i])
  }

  /** A window lies in the part of the screen the factory spawns into. */
  predicate InBounds(w: Window) {
    10.0 <= w.x < 90.0 && 20.0 <= w.y < 80.0
  }

  /** Horizontal position: a draw scaled to a span of 80 starting at 10. */
  function PositionX(r: real): (x: real)
    requires InUnit(r)
    ensures 10.0 <= x < 90.0
  {
    r * 80.0 + 10.0
  }

  /** Vertical position: a draw scaled to a span of 60 starting at 20. */
  function PositionY(r: real): (y: real)
    requires InUnit(r)
    ensures 20.0 <= y < 80.0
  {
    r * 60.0 + 20.0
  }

  /** The catalog index a draw selects: floor(r * n). */
  function PickIndex(r: real, n: nat): (i: nat)
    requires InUnit(r) && n > 0
    ensures i < n
  {
    ProductBounds(r, n);
    (r * n as real).Floor
  }

  lemma ProductBounds(r: real, n: nat)
    requires InUnit(r) && n > 0
    ensures 0.0 <= r * n as real < n as real
  {
  }

  /** The record spawnWindow builds, given the counters' current values. */
  function MakeWindow(catalog: seq<string>, id: nat, zIndex: nat, d: Draws): (w: Window)
    requires |catalog| > 0 && ValidDraws(d)
    ensures w.id == id && w.zIndex == zIndex
    ensures w.message in catalog
    ensures InBounds(w)
  {
    Window(id, PositionX(d.x), PositionY(d.y), catalog[PickIndex(d.msg, |catalog|)], zIndex)
  }
}
