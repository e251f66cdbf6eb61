/**
 The window manager of the page: two counters that hand out ids and
 stacking orders, and the list of live windows that spawning fills and
 dismissal empties.
 */
module WindowManager {
  import opened Windows
  import opened WindowList

  /** The stacking order the first window gets; ids start at 0. */
  const FirstZIndex: nat := 10

  /** What holds of the live list at every moment, given the next id to hand
      out: at most Capacity windows, ids ascending and all already handed
      out, stacking order tied to the id, positions on screen and messages
      from the catalog. */
  predicate WellFormed(ws: seq<Window>, nextId: nat, catalog: seq<string>) {
    |ws| <= Capacity && IdsAscending(ws) &&
    forall w :: w in ws ==>
      w.id < nextId && w.zIndex == w.id + FirstZIndex && InBounds(w) && w.message in catalog
  }

  /** A spawn keeps the list well formed and advances the next id by one. */
  lemma SpawnKeepsWellFormed(ws: seq<Window>, nextId: nat, catalog: seq<string>, w: Window)
    requires WellFormed(ws, nextId, catalog)
    requires w.id == nextId && w.zIndex == nextId + FirstZIndex
    requires InBounds(w) && w.message in catalog
    ensures WellFormed(Insert(ws, w), nextId + 1, catalog)
  {
  }

  /** A dismissal keeps the list well formed. */
  lemma RemoveKeepsWellFormed(ws: seq<Window>, nextId: nat, catalog: seq<string>, id: nat)
    requires WellFormed(ws, nextId, catalog)
    ensures WellFormed(RemoveById(ws, id), nextId, catalog)
  {
    RemoveKeepsAscending(ws, id);
  }

  /** Front-to-back order is also stacking order: a newer window is drawn
      over every older one still present. */
  lemma StackOrderFollowsAge(ws: seq<Window>, nextId: nat, catalog: seq<string>)
    requires WellFormed(ws, nextId, catalog)
    ensures forall i, j :: 0 <= i < j < |ws| ==> ws[i].zIndex < ws[j].zIndex
  {
  }

  /** The windows that successive spawns build from the draws ds when the
      next id is firstId: window i gets id firstId + i and is built from
      draw i. */
  function Spawned(catalog: seq<string>, firstId: nat, ds: seq<Draws>): seq<Window>
    requires |catalog| > 0 && AllValid(ds)
  {
    seq(|ds|, i requires 0 <= i < |ds| =>
      MakeWindow(catalog, firstId + i, firstId + i + FirstZIndex, ds[i]))
  }

  /** The list after inserting the windows vs one after another. */
  function InsertAll(ws: seq<Window>, vs: seq<Window>): seq<Window>
    decreases |vs|
  {
    if vs == [] then ws else Insert(InsertAll(ws, vs[..|vs| - 1]), vs[|vs| - 1])
  }

  /** One more spawn inserts one more window, built from the next draw. */
  lemma SpawnStep(catalog: seq<string>, ws: seq<Window>, firstId: nat, ds: seq<Draws>, i: nat)
    requires |catalog| > 0 && AllValid(ds) && i < |ds|
    ensures InsertAll(ws, Spawned(catalog, firstId, ds[..i + 1])) ==
      Insert(InsertAll(ws, Spawned(catalog, firstId, ds[..i])),
             MakeWindow(catalog, firstId + i, firstId + i + FirstZIndex, ds[i]))
  {
    var vs := Spawned(catalog, firstId, ds[..i + 1]);
    assert vs == Spawned(catalog, firstId, ds[..i]) + [vs[i]];
    assert vs[..i] == Spawned(catalog, firstId, ds[..i]);
  }

  /** Any run of spawns leaves exactly the Capacity most recent windows. */
  lemma {:induction false} InsertAllKeepsNewest(ws: seq<Window>, vs: seq<Window>)
    requires |ws| <= Capacity
    ensures InsertAll(ws, vs) == LastN(ws + vs, Capacity)
  {
    if vs != [] {
      var n := |vs| - 1;
      var front := LastN(ws + vs[..n], Capacity);
      calc {
        InsertAll(ws, vs);
        Insert(InsertAll(ws, vs[..n]), vs[n]);
        { InsertAllKeepsNewest(ws, vs[..n]); }
        Insert(front, vs[n]);
        { InsertKeepsNewest(front, vs[n]); }
        LastN(front + [vs[n]], Capacity);
        { LastNAppend(ws + vs[..n], vs[n], Capacity); }
        LastN(ws + vs[..n] + [vs[n]], Capacity);
        { assert ws + vs[..n] + [vs[n]] == ws + vs; }
        LastN(ws + vs, Capacity);
      }
    }
  }

  /** A run of spawns hands out consecutive ids. */
  lemma SpawnedIds(catalog: seq<string>, firstId: nat, ds: seq<Draws>)
    requires |catalog| > 0 && AllValid(ds)
    ensures Ids(Spawned(catalog, firstId, ds)) == Range(firstId, firstId + |ds|)
  {
  }

  /** The ids left after a run of spawns: the newest Capacity of the ids
      already present followed by the ids just handed out. */
  lemma SpawnRunIds(catalog: seq<string>, ws: seq<Window>, firstId: nat, ds: seq<Draws>)
    requires |catalog| > 0 && AllValid(ds)
    requires |ws| <= Capacity
    ensures Ids(InsertAll(ws, Spawned(catalog, firstId, ds))) ==
      LastN(Ids(ws) + Range(firstId, firstId + |ds|), Capacity)
  {
    var vs := Spawned(catalog, firstId, ds);
    SpawnedIds(catalog, firstId, ds);
    calc {
      Ids(InsertAll(ws, vs));
      { InsertAllKeepsNewest(ws, vs); }
      Ids(LastN(ws + vs, Capacity));
      { IdsLastN(ws + vs, Capacity); }
      LastN(Ids(ws + vs), Capacity);
      { IdsAppend(ws, vs); }
      LastN(Ids(ws) + Ids(vs), Capacity);
    }
  }

  /** Twenty-five spawns from the initial state leave the windows with ids
      5 to 24, in that order. */
  lemma TwentyFiveSpawns(catalog: seq<string>, ds: seq<Draws>)
    requires |catalog| > 0 && AllValid(ds)
    requires |ds| == 25
    ensures Ids(InsertAll([], Spawned(catalog, 0, ds))) == Range(5, 25)
  {
    SpawnRunIds(catalog, [], 0, ds);
    assert Ids([]) + Range(0, 25) == Range(0, 25);
    LastNRange(0, 25, Capacity);
  }

  /** The live state of the page: the id counter, the stacking-order counter
      and the list of windows on screen, oldest first. */
  class Desktop {
    const catalog: seq<string>
    var nextId: nat
    var zIndexRef: nat
    var windows: seq<Window>

    ghost predicate Valid()
      reads this
    {
      |catalog| > 0 && zIndexRef == nextId + FirstZIndex && WellFormed(windows, nextId, catalog)
    }

    constructor (catalog: seq<string>)
      requires |catalog| > 0
      ensures Valid() && this.catalog == catalog
      ensures nextId == 0 && zIndexRef == FirstZIndex && windows == []
    {
      this.catalog := catalog;
      nextId := 0;
      zIndexRef := FirstZIndex;
      windows := [];
    }

    /** Build one window from the counters and the draws, bump both counters,
        and insert the window at the back of the list. */
    method Spawn(d: Draws)
      requires Valid() && ValidDraws(d)
      modifies this
      ensures Valid()
      ensures nextId == old(nextId) + 1 && zIndexRef == old(zIndexRef) + 1
      ensures windows == Insert(old(windows), MakeWindow(catalog, old(nextId), old(zIndexRef), d))
    {
      var id := nextId;
      nextId := nextId + 1;
      var zIndex := zIndexRef;
      zIndexRef := zIndexRef + 1;
      var w := MakeWindow(catalog, id, zIndex, d);
      SpawnKeepsWellFormed(windows, id, catalog, w);
      windows := Insert(windows, w);
    }

    /** Dismiss the window with the given id; the counters do not move. */
    method Remove(id: nat)
      requires Valid()
      modifies this
      ensures Valid()
      ensures nextId == old(nextId) && zIndexRef == old(zIndexRef)
      ensures windows == RemoveById(old(windows), id)
    {
      RemoveKeepsWellFormed(windows, nextId, catalog, id);
      windows := RemoveById(windows, id);
    }

    /** Spawn once per draw, in order (the start-up burst and the ticks of
        the interval timer, with the timing abstracted away). */
    method SpawnEach(ds: seq<Draws>)
      requires Valid() && AllValid(ds)
      modifies this
      ensures Valid()
      ensures nextId == old(nextId) + |ds| && zIndexRef == old(zIndexRef) + |ds|
      ensures windows == InsertAll(old(windows), Spawned(catalog, old(nextId), ds))
    {
      ghost var firstId, initial := nextId, windows;
      var i := 0;
      while i < |ds|
        invariant 0 <= i <= |ds|
        invariant Valid()
        invariant nextId == firstId + i && zIndexRef == old(zIndexRef) + i
        invariant windows == InsertAll(initial, Spawned(catalog, firstId, ds[..i]))
      {
        SpawnStep(catalog, initial, firstId, ds, i);
        Spawn(ds[i]);
        i := i + 1;
      }
      assert ds[..|ds|] == ds;
    }
  }

  /** A client run: a fresh desktop, twenty-five spawns, and the ids on
      screen afterwards. */
  method SpawnTwentyFive(catalog: seq<string>, ds: seq<Draws>) returns (ids: seq<nat>)
    requires |catalog| > 0 && AllValid(ds)
    requires |ds| == 25
    ensures ids == Range(5, 25)
  {
    var desktop := new Desktop(catalog);
    desktop.SpawnEach(ds);
    TwentyFiveSpawns(catalog, ds);
    ids := Ids(desktop.windows);
  }
}
