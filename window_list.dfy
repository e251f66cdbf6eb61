/**
 The ordered, capacity-bounded list of live windows: insertion at the back
 with eviction of the single oldest window once the list holds more than
 Capacity windows, and dismissal of every window with a given id.
 */
module WindowList {
  import opened Windows

  /** The most windows kept alive at once. */
  const Capacity: nat := 20

  function Ids(ws: seq<Window>): seq<nat> {
    seq(|ws|, i requires 0 <= i < |ws| => ws[i].id)
  }

  /** Ids strictly increase from the front (oldest) to the back (newest). */
  predicate IdsAscending(ws: seq<Window>) {
    forall i, j :: 0 <= i < j < |ws| ==> ws[i].id < ws[j].id
  }

  /** The ids lo, lo + 1, ..., hi - 1, in that order. */
  function Range(lo: nat, hi: nat): seq<nat>
    requires lo <= hi
  {
    seq(hi - lo, i requires 0 <= i < hi - lo => lo + i)
  }

  /** The last n elements of s (all of s when it is shorter). */
  function LastN<T>(s: seq<T>, n: nat): seq<T> {
    if |s| <= n then s else s[|s| - n..]
  }

  /** Append w, then drop the front element if the list now exceeds Capacity. */
  function Insert(ws: seq<Window>, w: Window): (r: seq<Window>)
    ensures 0 < |r| && r[|r| - 1] == w
    ensures |ws| <= Capacity ==> |r| <= Capacity
    ensures forall v :: v in r ==> v in ws || v == w
  {
    var next := ws + [w];
    if |next| > Capacity then next[1..] else next
  }

  /** Keep every window whose id differs from id, in their order. */
  function RemoveById(ws: seq<Window>, id: nat): (r: seq<Window>)
    ensures |r| <= |ws|
    ensures forall v {:trigger v in r} :: v in r <==> v in ws && v.id != id
    ensures (forall v :: v in ws ==> v.id != id) ==> r == ws
  {
    if ws == [] then []
    else if ws[0].id != id then [ws[0]] + RemoveById(ws[1..], id)
    else RemoveById(ws[1..], id)
  }

  /** Below capacity nothing is evicted: the old list is kept whole, in
      order, and the new window follows it. */
  lemma InsertBelowCapacity(ws: seq<Window>, w: Window)
    requires |ws| < Capacity
    ensures |Insert(ws, w)| == |ws| + 1
    ensures Insert(ws, w)[..|ws|] == ws
  {
  }

  /** Insert keeps exactly the Capacity most recent windows. */
  lemma InsertKeepsNewest(ws: seq<Window>, w: Window)
    requires |ws| <= Capacity
    ensures Insert(ws, w) == LastN(ws + [w], Capacity)
  {
  }

  /** At capacity exactly one window is evicted: the front one, which has
      the smallest id present, and it is no longer in the list. */
  lemma InsertEvictsOldest(ws: seq<Window>, w: Window)
    requires |ws| == Capacity && IdsAscending(ws)
    requires forall v :: v in ws ==> v.id < w.id
    ensures Insert(ws, w) == ws[1..] + [w]
    ensures forall v :: v in ws ==> ws[0].id <= v.id
    ensures ws[0] !in Insert(ws, w)
  {
  }

  /** Insert keeps the ids ascending when the new id exceeds all present. */
  lemma InsertKeepsAscending(ws: seq<Window>, w: Window)
    requires IdsAscending(ws)
    requires forall v :: v in ws ==> v.id < w.id
    ensures IdsAscending(Insert(ws, w))
  {
  }

  /** Dismissal works element by element, so it keeps relative order. */
  lemma {:induction false} RemoveDistributes(a: seq<Window>, b: seq<Window>, id: nat)
    ensures RemoveById(a + b, id) == RemoveById(a, id) + RemoveById(b, id)
  {
    if a != [] {
      assert (a + b)[1..] == a[1..] + b;
      RemoveDistributes(a[1..], b, id);
    } else {
      assert a + b == b;
    }
  }

  /** Dismissal looks at the front window, then at the rest. */
  lemma RemoveCons(x: Window, rest: seq<Window>, id: nat)
    ensures RemoveById([x] + rest, id) ==
      if x.id != id then [x] + RemoveById(rest, id) else RemoveById(rest, id)
  {
  }

  /** Dismissing an id no window carries changes nothing. */
  lemma RemoveAbsent(ws: seq<Window>, id: nat)
    requires forall i :: 0 <= i < |ws| ==> ws[i].id != id
    ensures RemoveById(ws, id) == ws
  {
  }

  lemma SplitAt<T>(s: seq<T>, k: nat)
    requires k < |s|
    ensures s == s[..k] + ([s[k]] + s[k + 1..])
  {
  }

  /** Dismissing an id that only the window at position k carries takes out
      that window and nothing else. */
  lemma RemoveOnly(ws: seq<Window>, k: nat)
    requires k < |ws|
    requires forall i :: 0 <= i < |ws| && i != k ==> ws[i].id != ws[k].id
    ensures RemoveById(ws, ws[k].id) == ws[..k] + ws[k + 1..]
  {
    var id, before, after := ws[k].id, ws[..k], ws[k + 1..];
    RemoveAbsent(before, id);
    assert forall i :: 0 <= i < |after| ==> after[i] == ws[k + 1 + i];
    RemoveAbsent(after, id);
    calc {
      RemoveById(ws, id);
      { SplitAt(ws, k); }
      RemoveById(before + ([ws[k]] + after), id);
      { RemoveDistributes(before, [ws[k]] + after, id); }
      RemoveById(before, id) + RemoveById([ws[k]] + after, id);
      { RemoveCons(ws[k], after, id); }
      before + after;
    }
  }

  /** With ascending ids, dismissing the id of the window at position k
      takes out that window and nothing else. */
  lemma RemoveAt(ws: seq<Window>, k: nat)
    requires IdsAscending(ws) && k < |ws|
    ensures RemoveById(ws, ws[k].id) == ws[..k] + ws[k + 1..]
  {
    RemoveOnly(ws, k);
  }

  /** A list is ascending exactly when its head is below everything after
      it and its tail is ascending. */
  lemma AscendingCons(x: Window, rest: seq<Window>)
    ensures IdsAscending([x] + rest) <==>
      (forall v :: v in rest ==> x.id < v.id) && IdsAscending(rest)
  {
    var r := [x] + rest;
    if IdsAscending(r) {
      forall v | v in rest ensures x.id < v.id {
        var m :| 0 <= m < |rest| && rest[m] == v;
        assert r[0] == x && r[m + 1] == v;
      }
      forall i, j | 0 <= i < j < |rest| ensures rest[i].id < rest[j].id {
        assert r[i + 1] == rest[i] && r[j + 1] == rest[j];
      }
    }
    if (forall v :: v in rest ==> x.id < v.id) && IdsAscending(rest) {
      forall i, j | 0 <= i < j < |r| ensures r[i].id < r[j].id {
        if i == 0 {
          assert r[j] in rest;
        } else {
          assert r[i] == rest[i - 1] && r[j] == rest[j - 1];
        }
      }
    }
  }

  /** Dismissal keeps the ids ascending. */
  lemma {:induction false} RemoveKeepsAscending(ws: seq<Window>, id: nat)
    requires IdsAscending(ws)
    ensures IdsAscending(RemoveById(ws, id))
  {
    if ws != [] {
      assert ws == [ws[0]] + ws[1..];
      AscendingCons(ws[0], ws[1..]);
      RemoveKeepsAscending(ws[1..], id);
      if ws[0].id != id {
        AscendingCons(ws[0], RemoveById(ws[1..], id));
      }
    }
  }

  /** The last n of a run of consecutive ids are again consecutive. */
  lemma LastNRange(lo: nat, hi: nat, n: nat)
    requires lo + n <= hi
    ensures LastN(Range(lo, hi), n) == Range(hi - n, hi)
  {
  }

  /** The ids of the last n windows are the last n ids. */
  lemma IdsLastN(s: seq<Window>, n: nat)
    ensures Ids(LastN(s, n)) == LastN(Ids(s), n)
  {
  }

  lemma IdsAppend(a: seq<Window>, b: seq<Window>)
    ensures Ids(a + b) == Ids(a) + Ids(b)
  {
  }

  /** Keeping the last n, appending, then keeping the last n again is the
      same as appending and keeping the last n. */
  lemma LastNAppend<T>(s: seq<T>, x: T, n: nat)
    ensures LastN(LastN(s, n) + [x], n) == LastN(s + [x], n)
  {
  }
}
