/** The editor's bounded undo/redo history.

    A fixed array of entry slots, each marked used or free, holds the
    history. Used entries are linked by `prev`/`next` indices into one linear
    timeline, and `current` marks the entry whose snapshot the map currently
    shows. Entries hold a map snapshot of type `M` and a UI snapshot of type
    `U`, both captured by copy and never looked into here.

    Committing an edit allocates a slot (the first free one, or, when every
    slot is used, the oldest entry of the timeline), drops the redo branch
    after `current`, appends the new entry and makes it current. The editor
    allocates BEFORE dropping the redo branch (`NewEntryAsWritten`); with a
    full pool and `current` at the oldest entry this recycles `current`
    itself and links it to itself. `NewEntry` drops the redo branch first and
    keeps the timeline intact on every valid pool.
 */
module History {
  import opened Wrappers

  datatype Entry<M, U> = Entry(action: string, description: string,
                               snap: Option<M>, ui: Option<U>,
                               prev: Option<nat>, next: Option<nat>)

  /** A freshly constructed entry: no snapshots, no links. */
  function BlankEntry<M, U>(): Entry<M, U> {
    Entry("", "", None, None, None, None)
  }

  datatype Pool<M, U> = Pool(used: seq<bool>, entries: seq<Entry<M, U>>, current: Option<nat>)

  // The number of entry slots is the length of `entries`, a parameter of
  // the model: the editor allocates MAX_HISTORY of them, and the properties
  // below hold for any pool of at least two slots.

  predicate WellFormed<M, U>(p: Pool<M, U>) {
    |p.used| == |p.entries|
  }

  predicate CurrentInRange<M, U>(p: Pool<M, U>) {
    WellFormed(p) && p.current.Some? && p.current.value < |p.entries|
  }

  // ---------------------------------------------------------------------
  // The timeline invariant

  predicate Distinct(t: seq<nat>) {
    forall k, l :: 0 <= k < l < |t| ==> t[k] != t[l]
  }

  /** `t` lists the used slots from the oldest entry to the newest: the links
      follow `t` in both directions, its ends have no outer link, every
      listed entry holds both snapshots, the used slots are exactly the
      listed ones and `current` is one of them. */
  ghost predicate Timeline<M, U>(p: Pool<M, U>, t: seq<nat>) {
    && WellFormed(p)
    && |t| >= 1
    && (forall k :: 0 <= k < |t| ==> t[k] < |p.entries|)
    && Distinct(t)
    && (forall i :: 0 <= i < |p.used| ==> (p.used[i] <==> i in t))
    && p.entries[t[0]].prev == None
    && p.entries[t[|t| - 1]].next == None
    && (forall k :: 0 <= k < |t| - 1 ==> p.entries[t[k]].next == Some(t[k + 1]))
    && (forall k :: 0 < k < |t| ==> p.entries[t[k]].prev == Some(t[k - 1]))
    && (forall k :: 0 <= k < |t| ==> p.entries[t[k]].snap.Some? && p.entries[t[k]].ui.Some?)
    && p.current.Some? && p.current.value in t
  }

  ghost predicate Valid<M, U>(p: Pool<M, U>) {
    exists t :: Timeline(p, t)
  }

  /** Position of `current` on the timeline. */
  function IndexOf(t: seq<nat>, x: nat): (k: nat)
    requires x in t
    ensures k < |t| && t[k] == x
    ensures forall l :: 0 <= l < k ==> t[l] != x
  {
    if t[0] == x then 0 else 1 + IndexOf(t[1..], x)
  }

  // ---------------------------------------------------------------------
  // Slot allocation

  /** The first free slot at or after `from`. */
  function FirstFreeFrom(used: seq<bool>, from: nat): (r: Option<nat>)
    requires from <= |used|
    ensures r.Some? ==> from <= r.value < |used| && !used[r.value]
                        && forall j :: from <= j < r.value ==> used[j]
    ensures r.None? ==> forall j :: from <= j < |used| ==> used[j]
    decreases |used| - from
  {
    if from == |used| then None
    else if !used[from] then Some(from)
    else FirstFreeFrom(used, from + 1)
  }

  function FirstFree(used: seq<bool>): (r: Option<nat>)
    ensures r.Some? ==> r.value < |used| && !used[r.value] && forall j :: 0 <= j < r.value ==> used[j]
    ensures r.None? ==> forall j :: 0 <= j < |used| ==> used[j]
  {
    FirstFreeFrom(used, 0)
  }

  /** Follows `prev` links from slot `i`, at most `fuel` times. */
  function WalkPrev<M, U>(entries: seq<Entry<M, U>>, i: nat, fuel: nat): nat
    decreases fuel
  {
    if fuel == 0 || i >= |entries| then i
    else match entries[i].prev
      case None => i
      case Some(j) => WalkPrev(entries, j, fuel - 1)
  }

  /** The oldest entry reached from `current` (a timeline has at most as many
      entries as there are slots, so that many steps reach its start). */
  function Root<M, U>(p: Pool<M, U>): nat
    requires CurrentInRange(p)
  {
    WalkPrev(p.entries, p.current.value, |p.entries|)
  }

  /** When no slot is free, allocation dereferences the oldest entry's
      successor: the editor requires one to exist. */
  predicate CanAlloc<M, U>(p: Pool<M, U>) {
    WellFormed(p) &&
    (FirstFree(p.used).Some? ||
     (CurrentInRange(p) && Root(p) < |p.entries|
      && p.entries[Root(p)].next.Some? && p.entries[Root(p)].next.value < |p.entries|))
  }

  datatype Allocation<M, U> = Allocation(pool: Pool<M, U>, slot: nat)

  /** HistoryAllocEntry: marks and blanks the first free slot; with none
      free, detaches the oldest entry from its successor and blanks it. */
  function Alloc<M, U>(p: Pool<M, U>): (a: Allocation<M, U>)
    requires CanAlloc(p)
    ensures WellFormed(a.pool) && |a.pool.entries| == |p.entries|
    ensures a.slot < |p.entries| && a.pool.used[a.slot]
    ensures a.pool.entries[a.slot] == BlankEntry()
    ensures a.pool.current == p.current
  {
    match FirstFree(p.used)
    case Some(i) =>
      Allocation(p.(used := p.used[i := true], entries := p.entries[i := BlankEntry()]), i)
    case None =>
      var r := Root(p);
      var n := p.entries[r].next.value;
      var es := p.entries[n := p.entries[n].(prev := None)];
      Allocation(p.(entries := es[r := BlankEntry()]), r)
  }

  // ---------------------------------------------------------------------
  // Dropping the redo branch

  /** HistoryDeallocEntry applied along the `next` links from `start`: each
      visited slot is marked free; links and contents stay as they are. */
  function FreeFrom<M, U>(p: Pool<M, U>, start: Option<nat>, fuel: nat): (r: Pool<M, U>)
    requires WellFormed(p)
    ensures WellFormed(r) && r.entries == p.entries && r.current == p.current
    ensures forall i :: 0 <= i < |p.used| && !p.used[i] ==> !r.used[i]
    decreases fuel
  {
    match start
    case None => p
    case Some(i) =>
      if fuel == 0 || i >= |p.entries| then p
      else FreeFrom(p.(used := p.used[i := false]), p.entries[i].next, fuel - 1)
  }

  /** The new entry's fields after allocation. */
  function Fill<M, U>(e: Entry<M, U>, action: string, description: string, snap: M, ui: U): Entry<M, U> {
    e.(snap := Some(snap), ui := Some(ui), action := action, description := description)
  }

  /** Links `e` after `cur` and makes it current. */
  function Append<M, U>(p: Pool<M, U>, cur: nat, e: nat): (r: Pool<M, U>)
    requires WellFormed(p) && cur < |p.entries| && e < |p.entries|
    ensures WellFormed(r) && r.used == p.used && |r.entries| == |p.entries|
    ensures r.current == Some(e)
  {
    var es := p.entries[cur := p.entries[cur].(next := Some(e))];
    p.(entries := es[e := es[e].(prev := Some(cur))], current := Some(e))
  }

  /** What a commit promises about the slots: the new current entry holds
      the given snapshots and links back to the old current entry, and every
      other slot keeps its snapshots. */
  ghost predicate CommitsAfter<M, U>(p: Pool<M, U>, r: Pool<M, U>, snap: M, ui: U)
    requires CurrentInRange(p) && WellFormed(r) && |r.entries| == |p.entries|
  {
    && r.current.Some? && r.current.value < |r.entries|
    && r.entries[r.current.value].snap == Some(snap)
    && r.entries[r.current.value].ui == Some(ui)
    && r.entries[r.current.value].prev == Some(p.current.value)
    && (forall i :: 0 <= i < |r.entries| && i != r.current.value ==>
          r.entries[i].snap == p.entries[i].snap && r.entries[i].ui == p.entries[i].ui)
  }

  /** HistoryNewEntry as the editor orders it: allocate, fill, drop the redo
      branch of `current`, append. */
  function NewEntryAsWritten<M, U>(p: Pool<M, U>, action: string, description: string, snap: M, ui: U): (r: Pool<M, U>)
    requires CurrentInRange(p) && CanAlloc(p)
    ensures WellFormed(r) && |r.entries| == |p.entries|
    ensures CommitsAfter(p, r, snap, ui)
  {
    var cur := p.current.value;
    var a := Alloc(p);
    var e := a.slot;
    var p1 := a.pool.(entries := a.pool.entries[e := Fill(a.pool.entries[e], action, description, snap, ui)]);
    var p2 := FreeFrom(p1, p1.entries[cur].next, |p1.entries|);
    Append(p2, cur, e)
  }

  /** HistoryNewEntry with the redo branch dropped before allocating. */
  function NewEntry<M, U>(p: Pool<M, U>, action: string, description: string, snap: M, ui: U): (r: Pool<M, U>)
    requires CurrentInRange(p)
    requires CanAlloc(FreeFrom(p, p.entries[p.current.value].next, |p.entries|))
    ensures WellFormed(r) && |r.entries| == |p.entries|
    ensures CommitsAfter(p, r, snap, ui)
  {
    var cur := p.current.value;
    var p1 := FreeFrom(p, p.entries[cur].next, |p.entries|);
    var a := Alloc(p1);
    var e := a.slot;
    var p2 := a.pool.(entries := a.pool.entries[e := Fill(a.pool.entries[e], action, description, snap, ui)]);
    Append(p2, cur, e)
  }

  /** HistoryClear: every slot becomes free; contents and links stay. */
  function Clear<M, U>(p: Pool<M, U>): (r: Pool<M, U>)
    requires WellFormed(p)
    ensures WellFormed(r) && r.entries == p.entries
    ensures forall i :: 0 <= i < |r.used| ==> !r.used[i]
    ensures |p.entries| > 0 ==> FirstFree(r.used) == Some(0)
  {
    p.(used := seq(|p.used|, _ => false))
  }

  /** The history after a map is loaded: the pool cleared, `current` reset,
      and one "Map loaded" entry described by the map's path holding the
      loaded state. */
  function Start<M, U>(p: Pool<M, U>, path: string, snap: M, ui: U): (r: Pool<M, U>)
    requires WellFormed(p) && |p.entries| > 0
    ensures Timeline(r, [0]) && r.current == Some(0) && |r.entries| == |p.entries|
    ensures r.entries[0].snap == Some(snap) && r.entries[0].ui == Some(ui)
  {
    var cleared := Clear(p).(current := None);
    var a := Alloc(cleared);
    var e := a.slot;
    a.pool.(entries := a.pool.entries[e := Fill(a.pool.entries[e], "Map loaded", path, snap, ui)],
            current := Some(e))
  }

  /** Moving `current` to the entry before it (undo) or after it (redo);
      nothing happens at either end of the timeline. */
  function StepBack<M, U>(p: Pool<M, U>): (r: Pool<M, U>)
    requires CurrentInRange(p)
  {
    match p.entries[p.current.value].prev
    case None => p
    case Some(k) => p.(current := Some(k))
  }

  function StepForward<M, U>(p: Pool<M, U>): (r: Pool<M, U>)
    requires CurrentInRange(p)
  {
    match p.entries[p.current.value].next
    case None => p
    case Some(k) => p.(current := Some(k))
  }

  // ---------------------------------------------------------------------
  // Counting slots

  function Slots(n: nat): (r: set<nat>)
    ensures forall i: int :: i in r <==> 0 <= i < n
  {
    if n == 0 then {} else Slots(n - 1) + {n - 1}
  }

  function Elements(t: seq<nat>): set<nat> {
    set x | x in t
  }

  function UsedSlots<M, U>(p: Pool<M, U>): set<nat> {
    set i: nat | i < |p.used| && p.used[i]
  }

  lemma {:induction false} SlotsCard(n: nat)
    ensures |Slots(n)| == n
  {
    if n > 0 {
      SlotsCard(n - 1);
    }
  }

  lemma {:induction false} DistinctElements(t: seq<nat>)
    requires Distinct(t)
    ensures |Elements(t)| == |t|
  {
    if |t| > 0 {
      var u := t[..|t| - 1];
      DistinctElements(u);
      assert Elements(t) == Elements(u) + {t[|t| - 1]};
    }
  }

  lemma SubsetCard(a: set<nat>, b: set<nat>)
    requires a <= b
    ensures |a| <= |b|
  {
    assert b == a + (b - a);
    assert a * (b - a) == {};
  }

  /** A timeline lists exactly the used slots, so no used slot is unreachable
      from it, and it never holds more entries than there are slots. */
  lemma {:induction false} TimelineFits<M, U>(p: Pool<M, U>, t: seq<nat>)
    requires Timeline(p, t)
    ensures UsedSlots(p) == Elements(t)
    ensures |UsedSlots(p)| == |t| <= |p.entries|
  {
    DistinctElements(t);
    SlotsCard(|p.entries|);
    assert Elements(t) <= Slots(|p.entries|);
    SubsetCard(Elements(t), Slots(|p.entries|));
  }

  // ---------------------------------------------------------------------
  // Walking and freeing along a timeline

  lemma {:induction false} WalkToOldest<M, U>(p: Pool<M, U>, t: seq<nat>, j: nat, fuel: nat)
    requires Timeline(p, t) && j < |t| && fuel >= j
    ensures WalkPrev(p.entries, t[j], fuel) == t[0]
  {
    if j > 0 {
      WalkToOldest(p, t, j - 1, fuel - 1);
    }
  }

  /** Allocation's backwards walk from `current` ends at the timeline's
      oldest entry. */
  lemma RootIsOldest<M, U>(p: Pool<M, U>, t: seq<nat>)
    requires Timeline(p, t)
    ensures CurrentInRange(p) && Root(p) == t[0]
  {
    var j := IndexOf(t, p.current.value);
    TimelineFits(p, t);
    WalkToOldest(p, t, j, |p.entries|);
  }

  lemma {:induction false} FreeSuffix<M, U>(p: Pool<M, U>, t: seq<nat>, q: Pool<M, U>, k: nat, fuel: nat)
    requires Timeline(p, t) && WellFormed(q) && q.entries == p.entries
    requires k < |t| && fuel >= |t| - k
    ensures forall i :: 0 <= i < |q.used| ==>
              FreeFrom(q, Some(t[k]), fuel).used[i] == (q.used[i] && i !in t[k..])
    decreases |t| - k
  {
    var q' := q.(used := q.used[t[k] := false]);
    assert t[k..] == [t[k]] + t[k + 1..];
    if k + 1 < |t| {
      FreeSuffix(p, t, q', k + 1, fuel - 1);
    }
  }

  /** Dropping the redo branch of `t[j]` frees exactly the entries after it. */
  lemma {:induction false} FreeRedoBranch<M, U>(p: Pool<M, U>, t: seq<nat>, j: nat)
    requires Timeline(p, t) && j < |t|
    ensures forall i :: 0 <= i < |p.used| ==>
              FreeFrom(p, p.entries[t[j]].next, |p.entries|).used[i] == (i in t[..j + 1])
  {
    TimelineFits(p, t);
    if j + 1 < |t| {
      FreeSuffix(p, t, p, j + 1, |p.entries|);
      forall i | 0 <= i < |p.used|
        ensures (i in t && i !in t[j + 1..]) == (i in t[..j + 1])
      {
        if i in t[..j + 1] {
          var m := IndexOf(t[..j + 1], i);
          assert t[m] == i;
        }
        if i in t && i !in t[..j + 1] {
          var m := IndexOf(t, i);
          assert t[j + 1..][m - (j + 1)] == i;
        }
      }
    } else {
      assert t[..j + 1] == t;
    }
  }

  // ---------------------------------------------------------------------
  // Committing a new entry

  lemma AppendEntries<M, U>(p: Pool<M, U>, cur: nat, e: nat)
    requires WellFormed(p) && cur < |p.entries| && e < |p.entries| && cur != e
    ensures Append(p, cur, e).entries[cur] == p.entries[cur].(next := Some(e))
    ensures Append(p, cur, e).entries[e] == p.entries[e].(prev := Some(cur))
    ensures forall i :: 0 <= i < |p.entries| && i != cur && i != e ==>
              Append(p, cur, e).entries[i] == p.entries[i]
  {
  }

  /** Appending slot `e` after `t[j]` in a pool that agrees with `p` except
      at `e` and whose used slots are `t[..j + 1]` and `e`. */
  lemma {:induction false} ExtendTimeline<M, U>(p: Pool<M, U>, t: seq<nat>, j: nat, q: Pool<M, U>, e: nat)
    requires Timeline(p, t) && j < |t|
    requires WellFormed(q) && |q.entries| == |p.entries| && e < |q.entries| && e !in t[..j + 1]
    requires forall i :: 0 <= i < |q.used| ==> (q.used[i] <==> i in t[..j + 1] || i == e)
    requires forall i :: 0 <= i < |q.entries| && i != e ==> q.entries[i] == p.entries[i]
    requires q.entries[e].next == None && q.entries[e].snap.Some? && q.entries[e].ui.Some?
    ensures Timeline(Append(q, t[j], e), t[..j + 1] + [e])
  {
    ExtendLinks(p, t, j, q, e);
    ExtendSlots(p, t, j, q, e);
  }

  lemma {:induction false} ExtendLinks<M, U>(p: Pool<M, U>, t: seq<nat>, j: nat, q: Pool<M, U>, e: nat)
    requires Timeline(p, t) && j < |t|
    requires WellFormed(q) && |q.entries| == |p.entries| && e < |q.entries| && e !in t[..j + 1]
    requires forall i :: 0 <= i < |q.entries| && i != e ==> q.entries[i] == p.entries[i]
    requires q.entries[e].next == None && q.entries[e].snap.Some? && q.entries[e].ui.Some?
    ensures var r, t' := Append(q, t[j], e), t[..j + 1] + [e];
            && r.entries[t'[0]].prev == None && r.entries[t'[|t'| - 1]].next == None
            && (forall k :: 0 <= k < |t'| - 1 ==> r.entries[t'[k]].next == Some(t'[k + 1]))
            && (forall k :: 0 < k < |t'| ==> r.entries[t'[k]].prev == Some(t'[k - 1]))
            && (forall k :: 0 <= k < |t'| ==> r.entries[t'[k]].snap.Some? && r.entries[t'[k]].ui.Some?)
  {
    var cur := t[j];
    var r := Append(q, cur, e);
    AppendEntries(q, cur, e);
    var t' := t[..j + 1] + [e];
    forall k | 0 <= k < |t'| - 1
      ensures r.entries[t'[k]].next == Some(t'[k + 1])
    {
      if k < j {
        assert t'[k] == t[k] != cur;
      }
    }
    forall k | 0 < k < |t'|
      ensures r.entries[t'[k]].prev == Some(t'[k - 1])
    {
      if k <= j {
        assert t'[k] == t[k];
      }
    }
    forall k | 0 <= k < |t'|
      ensures r.entries[t'[k]].snap.Some? && r.entries[t'[k]].ui.Some?
    {
      if k <= j {
        assert t'[k] == t[k];
      }
    }
    assert t'[0] == t[0];
  }

  lemma {:induction false} ExtendSlots<M, U>(p: Pool<M, U>, t: seq<nat>, j: nat, q: Pool<M, U>, e: nat)
    requires Timeline(p, t) && j < |t|
    requires WellFormed(q) && |q.entries| == |p.entries| && e < |q.entries| && e !in t[..j + 1]
    requires forall i :: 0 <= i < |q.used| ==> (q.used[i] <==> i in t[..j + 1] || i == e)
    ensures var r, t' := Append(q, t[j], e), t[..j + 1] + [e];
            && (forall k :: 0 <= k < |t'| ==> t'[k] < |r.entries|)
            && Distinct(t')
            && (forall i :: 0 <= i < |r.used| ==> (r.used[i] <==> i in t'))
            && r.current.Some? && r.current.value in t'
  {
    var t' := t[..j + 1] + [e];
    assert forall i :: i in t' <==> i in t[..j + 1] || i == e;
    forall k, l | 0 <= k < l < |t'|
      ensures t'[k] != t'[l]
    {
      assert t'[k] == t[k];
      if l <= j {
        assert t'[l] == t[l];
      } else {
        assert t'[l] == e && t[k] in t[..j + 1];
      }
    }
    forall k | 0 <= k < |t'|
      ensures t'[k] < |q.entries|
    {
      if k <= j {
        assert t'[k] == t[k];
      }
    }
  }

  /** Committing when a slot is free after dropping the redo branch: the
      timeline up to `current` gains the new entry at its end. */
  lemma {:induction false} NewEntryIntoFreeSlot<M, U>(p: Pool<M, U>, t: seq<nat>, j: nat,
                                                      action: string, description: string, snap: M, ui: U)
    requires Timeline(p, t) && j < |t| && p.current == Some(t[j])
    requires FirstFree(FreeFrom(p, p.entries[t[j]].next, |p.entries|).used).Some?
    ensures var e := FirstFree(FreeFrom(p, p.entries[t[j]].next, |p.entries|).used).value;
            Timeline(NewEntry(p, action, description, snap, ui), t[..j + 1] + [e])
  {
    var cap, cur := |p.entries|, t[j];
    var p1 := FreeFrom(p, p.entries[cur].next, cap);
    FreeRedoBranch(p, t, j);
    var e := FirstFree(p1.used).value;
    var a := Alloc(p1);
    assert a.slot == e && a.pool == p1.(used := p1.used[e := true], entries := p.entries[e := BlankEntry()]);
    var p2 := a.pool.(entries := a.pool.entries[e := Fill(a.pool.entries[e], action, description, snap, ui)]);
    ExtendTimeline(p, t, j, p2, e);
  }

  /** Reusing the oldest slot `t[0]` as the new entry after `t[j]` in a pool
      with every slot used: `t[1]` becomes the oldest entry. */
  lemma {:induction false} RecycleTimeline<M, U>(p: Pool<M, U>, t: seq<nat>, j: nat, q: Pool<M, U>)
    requires Timeline(p, t) && 1 <= j < |t|
    requires WellFormed(q) && |q.entries| == |p.entries|
    requires AllUsedWithin(q.used, t[..j + 1])
    requires q.entries[t[1]] == p.entries[t[1]].(prev := None)
    requires forall i :: 0 <= i < |q.entries| && i != t[0] && i != t[1] ==> q.entries[i] == p.entries[i]
    requires q.entries[t[0]].next == None && q.entries[t[0]].snap.Some? && q.entries[t[0]].ui.Some?
    ensures Timeline(Append(q, t[j], t[0]), t[1..j + 1] + [t[0]])
  {
    RecycleSlots(p, t, j, q);
    RecycleLinks(p, t, j, q);
  }

  lemma {:induction false} RecycleLinks<M, U>(p: Pool<M, U>, t: seq<nat>, j: nat, q: Pool<M, U>)
    requires Timeline(p, t) && 1 <= j < |t|
    requires WellFormed(q) && |q.entries| == |p.entries|
    requires q.entries[t[1]] == p.entries[t[1]].(prev := None)
    requires forall i :: 0 <= i < |q.entries| && i != t[0] && i != t[1] ==> q.entries[i] == p.entries[i]
    requires q.entries[t[0]].next == None && q.entries[t[0]].snap.Some? && q.entries[t[0]].ui.Some?
    ensures var r, t' := Append(q, t[j], t[0]), t[1..j + 1] + [t[0]];
            && r.entries[t'[0]].prev == None && r.entries[t'[|t'| - 1]].next == None
            && (forall k :: 0 <= k < |t'| - 1 ==> r.entries[t'[k]].next == Some(t'[k + 1]))
            && (forall k :: 0 < k < |t'| ==> r.entries[t'[k]].prev == Some(t'[k - 1]))
            && (forall k :: 0 <= k < |t'| ==> r.entries[t'[k]].snap.Some? && r.entries[t'[k]].ui.Some?)
  {
    AppendEntries(q, t[j], t[0]);
    RecycleNext(p, t, j, q);
    RecyclePrev(p, t, j, q);
    RecycleSnaps(p, t, j, q);
  }

  lemma {:induction false} RecycleNext<M, U>(p: Pool<M, U>, t: seq<nat>, j: nat, q: Pool<M, U>)
    requires Timeline(p, t) && 1 <= j < |t|
    requires WellFormed(q) && |q.entries| == |p.entries|
    requires q.entries[t[1]] == p.entries[t[1]].(prev := None)
    requires forall i :: 0 <= i < |q.entries| && i != t[0] && i != t[1] ==> q.entries[i] == p.entries[i]
    requires q.entries[t[0]].next == None && q.entries[t[0]].snap.Some? && q.entries[t[0]].ui.Some?
    ensures var r, t' := Append(q, t[j], t[0]), t[1..j + 1] + [t[0]];
            forall k :: 0 <= k < |t'| - 1 ==> r.entries[t'[k]].next == Some(t'[k + 1])
  {
    var cur, e := t[j], t[0];
    var r := Append(q, cur, e);
    AppendEntries(q, cur, e);
    var t' := t[1..j + 1] + [e];
    assert |t'| == j + 1;
    forall k | 0 <= k < |t'| - 1
      ensures r.entries[t'[k]].next == Some(t'[k + 1])
    {
      assert t'[k] == t[k + 1];
      if k + 1 < j {
        assert t'[k + 1] == t[k + 2] && t[k + 1] != cur && t[k + 1] != e;
        assert r.entries[t[k + 1]].next == p.entries[t[k + 1]].next;
      } else {
        assert t'[k + 1] == e;
      }
    }
  }

  lemma {:induction false} RecyclePrev<M, U>(p: Pool<M, U>, t: seq<nat>, j: nat, q: Pool<M, U>)
    requires Timeline(p, t) && 1 <= j < |t|
    requires WellFormed(q) && |q.entries| == |p.entries|
    requires q.entries[t[1]] == p.entries[t[1]].(prev := None)
    requires forall i :: 0 <= i < |q.entries| && i != t[0] && i != t[1] ==> q.entries[i] == p.entries[i]
    requires q.entries[t[0]].next == None && q.entries[t[0]].snap.Some? && q.entries[t[0]].ui.Some?
    ensures var r, t' := Append(q, t[j], t[0]), t[1..j + 1] + [t[0]];
            forall k :: 0 < k < |t'| ==> r.entries[t'[k]].prev == Some(t'[k - 1])
  {
    var cur, e := t[j], t[0];
    var r := Append(q, cur, e);
    AppendEntries(q, cur, e);
    var t' := t[1..j + 1] + [e];
    assert |t'| == j + 1;
    forall k | 0 < k < |t'|
      ensures r.entries[t'[k]].prev == Some(t'[k - 1])
    {
      if k < j {
        assert t'[k] == t[k + 1] && t'[k - 1] == t[k];
      } else {
        assert t'[k] == e && t'[k - 1] == cur;
      }
    }
  }

  lemma {:induction false} RecycleSnaps<M, U>(p: Pool<M, U>, t: seq<nat>, j: nat, q: Pool<M, U>)
    requires Timeline(p, t) && 1 <= j < |t|
    requires WellFormed(q) && |q.entries| == |p.entries|
    requires q.entries[t[1]] == p.entries[t[1]].(prev := None)
    requires forall i :: 0 <= i < |q.entries| && i != t[0] && i != t[1] ==> q.entries[i] == p.entries[i]
    requires q.entries[t[0]].next == None && q.entries[t[0]].snap.Some? && q.entries[t[0]].ui.Some?
    ensures var r, t' := Append(q, t[j], t[0]), t[1..j + 1] + [t[0]];
            forall k :: 0 <= k < |t'| ==> r.entries[t'[k]].snap.Some? && r.entries[t'[k]].ui.Some?
  {
    var cur, e := t[j], t[0];
    var r := Append(q, cur, e);
    AppendEntries(q, cur, e);
    var t' := t[1..j + 1] + [e];
    assert |t'| == j + 1;
    forall k | 0 <= k < |t'|
      ensures r.entries[t'[k]].snap.Some? && r.entries[t'[k]].ui.Some?
    {
      if k < j {
        assert t'[k] == t[k + 1];
      }
    }
  }

  /** Every slot is used and listed in `kept`. */
  predicate AllUsedWithin(used: seq<bool>, kept: seq<nat>) {
    forall i :: 0 <= i < |used| ==> used[i] && i in kept
  }

  lemma {:induction false} RecycleSlots<M, U>(p: Pool<M, U>, t: seq<nat>, j: nat, q: Pool<M, U>)
    requires Timeline(p, t) && 1 <= j < |t|
    requires WellFormed(q) && |q.entries| == |p.entries|
    requires AllUsedWithin(q.used, t[..j + 1])
    ensures var r, t' := Append(q, t[j], t[0]), t[1..j + 1] + [t[0]];
            && (forall k :: 0 <= k < |t'| ==> t'[k] < |r.entries|)
            && Distinct(t')
            && (forall i :: 0 <= i < |r.used| ==> (r.used[i] <==> i in t'))
            && r.current.Some? && r.current.value in t'
  {
    var e := t[0];
    var r := Append(q, t[j], e);
    var t' := t[1..j + 1] + [e];
    assert |t'| == j + 1;
    forall i | 0 <= i < |r.used|
      ensures i in t'
    {
      assert q.used[i];
      var m := IndexOf(t[..j + 1], i);
      if m == 0 {
        assert t'[j] == i;
      } else {
        assert t'[m - 1] == i;
      }
    }
    forall k, l | 0 <= k < l < |t'|
      ensures t'[k] != t'[l]
    {
      if l < j {
        assert t'[k] == t[k + 1] && t'[l] == t[l + 1];
      } else {
        assert t'[k] == t[k + 1];
      }
    }
    assert t'[j] == e;
  }

  /** Committing when no slot is free after dropping the redo branch: the
      oldest entry is recycled as the new one. This needs at least two slots,
      and then `current` is not the oldest entry. */
  lemma {:induction false} NewEntryRecyclingOldest<M, U>(p: Pool<M, U>, t: seq<nat>, j: nat,
                                                        action: string, description: string, snap: M, ui: U)
    requires Timeline(p, t) && j < |t| && p.current == Some(t[j]) && |p.entries| >= 2
    requires FirstFree(FreeFrom(p, p.entries[t[j]].next, |p.entries|).used).None?
    ensures 1 <= j && CanAlloc(FreeFrom(p, p.entries[t[j]].next, |p.entries|))
    ensures Timeline(NewEntry(p, action, description, snap, ui), t[1..j + 1] + [t[0]])
  {
    var p1 := FreeFrom(p, p.entries[t[j]].next, |p.entries|);
    RecycleOldestSlot(p, t, j);
    var es := p.entries[t[1] := p.entries[t[1]].(prev := None)];
    var p2 := p1.(entries := es[t[0] := Fill(BlankEntry(), action, description, snap, ui)]);
    assert NewEntry(p, action, description, snap, ui) == Append(p2, t[j], t[0]);
    RecycleTimeline(p, t, j, p2);
  }

  /** With no slot free after dropping the redo branch, allocation detaches
      and blanks the oldest entry `t[0]`, and every slot holds an entry up to
      `current`. */
  lemma {:induction false} RecycleOldestSlot<M, U>(p: Pool<M, U>, t: seq<nat>, j: nat)
    requires Timeline(p, t) && j < |t| && p.current == Some(t[j]) && |p.entries| >= 2
    requires FirstFree(FreeFrom(p, p.entries[t[j]].next, |p.entries|).used).None?
    ensures var p1 := FreeFrom(p, p.entries[t[j]].next, |p.entries|);
            && 1 <= j && t[0] != t[1] && CanAlloc(p1)
            && AllUsedWithin(p1.used, t[..j + 1])
            && Alloc(p1) == Allocation(p1.(entries := p.entries[t[1] := p.entries[t[1]].(prev := None)][t[0] := BlankEntry()]), t[0])
  {
    var p1 := FreeFrom(p, p.entries[t[j]].next, |p.entries|);
    FreeRedoBranch(p, t, j);
    var kept := t[..j + 1];
    forall i | 0 <= i < |p1.used|
      ensures p1.used[i] && i in kept
    {
      assert p1.used[i] == (i in kept);
    }
    assert AllUsedWithin(p1.used, kept);
    assert |p1.used| == |p.entries| >= 2;
    assert p1.used[0] && p1.used[1];
    var m0, m1 := IndexOf(t[..j + 1], 0), IndexOf(t[..j + 1], 1);
    assert m0 != m1 && m0 < j + 1 && m1 < j + 1;
    assert 1 <= j;
    assert t[0] != t[1];
    RootIsOldest(p, t);
    assert Root(p1) == t[0];
    assert p.entries[t[0]].next == Some(t[1]);
  }

  /** Committing on a valid pool with at least two slots keeps a valid
      timeline: the entries up to the old `current` followed by the new one,
      except that a full pool whose `current` was the newest entry drops its
      oldest entry. */
  lemma {:induction false} NewEntryKeepsTimeline<M, U>(p: Pool<M, U>, t: seq<nat>,
                                                      action: string, description: string, snap: M, ui: U)
    returns (t': seq<nat>)
    requires Timeline(p, t) && |p.entries| >= 2
    ensures CurrentInRange(p) && CanAlloc(FreeFrom(p, p.entries[p.current.value].next, |p.entries|))
    ensures var r := NewEntry(p, action, description, snap, ui);
            var j := IndexOf(t, p.current.value);
            && Timeline(r, t')
            && |t'| >= 2 && t'[|t'| - 2] == p.current.value && r.current == Some(t'[|t'| - 1])
            && (t'[..|t'| - 1] == t[..j + 1]
                || (|t| == |p.entries| && j == |t| - 1 && t'[..|t'| - 1] == t[1..]))
  {
    var j := IndexOf(t, p.current.value);
    if FirstFree(FreeFrom(p, p.entries[t[j]].next, |p.entries|).used).Some? {
      t' := CommitIntoFreeSlot(p, t, j, action, description, snap, ui);
    } else {
      t' := CommitRecyclingOldest(p, t, j, action, description, snap, ui);
    }
  }

  lemma {:induction false} CommitIntoFreeSlot<M, U>(p: Pool<M, U>, t: seq<nat>, j: nat,
                                                   action: string, description: string, snap: M, ui: U)
    returns (t': seq<nat>)
    requires Timeline(p, t) && j < |t| && p.current == Some(t[j])
    requires FirstFree(FreeFrom(p, p.entries[t[j]].next, |p.entries|).used).Some?
    ensures CurrentInRange(p) && CanAlloc(FreeFrom(p, p.entries[t[j]].next, |p.entries|))
    ensures var r := NewEntry(p, action, description, snap, ui);
            && Timeline(r, t')
            && |t'| >= 2 && t'[|t'| - 2] == t[j] && r.current == Some(t'[|t'| - 1])
            && t'[..|t'| - 1] == t[..j + 1]
  {
    NewEntryIntoFreeSlot(p, t, j, action, description, snap, ui);
    t' := t[..j + 1] + [FirstFree(FreeFrom(p, p.entries[t[j]].next, |p.entries|).used).value];
    assert t'[..|t'| - 1] == t[..j + 1];
  }

  lemma {:induction false} CommitRecyclingOldest<M, U>(p: Pool<M, U>, t: seq<nat>, j: nat,
                                                      action: string, description: string, snap: M, ui: U)
    returns (t': seq<nat>)
    requires Timeline(p, t) && j < |t| && p.current == Some(t[j]) && |p.entries| >= 2
    requires FirstFree(FreeFrom(p, p.entries[t[j]].next, |p.entries|).used).None?
    ensures CurrentInRange(p) && CanAlloc(FreeFrom(p, p.entries[t[j]].next, |p.entries|))
    ensures var r := NewEntry(p, action, description, snap, ui);
            && Timeline(r, t')
            && |t'| >= 2 && t'[|t'| - 2] == t[j] && r.current == Some(t'[|t'| - 1])
            && |t| == |p.entries| && j == |t| - 1 && t'[..|t'| - 1] == t[1..]
  {
    NewEntryRecyclingOldest(p, t, j, action, description, snap, ui);
    FullPoolAtNewest(p, t, j);
    t' := t[1..j + 1] + [t[0]];
    assert t'[..|t'| - 1] == t[1..];
  }

  /** No slot is free after dropping the redo branch only when the pool was
      full and `current` was the newest entry. */
  lemma {:induction false} FullPoolAtNewest<M, U>(p: Pool<M, U>, t: seq<nat>, j: nat)
    requires Timeline(p, t) && j < |t|
    requires FirstFree(FreeFrom(p, p.entries[t[j]].next, |p.entries|).used).None?
    ensures |t| == |p.entries| && j == |t| - 1
  {
    var cap := |p.entries|;
    AllKeptAfterFree(p, t, j);
    TimelineFits(p, t);
    SubsetCard(Slots(cap), Elements(t[..j + 1]));
    SlotsCard(cap);
    DistinctPrefix(t, j + 1);
    DistinctElements(t[..j + 1]);
  }

  lemma DistinctPrefix(t: seq<nat>, n: nat)
    requires Distinct(t) && n <= |t|
    ensures Distinct(t[..n])
  {
    forall k, l | 0 <= k < l < n
      ensures t[..n][k] != t[..n][l]
    {
      assert t[..n][k] == t[k] && t[..n][l] == t[l];
    }
  }

  /** With no slot free after dropping the redo branch of `t[j]`, every slot
      is one of the entries up to `t[j]`. */
  lemma {:induction false} AllKeptAfterFree<M, U>(p: Pool<M, U>, t: seq<nat>, j: nat)
    requires Timeline(p, t) && j < |t|
    requires FirstFree(FreeFrom(p, p.entries[t[j]].next, |p.entries|).used).None?
    ensures Slots(|p.entries|) <= Elements(t[..j + 1])
  {
    var p1 := FreeFrom(p, p.entries[t[j]].next, |p.entries|);
    FreeRedoBranch(p, t, j);
    forall i | i in Slots(|p.entries|)
      ensures i in Elements(t[..j + 1])
    {
      assert p1.used[i];
    }
  }

  // ---------------------------------------------------------------------
  // The commit as written, after undoing to the oldest entry of a full pool

  lemma {:induction false} SelfLinkedWalk<M, U>(entries: seq<Entry<M, U>>, x: nat, fuel: nat)
    requires x < |entries| && entries[x].prev == Some(x)
    ensures WalkPrev(entries, x, fuel) == x
    decreases fuel
  {
    if fuel > 0 {
      SelfLinkedWalk(entries, x, fuel - 1);
    }
  }

  lemma TimelineHasNoSelfLink<M, U>(p: Pool<M, U>, t: seq<nat>)
    requires Timeline(p, t)
    ensures CurrentInRange(p) && p.entries[p.current.value].prev != p.current
  {
    var k := IndexOf(t, p.current.value);
    if k > 0 {
      assert t[k - 1] != t[k];
    }
  }

  /** A current entry that is its own predecessor lies on no timeline. */
  lemma {:induction false} SelfLinkBreaksTimeline<M, U>(p: Pool<M, U>, x: nat, t: seq<nat>)
    requires p.current == Some(x) && x < |p.entries| && p.entries[x].prev == Some(x)
    ensures !Timeline(p, t)
  {
    if Timeline(p, t) {
      TimelineHasNoSelfLink(p, t);
    }
  }

  /** With every slot used and `current` at the oldest entry, the commit as
      written recycles `current` itself: the new entry becomes its own
      predecessor and successor, no slot is freed, the backwards walk from
      it never reaches an entry without predecessor, and the pool holds no
      timeline any more. */
  lemma {:induction false} RecycledCurrentLinksToItself<M, U>(p: Pool<M, U>, t: seq<nat>,
                                                             action: string, description: string, snap: M, ui: U)
    requires Timeline(p, t) && |t| >= 2 && p.current == Some(t[0])
    requires forall i :: 0 <= i < |p.used| ==> p.used[i]
    ensures CurrentInRange(p) && CanAlloc(p)
    ensures var r := NewEntryAsWritten(p, action, description, snap, ui);
            && r.current == Some(t[0])
            && r.entries[t[0]].prev == Some(t[0]) && r.entries[t[0]].next == Some(t[0])
            && r.used == p.used
            && (forall fuel :: WalkPrev(r.entries, t[0], fuel) == t[0])
            && !Valid(r)
  {
    RootIsOldest(p, t);
    assert p.entries[t[0]].next == Some(t[1]);
    var a := Alloc(p);
    var es := p.entries[t[1] := p.entries[t[1]].(prev := None)];
    assert a.slot == t[0] && a.pool == p.(entries := es[t[0] := BlankEntry()]);
    var p1 := a.pool.(entries := a.pool.entries[t[0] := Fill(a.pool.entries[t[0]], action, description, snap, ui)]);
    assert FreeFrom(p1, p1.entries[t[0]].next, |p1.entries|) == p1;
    var r := Append(p1, t[0], t[0]);
    assert r == NewEntryAsWritten(p, action, description, snap, ui);
    forall fuel: nat
      ensures WalkPrev(r.entries, t[0], fuel) == t[0]
    {
      SelfLinkedWalk(r.entries, t[0], fuel);
    }
    forall t': seq<nat>
      ensures !Timeline(r, t')
    {
      SelfLinkBreaksTimeline(r, t[0], t');
    }
  }

  // ---------------------------------------------------------------------
  // Moving along the timeline

  /** Undo and redo keep the timeline and move `current` one entry back or
      forward, staying put at either end. */
  lemma {:induction false} StepsKeepTimeline<M, U>(p: Pool<M, U>, t: seq<nat>)
    requires Timeline(p, t)
    ensures CurrentInRange(p)
    ensures Timeline(StepBack(p), t) && Timeline(StepForward(p), t)
    ensures var j := IndexOf(t, p.current.value);
            && StepBack(p).current == Some(if j > 0 then t[j - 1] else t[j])
            && StepForward(p).current == Some(if j + 1 < |t| then t[j + 1] else t[j])
  {
    var j := IndexOf(t, p.current.value);
    if j > 0 {
      assert p.entries[t[j]].prev == Some(t[j - 1]);
    }
    if j + 1 < |t| {
      assert p.entries[t[j]].next == Some(t[j + 1]);
    }
  }

  /** Redo undoes an undo, and undo undoes a redo. */
  lemma {:induction false} StepRoundTrips<M, U>(p: Pool<M, U>, t: seq<nat>)
    requires Timeline(p, t)
    ensures CurrentInRange(p)
    ensures p.entries[p.current.value].prev.Some? ==>
              CurrentInRange(StepBack(p)) && StepForward(StepBack(p)) == p
    ensures p.entries[p.current.value].next.Some? ==>
              CurrentInRange(StepForward(p)) && StepBack(StepForward(p)) == p
  {
    var j := IndexOf(t, p.current.value);
    StepsKeepTimeline(p, t);
    if j > 0 {
      assert p.entries[t[j - 1]].next == Some(t[j]);
    }
    if j + 1 < |t| {
      assert p.entries[t[j + 1]].prev == Some(t[j]);
    }
  }

  /** After a commit there is nothing to redo, and undo returns to the entry
      that was current before it. */
  lemma {:induction false} CommitThenStep<M, U>(p: Pool<M, U>, t: seq<nat>,
                                               action: string, description: string, snap: M, ui: U)
    requires Timeline(p, t) && |p.entries| >= 2
    ensures CurrentInRange(p) && CanAlloc(FreeFrom(p, p.entries[p.current.value].next, |p.entries|))
    ensures var r := NewEntry(p, action, description, snap, ui);
            && CurrentInRange(r)
            && StepForward(r) == r
            && StepBack(r).current == p.current
            && r.current != p.current
  {
    var t' := NewEntryKeepsTimeline(p, t, action, description, snap, ui);
    var r := NewEntry(p, action, description, snap, ui);
    assert r.entries[t'[|t'| - 1]].next == None;
  }

  /** `n` undos in a row on a pool with timeline `t`. */
  function Rewind<M, U>(p: Pool<M, U>, ghost t: seq<nat>, n: nat): (r: Pool<M, U>)
    requires Timeline(p, t)
    ensures Timeline(r, t) && r.used == p.used && r.entries == p.entries
    decreases n
  {
    if n == 0 then p
    else
      StepsKeepTimeline(p, t);
      Rewind(StepBack(p), t, n - 1)
  }

  /** Undoing as often as there are earlier entries reaches the oldest entry
      with the timeline intact. */
  lemma {:induction false} RewindToOldest<M, U>(p: Pool<M, U>, t: seq<nat>)
    requires Timeline(p, t)
    ensures CurrentInRange(p)
    ensures Rewind(p, t, IndexOf(t, p.current.value)).current == Some(t[0])
    decreases IndexOf(t, p.current.value)
  {
    var j := IndexOf(t, p.current.value);
    if j > 0 {
      StepsKeepTimeline(p, t);
      var q := StepBack(p);
      assert IndexOf(t, q.current.value) == j - 1;
      RewindToOldest(q, t);
    }
  }
}
