/**
 * The descendant registry of `useDescendants` (src/index.tsx): a map from an
 * item id to `{index, props}` plus an index counter, with the two operations
 * `reset` and `get`.
 *
 * The registry is given twice: as a value (`State`, with the pure function
 * `Register` saying what one `get` does) and as the mutable object the
 * provider holds (`DescendantRegistry`, whose methods update its fields in
 * place and are proved against `Register` and `ResetState`).
 */
module Descendants {
  import opened Wrappers

  /** An item's props: the optional `hidden` flag and the rest, which the registry only stores. */
  datatype Props<P> = Props(hidden: Option<bool>, payload: P)

  /** One record of the map: the assigned index (-1 when hidden) and the last props seen. */
  datatype Entry<P> = Entry(index: int, props: Option<Props<P>>)

  /** The registry as a value: the id-to-record map and the counter `indexCounter`. */
  datatype State<P> = State(entries: map<string, Entry<P>>, counter: int)

  /** One `get(id, props)` call; `props == None` stands for a `null` props argument. */
  datatype Call<P> = Call(id: string, props: Option<Props<P>>)

  /** The index a hidden item is given. */
  const HiddenIndex: int := -1

  /** `props ? props.hidden : false`, read as a truth value: only an explicit `hidden: true` hides. */
  predicate IsHidden<P>(props: Option<Props<P>>)
    ensures props.None? ==> !IsHidden(props)
    ensures props.Some? && props.value.hidden.None? ==> !IsHidden(props)
    ensures props.Some? && props.value.hidden == Some(false) ==> !IsHidden(props)
    ensures props.Some? && props.value.hidden == Some(true) ==> IsHidden(props)
  {
    props.Some? && props.value.hidden == Some(true)
  }

  /** The ids whose record holds a real (non-negative) index. */
  function VisibleIds<P>(s: State<P>): set<string> {
    set id | id in s.entries && s.entries[id].index >= 0
  }

  /** The ids whose record holds the hidden index. */
  function HiddenIds<P>(s: State<P>): set<string> {
    set id | id in s.entries && s.entries[id].index < 0
  }

  /** Some record holds index i. */
  ghost predicate HasIndex<P>(s: State<P>, i: int) {
    exists id :: id in s.entries && s.entries[id].index == i
  }

  /** Every index is the hidden -1 or lies below the counter. */
  ghost predicate InRange<P>(s: State<P>) {
    forall id :: id in s.entries ==> HiddenIndex <= s.entries[id].index < s.counter
  }

  /** No two records share a non-negative index. */
  ghost predicate Unique<P>(s: State<P>) {
    forall a, b :: a in s.entries && b in s.entries && a != b && s.entries[a].index >= 0
                   ==> s.entries[a].index != s.entries[b].index
  }

  /** Every index below the counter is held by some record. */
  ghost predicate Dense<P>(s: State<P>) {
    forall i :: 0 <= i < s.counter ==> HasIndex(s, i)
  }

  /** The counter is the number of visible records. */
  ghost predicate Counted<P>(s: State<P>) {
    s.counter == |VisibleIds(s)|
  }

  /**
   * What holds of the registry between calls: the visible indices are
   * exactly 0 .. counter - 1, each held once, hidden records hold -1, and
   * the counter is the number of visible records.
   */
  ghost predicate Invariant<P>(s: State<P>) {
    InRange(s) && Unique(s) && Dense(s) && Counted(s)
  }

  /** `reset()`: the map emptied and the counter back at 0, whatever came before. */
  function ResetState<P>(s: State<P>): (r: State<P>)
    ensures r.entries == map[] && r.counter == 0
    ensures Invariant(r)
  {
    var r := State(map[], 0);
    assert VisibleIds(r) == {};
    r
  }

  /**
   * `get(id, props)`: a first-time id is inserted with index -1 when hidden
   * and with the post-incremented counter otherwise; then, on every call,
   * the stored props are overwritten and the stored index is returned.
   */
  function Register<P>(s: State<P>, id: string, props: Option<Props<P>>): (r: (State<P>, int))
    // the returned index is the one stored for id, next to the new props
    ensures id in r.0.entries && r.0.entries[id] == Entry(r.1, props)
    // no other record is touched, and only id can be added
    ensures r.0.entries.Keys == s.entries.Keys + {id}
    ensures forall other :: other in s.entries && other != id ==> r.0.entries[other] == s.entries[other]
    // a known id keeps its index whatever its props now say, and the counter stays
    ensures id in s.entries ==> r.1 == s.entries[id].index && r.0.counter == s.counter
    // a new hidden id gets -1 and the counter stays
    ensures id !in s.entries && IsHidden(props) ==> r.1 == HiddenIndex && r.0.counter == s.counter
    // a new visible id gets the old counter, which moves up by exactly one
    ensures id !in s.entries && !IsHidden(props) ==> r.1 == s.counter && r.0.counter == s.counter + 1
  {
    var hidden := IsHidden(props);
    var inserted :=
      if id in s.entries then s
      else if hidden then State(s.entries[id := Entry(HiddenIndex, props)], s.counter)
      else State(s.entries[id := Entry(s.counter, props)], s.counter + 1);
    var updated := inserted.entries[id := inserted.entries[id].(props := props)];
    (State(updated, inserted.counter), updated[id].index)
  }

  /** `get` keeps the invariant: visible indices stay unique and dense, and the counter counts them. */
  lemma RegisterPreservesInvariant<P>(s: State<P>, id: string, props: Option<Props<P>>)
    requires Invariant(s)
    ensures Invariant(Register(s, id, props).0)
  {
    if id in s.entries {
      var e := s.entries[id := s.entries[id].(props := props)];
      assert Register(s, id, props).0 == State(e, s.counter);
      SameIndicesKeepInvariant(s, e);
    } else if IsHidden(props) {
      var e := s.entries[id := Entry(HiddenIndex, props)];
      assert Register(s, id, props).0 == State(e, s.counter);
      SameIndicesKeepInvariant(s, e);
    } else {
      NewVisibleKeepsInvariant(s, id, props);
    }
  }

  /**
   * Changing props and adding hidden records, with the counter unchanged,
   * keeps the invariant.
   */
  lemma SameIndicesKeepInvariant<P>(s: State<P>, e: map<string, Entry<P>>)
    requires Invariant(s)
    requires s.entries.Keys <= e.Keys
    requires forall x :: x in s.entries ==> e[x].index == s.entries[x].index
    requires forall x :: x in e && x !in s.entries ==> e[x].index == HiddenIndex
    ensures Invariant(State(e, s.counter))
  {
    var t := State(e, s.counter);
    assert InRange(t);
    assert Unique(t);
    assert Dense(t) by {
      forall i | 0 <= i < t.counter
        ensures HasIndex(t, i)
      {
        assert HasIndex(s, i);
        var w :| w in s.entries && s.entries[w].index == i;
        assert w in e && e[w].index == i;
      }
    }
    assert Counted(t) by {
      assert VisibleIds(t) == VisibleIds(s);
    }
  }

  /** A new visible id takes index `counter`, which no record held before. */
  lemma NewVisibleKeepsInvariant<P>(s: State<P>, id: string, props: Option<Props<P>>)
    requires Invariant(s)
    requires id !in s.entries && !IsHidden(props)
    ensures Invariant(Register(s, id, props).0)
  {
    var t := State(s.entries[id := Entry(s.counter, props)], s.counter + 1);
    assert Register(s, id, props).0 == t;
    NewVisibleInRange(s, id, props);
    NewVisibleUnique(s, id, props);
    NewVisibleDense(s, id, props);
    NewVisibleCounted(s, id, props);
  }

  lemma NewVisibleInRange<P>(s: State<P>, id: string, props: Option<Props<P>>)
    requires InRange(s) && s.counter >= 0
    ensures InRange(State(s.entries[id := Entry(s.counter, props)], s.counter + 1))
  {
    var e := s.entries[id := Entry(s.counter, props)];
    forall x | x in e
      ensures HiddenIndex <= e[x].index < s.counter + 1
    {
      if x != id {
        assert e[x] == s.entries[x];
      }
    }
  }

  lemma NewVisibleUnique<P>(s: State<P>, id: string, props: Option<Props<P>>)
    requires InRange(s) && Unique(s) && id !in s.entries
    ensures Unique(State(s.entries[id := Entry(s.counter, props)], s.counter + 1))
  {
    var e := s.entries[id := Entry(s.counter, props)];
    forall a, b | a in e && b in e && a != b && e[a].index >= 0
      ensures e[a].index != e[b].index
    {
      if a == id {
        assert e[b] == s.entries[b];
      } else if b == id {
        assert e[a] == s.entries[a];
      } else {
        assert e[a] == s.entries[a] && e[b] == s.entries[b];
      }
    }
  }

  lemma NewVisibleDense<P>(s: State<P>, id: string, props: Option<Props<P>>)
    requires Dense(s) && id !in s.entries
    ensures Dense(State(s.entries[id := Entry(s.counter, props)], s.counter + 1))
  {
    var t := State(s.entries[id := Entry(s.counter, props)], s.counter + 1);
    forall i | 0 <= i < t.counter
      ensures HasIndex(t, i)
    {
      if i == s.counter {
        assert t.entries[id].index == i;
      } else {
        assert HasIndex(s, i);
        var w :| w in s.entries && s.entries[w].index == i;
        assert w in t.entries && t.entries[w].index == i;
      }
    }
  }

  lemma NewVisibleCounted<P>(s: State<P>, id: string, props: Option<Props<P>>)
    requires Counted(s) && id !in s.entries
    ensures Counted(State(s.entries[id := Entry(s.counter, props)], s.counter + 1))
  {
    var t := State(s.entries[id := Entry(s.counter, props)], s.counter + 1);
    assert VisibleIds(t) == VisibleIds(s) + {id};
  }

  /** The ids of a sequence of calls. */
  function Ids<P>(calls: seq<Call<P>>): set<string> {
    set k | 0 <= k < |calls| :: calls[k].id
  }

  /** The ids of all calls are the ids of all but the last, plus the last one's. */
  lemma IdsSnoc<P>(calls: seq<Call<P>>)
    requires calls != []
    ensures Ids(calls) == Ids(calls[..|calls| - 1]) + {calls[|calls| - 1].id}
  {
    var n := |calls| - 1;
    var init := calls[..n];
    forall x | x in Ids(calls)
      ensures x in Ids(init) + {calls[n].id}
    {
      var k :| 0 <= k < |calls| && calls[k].id == x;
      if k < n {
        assert init[k] == calls[k];
      }
    }
    forall x | x in Ids(init)
      ensures x in Ids(calls)
    {
      var k :| 0 <= k < n && init[k].id == x;
      assert calls[k] == init[k];
    }
  }

  /** How many of the calls carry props that do not hide the item. */
  function VisibleCount<P>(calls: seq<Call<P>>): (n: nat)
    ensures n <= |calls|
  {
    if calls == [] then 0
    else VisibleCount(calls[..|calls| - 1]) + (if IsHidden(calls[|calls| - 1].props) then 0 else 1)
  }

  /** No id occurs twice among the calls. */
  predicate DistinctIds<P>(calls: seq<Call<P>>) {
    forall j, k :: 0 <= j < k < |calls| ==> calls[j].id != calls[k].id
  }

  /** None of the calls is for an id the registry already holds. */
  predicate AllNew<P>(s: State<P>, calls: seq<Call<P>>) {
    forall k :: 0 <= k < |calls| ==> calls[k].id !in s.entries
  }

  /**
   * The registrations of one composition pass, in the order the items call
   * `get`: the final registry and the index each call returned.
   */
  function Run<P>(s: State<P>, calls: seq<Call<P>>): (r: (State<P>, seq<int>))
    ensures |r.1| == |calls|
  {
    if calls == [] then (s, [])
    else
      var before := Run(s, calls[..|calls| - 1]);
      var last := calls[|calls| - 1];
      var after := Register(before.0, last.id, last.props);
      (after.0, before.1 + [after.1])
  }

  /** One more call at the end of a pass is one more `Register` on the pass's result. */
  lemma RunSnoc<P>(s: State<P>, calls: seq<Call<P>>, c: Call<P>)
    ensures Run(s, calls + [c]).0 == Register(Run(s, calls).0, c.id, c.props).0
    ensures Run(s, calls + [c]).1 == Run(s, calls).1 + [Register(Run(s, calls).0, c.id, c.props).1]
  {
    assert (calls + [c])[..|calls|] == calls;
  }

  /** A pass keeps the invariant. */
  lemma {:induction false} RunPreservesInvariant<P>(s: State<P>, calls: seq<Call<P>>)
    requires Invariant(s)
    ensures Invariant(Run(s, calls).0)
  {
    if calls != [] {
      var init := calls[..|calls| - 1];
      var last := calls[|calls| - 1];
      RunPreservesInvariant(s, init);
      RegisterPreservesInvariant(Run(s, init).0, last.id, last.props);
    }
  }

  /** A pass registers exactly the ids it was called with, on top of those already there. */
  lemma {:induction false} RunKeys<P>(s: State<P>, calls: seq<Call<P>>)
    ensures Run(s, calls).0.entries.Keys == s.entries.Keys + Ids(calls)
  {
    if calls != [] {
      var init := calls[..|calls| - 1];
      RunKeys(s, init);
      IdsSnoc(calls);
    }
  }

  /**
   * Once an id is in the registry, no later call of the pass changes its
   * index, and every later call for it returns that index (also when its
   * `hidden` flag has flipped).
   */
  lemma {:induction false} IndexFixedWithinEpoch<P>(s: State<P>, calls: seq<Call<P>>, id: string)
    requires id in s.entries
    ensures id in Run(s, calls).0.entries
    ensures Run(s, calls).0.entries[id].index == s.entries[id].index
    ensures forall k :: 0 <= k < |calls| && calls[k].id == id ==> Run(s, calls).1[k] == s.entries[id].index
  {
    if calls != [] {
      var init := calls[..|calls| - 1];
      IndexFixedWithinEpoch(s, init, id);
      forall k | 0 <= k < |calls| - 1 && calls[k].id == id
        ensures Run(s, calls).1[k] == s.entries[id].index
      {
        assert calls[k] == init[k];
      }
    }
  }

  /** After a pass, every id called is stored with the index its calls returned. */
  lemma {:induction false} StoredIndexIsReturned<P>(s: State<P>, calls: seq<Call<P>>, j: nat)
    requires j < |calls|
    ensures calls[j].id in Run(s, calls).0.entries
    ensures Run(s, calls).0.entries[calls[j].id].index == Run(s, calls).1[j]
  {
    var n := |calls| - 1;
    var init, last := calls[..n], calls[n];
    var before := Run(s, init);
    var reg := Register(before.0, last.id, last.props);
    assert Run(s, calls) == (reg.0, before.1 + [reg.1]);
    if j < n {
      assert init[j] == calls[j];
      StoredIndexIsReturned(s, init, j);
      assert (before.1 + [reg.1])[j] == before.1[j];
    }
  }

  /** Running a prefix of the calls gives a prefix of the indices. */
  lemma {:induction false} RunPrefix<P>(s: State<P>, calls: seq<Call<P>>, m: nat)
    requires m <= |calls|
    ensures Run(s, calls[..m]).1 == Run(s, calls).1[..m]
    decreases |calls|
  {
    if m < |calls| {
      var init := calls[..|calls| - 1];
      assert calls[..m] == init[..m];
      RunPrefix(s, init, m);
    } else {
      assert calls[..m] == calls;
    }
  }

  /**
   * Within one pass, two calls for the same id return the same index: the
   * one given at the id's first registration.
   */
  lemma RepeatedIdSameIndex<P>(s: State<P>, calls: seq<Call<P>>, j: nat, k: nat)
    requires j < k < |calls| && calls[j].id == calls[k].id
    ensures Run(s, calls).1[j] == Run(s, calls).1[k]
  {
    var upto := calls[..k + 1];
    assert upto[j] == calls[j] && upto[k] == calls[k];
    StoredIndexIsReturned(s, upto, j);
    StoredIndexIsReturned(s, upto, k);
    RunPrefix(s, calls, k + 1);
  }

  /**
   * Registering items that are all new: the visible ones get the counter
   * onwards, one after another in call order, and the hidden ones get -1.
   */
  lemma {:induction false} RunFreshIndices<P>(s: State<P>, calls: seq<Call<P>>)
    requires DistinctIds(calls)
    requires AllNew(s, calls)
    ensures Run(s, calls).0.counter == s.counter + VisibleCount(calls)
    ensures forall k :: 0 <= k < |calls| ==>
              Run(s, calls).1[k] == if IsHidden(calls[k].props) then HiddenIndex
                                    else s.counter + VisibleCount(calls[..k])
  {
    if calls != [] {
      var n := |calls| - 1;
      var init, last := calls[..n], calls[n];
      FreshPrefix(s, calls);
      RunFreshIndices(s, init);
      var before := Run(s, init);
      var after := Register(before.0, last.id, last.props);
      assert after.1 == if IsHidden(last.props) then HiddenIndex else s.counter + VisibleCount(init);
      forall k | 0 <= k < |calls|
        ensures Run(s, calls).1[k] == if IsHidden(calls[k].props) then HiddenIndex
                                      else s.counter + VisibleCount(calls[..k])
      {
        if k < n {
          assert calls[..k] == init[..k];
          assert calls[k] == init[k];
        } else {
          assert calls[..k] == init;
        }
      }
    }
  }

  /** Dropping the last of distinct fresh calls leaves distinct fresh calls, and the last id is still new afterwards. */
  lemma FreshPrefix<P>(s: State<P>, calls: seq<Call<P>>)
    requires calls != []
    requires DistinctIds(calls)
    requires AllNew(s, calls)
    ensures DistinctIds(calls[..|calls| - 1])
    ensures AllNew(s, calls[..|calls| - 1])
    ensures calls[|calls| - 1].id !in Run(s, calls[..|calls| - 1]).0.entries
  {
    var n := |calls| - 1;
    var init := calls[..n];
    assert forall k :: 0 <= k < |init| ==> init[k] == calls[k];
    RunKeys(s, init);
    assert forall k :: 0 <= k < |init| ==> init[k].id != calls[n].id;
    assert calls[n].id !in Ids(init);
  }

  /**
   * After `reset`, distinct items registered in order get 0, 1, 2, ... when
   * visible and -1 when hidden; the same calls after any other `reset` give
   * the same indices, whatever the registry held before.
   */
  lemma EpochIndices<P>(s: State<P>, s': State<P>, calls: seq<Call<P>>)
    requires DistinctIds(calls)
    ensures forall k :: 0 <= k < |calls| ==>
              Run(ResetState(s), calls).1[k] == if IsHidden(calls[k].props) then HiddenIndex else VisibleCount(calls[..k])
    ensures Run(ResetState(s), calls).0.counter == VisibleCount(calls)
    ensures Run(ResetState(s), calls).1 == Run(ResetState(s'), calls).1
  {
    RunFreshIndices(ResetState(s), calls);
  }

  /** `reset` twice in a row leaves what `reset` once leaves. */
  lemma ResetIdempotent<P>(s: State<P>)
    ensures ResetState(ResetState(s)) == ResetState(s)
  {
  }

  /**
   * The mutable registry one provider owns: `mapRef.current` and
   * `indexCounter.current`.
   */
  class DescendantRegistry<P> {
    var entries: map<string, Entry<P>>
    var counter: int

    /** The current contents as a value. */
    function Snapshot(): State<P>
      reads this
    {
      State(entries, counter)
    }

    ghost predicate Valid()
      reads this
    {
      Invariant(Snapshot())
    }

    /** `useRef(0)` and `useRef({})`: an empty map and a zero counter. */
    constructor ()
      ensures Snapshot() == State(map[], 0)
      ensures Valid()
    {
      entries := map[];
      counter := 0;
      new;
      assert Snapshot() == ResetState(Snapshot());
    }

    /** `reset()`: empty the map and set the counter to 0. */
    method Reset()
      modifies this
      ensures Snapshot() == ResetState(old(Snapshot()))
      ensures Valid()
    {
      counter := 0;
      entries := map[];
    }

    /** `get(id, props)`: register id if it is new, store props, return its index. */
    method Get(id: string, props: Option<Props<P>>) returns (index: int)
      modifies this
      ensures (Snapshot(), index) == Register(old(Snapshot()), id, props)
      ensures old(Valid()) ==> Valid()
    {
      ghost var before := Snapshot();
      var hidden := IsHidden(props);
      if id !in entries {
        var newIndex;
        if hidden {
          newIndex := HiddenIndex;
        } else {
          newIndex := counter;
          counter := counter + 1;
        }
        entries := entries[id := Entry(newIndex, props)];
      }
      entries := entries[id := entries[id].(props := props)];
      index := entries[id].index;
      if Invariant(before) {
        RegisterPreservesInvariant(before, id, props);
      }
    }
  }
}
