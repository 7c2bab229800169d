/**
 * `DescendantsContextProvider` (src/index.tsx): on every render it resets
 * its registry, lets the descendants register, and then publishes the
 * number of keys in the registry's map as the total.
 */
module Provider {
  import opened Wrappers
  import opened Descendants

  /** `Object.keys(mapRef.current).length`: the total the provider publishes, hidden records included. */
  function Total<P>(s: State<P>): (n: nat)
    ensures n == |VisibleIds(s)| + |HiddenIds(s)|
  {
    assert s.entries.Keys == VisibleIds(s) + HiddenIds(s);
    assert VisibleIds(s) !! HiddenIds(s);
    |s.entries|
  }

  /**
   * The total counts hidden items too: it is the number of visible items
   * (the counter) plus the number of hidden ones.
   */
  lemma TotalCountsHidden<P>(s: State<P>)
    requires Invariant(s)
    ensures Total(s) == s.counter + |HiddenIds(s)|
    ensures Total(s) >= s.counter
  {
  }

  /** One `get` adds one to the total for a new id and nothing for a known one. */
  lemma RegisterTotal<P>(s: State<P>, id: string, props: Option<Props<P>>)
    ensures Total(Register(s, id, props).0) == Total(s) + (if id in s.entries then 0 else 1)
  {
    var t := Register(s, id, props).0;
    assert |t.entries.Keys| == |t.entries|;
  }

  /** Registering the same id again, with any props, leaves the total where it was. */
  lemma RepeatedGetKeepsTotal<P>(s: State<P>, id: string, first: Option<Props<P>>, again: Option<Props<P>>)
    ensures Total(Register(Register(s, id, first).0, id, again).0) == Total(Register(s, id, first).0)
  {
    RegisterTotal(Register(s, id, first).0, id, again);
  }

  /**
   * After a pass that starts with `reset`, the published total is the
   * number of distinct ids that called `get`, hidden ones included.
   */
  lemma EpochTotal<P>(s: State<P>, calls: seq<Call<P>>)
    ensures Total(Run(ResetState(s), calls).0) == |Ids(calls)|
  {
    RunKeys(ResetState(s), calls);
    assert Run(ResetState(s), calls).0.entries.Keys == Ids(calls);
  }

  /** With no id repeated, that is simply the number of calls. */
  lemma EpochTotalDistinct<P>(s: State<P>, calls: seq<Call<P>>)
    requires DistinctIds(calls)
    ensures Total(Run(ResetState(s), calls).0) == |calls|
  {
    EpochTotal(s, calls);
    DistinctIdsCount(calls);
  }

  /** Distinct ids: as many ids as calls. */
  lemma {:induction false} DistinctIdsCount<P>(calls: seq<Call<P>>)
    requires DistinctIds(calls)
    ensures |Ids(calls)| == |calls|
  {
    if calls != [] {
      var n := |calls| - 1;
      var init := calls[..n];
      assert forall k :: 0 <= k < n ==> init[k] == calls[k];
      assert DistinctIds(init);
      DistinctIdsCount(init);
      assert Ids(calls) == Ids(init) + {calls[n].id};
      assert calls[n].id !in Ids(init);
    }
  }
}
