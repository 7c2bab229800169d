/** Concrete registration passes. */
module Scenarios {
  import opened Wrappers
  import opened Descendants
  import opened Provider

  function Shown(): Option<Props<int>> { Some(Props(None, 0)) }
  function Hidden(): Option<Props<int>> { Some(Props(Some(true), 0)) }

  /** Three visible items A, B, C get 0, 1, 2. */
  lemma ThreeVisibleIndices(s: State<int>)
    ensures Run(ResetState(s), [Call("A", Shown()), Call("B", Shown()), Call("C", Shown())]).1 == [0, 1, 2]
  {
    var s0 := ResetState(s);
    var a, b, c := Call("A", Shown()), Call("B", Shown()), Call("C", Shown());
    RunSnoc(s0, [], a);
    assert [] + [a] == [a];
    var ra := Run(s0, [a]);
    assert ra.1 == [0] && ra.0.counter == 1;
    assert b.id !in ra.0.entries;
    RunSnoc(s0, [a], b);
    assert [a] + [b] == [a, b];
    var rb := Run(s0, [a, b]);
    assert rb.1 == [0, 1] && rb.0.counter == 2;
    assert c.id !in rb.0.entries;
    RunSnoc(s0, [a, b], c);
    assert [a, b] + [c] == [a, b, c];
  }

  /** Three visible items A, B, C: the total is 3. */
  lemma ThreeVisibleTotal(s: State<int>)
    ensures Total(Run(ResetState(s), [Call("A", Shown()), Call("B", Shown()), Call("C", Shown())]).0) == 3
  {
    var calls := [Call("A", Shown()), Call("B", Shown()), Call("C", Shown())];
    assert DistinctIds(calls);
    EpochTotalDistinct(s, calls);
  }

  /** A, hidden B, C: A gets 0, B gets -1, C gets 1. */
  lemma HiddenInTheMiddleIndices(s: State<int>)
    ensures Run(ResetState(s), [Call("A", Shown()), Call("B", Hidden()), Call("C", Shown())]).1 == [0, -1, 1]
  {
    var s0 := ResetState(s);
    var a, b, c := Call("A", Shown()), Call("B", Hidden()), Call("C", Shown());
    RunSnoc(s0, [], a);
    assert [] + [a] == [a];
    var ra := Run(s0, [a]);
    assert ra.1 == [0] && ra.0.counter == 1;
    assert b.id !in ra.0.entries;
    RunSnoc(s0, [a], b);
    assert [a] + [b] == [a, b];
    var rb := Run(s0, [a, b]);
    assert rb.1 == [0, -1] && rb.0.counter == 1;
    assert c.id !in rb.0.entries;
    RunSnoc(s0, [a, b], c);
    assert [a, b] + [c] == [a, b, c];
  }

  /** A, hidden B, C: the total still counts B, so it is 3. */
  lemma HiddenInTheMiddleTotal(s: State<int>)
    ensures Total(Run(ResetState(s), [Call("A", Shown()), Call("B", Hidden()), Call("C", Shown())]).0) == 3
  {
    var calls := [Call("A", Shown()), Call("B", Hidden()), Call("C", Shown())];
    assert DistinctIds(calls);
    EpochTotalDistinct(s, calls);
  }

  /** B is gone in the next pass: after `reset`, A and C get 0 and 1. */
  lemma RemovedBetweenPassesIndices(s: State<int>)
    ensures Run(ResetState(s), [Call("A", Shown()), Call("C", Shown())]).1 == [0, 1]
  {
    var s0 := ResetState(s);
    var a, c := Call("A", Shown()), Call("C", Shown());
    RunSnoc(s0, [], a);
    assert [] + [a] == [a];
    var ra := Run(s0, [a]);
    assert ra.1 == [0] && ra.0.counter == 1;
    assert c.id !in ra.0.entries;
    RunSnoc(s0, [a], c);
    assert [a] + [c] == [a, c];
  }

  /** B is gone in the next pass: the total is 2. */
  lemma RemovedBetweenPassesTotal(s: State<int>)
    ensures Total(Run(ResetState(s), [Call("A", Shown()), Call("C", Shown())]).0) == 2
  {
    var calls := [Call("A", Shown()), Call("C", Shown())];
    assert DistinctIds(calls);
    EpochTotalDistinct(s, calls);
  }

  /** A registers visible, then again as hidden in the same pass: it keeps index 0, and the total is 1. */
  lemma HiddenFlipKeepsIndex(s: State<int>)
    ensures Run(ResetState(s), [Call("A", Shown()), Call("A", Hidden())]).1 == [0, 0]
    ensures Total(Run(ResetState(s), [Call("A", Shown()), Call("A", Hidden())]).0) == 1
  {
    var s0 := ResetState(s);
    var shown, hidden := Call("A", Shown()), Call("A", Hidden());
    RunSnoc(s0, [], shown);
    assert [] + [shown] == [shown];
    var first := Run(s0, [shown]);
    assert first.1 == [0];
    RunSnoc(s0, [shown], hidden);
    assert [shown] + [hidden] == [shown, hidden];
    EpochTotal(s, [shown, hidden]);
    assert Ids([shown, hidden]) == {"A"};
  }
}
