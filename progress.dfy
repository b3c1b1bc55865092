/** The progress bar, reduced to what the extractors do with it: a fixed
    total and a counter `n` that `update(delta)` advances. */
module Progress {
  import opened Archive
  import opened Streams

  /** The counter values after each `update(len(chunk))`, starting from `n0`. */
  function CounterTrace(n0: int, cs: seq<seq<byte>>): (t: seq<int>)
    ensures |t| == |cs|
    decreases |cs|
  {
    if cs == [] then [] else [n0 + |cs[0]|] + CounterTrace(n0 + |cs[0]|, cs[1..])
  }

  lemma {:induction false} CounterTraceConcat(n0: int, a: seq<seq<byte>>, b: seq<seq<byte>>)
    ensures CounterTrace(n0, a + b) == CounterTrace(n0, a) + CounterTrace(n0 + |Flatten(a)|, b)
    decreases |a|
  {
    if a == [] {
      assert a + b == b;
    } else {
      assert (a + b)[1..] == a[1..] + b;
      CounterTraceConcat(n0 + |a[0]|, a[1..], b);
    }
  }

  /** After the `i`-th update the counter has grown by exactly the bytes of
      the first `i + 1` chunks. */
  lemma {:induction false} CounterTraceAt(n0: int, cs: seq<seq<byte>>, i: nat)
    requires i < |cs|
    ensures CounterTrace(n0, cs)[i] == n0 + |Flatten(cs[..i + 1])|
    decreases i
  {
    if i == 0 {
      assert cs[..1] == [cs[0]];
      assert Flatten([cs[0]]) == cs[0] + Flatten([]);
    } else {
      CounterTraceAt(n0 + |cs[0]|, cs[1..], i - 1);
      assert cs[..i + 1] == [cs[0]] + cs[1..][..i];
      FlattenConcat([cs[0]], cs[1..][..i]);
      assert Flatten([cs[0]]) == cs[0] + Flatten([]);
    }
  }

  /** Each update adds exactly the length of its chunk to the previous value. */
  lemma CounterTraceStep(n0: int, cs: seq<seq<byte>>)
    ensures forall i :: 0 < i < |cs| ==>
      CounterTrace(n0, cs)[i] == CounterTrace(n0, cs)[i - 1] + |cs[i]|
    ensures cs != [] ==> CounterTrace(n0, cs)[0] == n0 + |cs[0]|
  {
    var t := CounterTrace(n0, cs);
    forall i | 0 < i < |cs| ensures t[i] == t[i - 1] + |cs[i]| {
      CounterTraceAt(n0, cs, i);
      CounterTraceAt(n0, cs, i - 1);
      assert cs[..i + 1] == cs[..i] + [cs[i]];
      FlattenConcat(cs[..i], [cs[i]]);
      assert Flatten([cs[i]]) == cs[i] + Flatten([]);
    }
  }

  /** The counter never falls below its start, never goes down, and ends at
      its start plus every byte delivered. */
  lemma CounterTraceMonotone(n0: int, cs: seq<seq<byte>>)
    ensures forall i, j :: 0 <= i <= j < |cs| ==>
      n0 <= CounterTrace(n0, cs)[i] <= CounterTrace(n0, cs)[j]
    ensures cs != [] ==> CounterTrace(n0, cs)[|cs| - 1] == n0 + |Flatten(cs)|
  {
    var t := CounterTrace(n0, cs);
    forall i, j | 0 <= i <= j < |cs| ensures n0 <= t[i] <= t[j] {
      CounterTraceAt(n0, cs, i);
      CounterTraceAt(n0, cs, j);
      assert cs[..j + 1] == cs[..i + 1] + cs[i + 1..j + 1];
      FlattenConcat(cs[..i + 1], cs[i + 1..j + 1]);
    }
    if cs != [] {
      CounterTraceAt(n0, cs, |cs| - 1);
      assert cs[..|cs|] == cs;
    }
  }

  /** A progress bar: `total` is fixed when the bar is created, `n` is the
      amount shown so far, and `history` records `n` after every update. */
  class ProgressBar {
    const total: int
    var n: int
    ghost var history: seq<int>

    constructor (total: int)
      ensures this.total == total && n == 0 && history == []
    {
      this.total := total;
      n := 0;
      history := [];
    }

    /** `update(delta)`: add `delta` to the counter. */
    method Update(delta: int)
      modifies this
      ensures n == old(n) + delta
      ensures history == old(history) + [n]
    {
      n := n + delta;
      history := history + [n];
    }
  }
}
