/**
 Reading a channel's log from a timestamp on: the filter that keeps the
 messages sent at or after the threshold, in the order they were stored.
 */
module History {
  import opened Store

  /** `a` can be obtained from `b` by deleting elements, keeping the order
      of the rest. */
  predicate IsSubseq<T(==)>(a: seq<T>, b: seq<T>)
    decreases |b|
  {
    || |a| == 0
    || (&& |b| > 0
        && (|| (a[|a| - 1] == b[|b| - 1] && IsSubseq(a[..|a| - 1], b[..|b| - 1]))
            || IsSubseq(a, b[..|b| - 1])))
  }

  /** The messages of `log` whose timestamp is at least `from`, in log order. */
  function Since(log: seq<Message>, from: int): (r: seq<Message>)
    ensures |r| <= |log|
    ensures forall i :: 0 <= i < |r| ==> r[i].ts >= from
  {
    if |log| == 0 then []
    else
      var last := log[|log| - 1];
      var rest := Since(log[..|log| - 1], from);
      if last.ts >= from then rest + [last] else rest
  }

  /** The list comprehension of the read operation, as a loop over the log. */
  method ReadSince(log: seq<Message>, from: int) returns (r: seq<Message>)
    ensures r == Since(log, from)
  {
    r := [];
    var i := 0;
    while i < |log|
      invariant 0 <= i <= |log|
      invariant r == Since(log[..i], from)
    {
      var prefix := log[..i];
      assert log[..i + 1] == prefix + [log[i]];
      SinceAppend(prefix, log[i], from);
      if log[i].ts >= from {
        r := r + [log[i]];
      }
      i := i + 1;
    }
    assert log[..|log|] == log;
  }

  /** Appending one message to the log adds it to the result exactly when it
      passes the threshold. */
  lemma SinceAppend(log: seq<Message>, m: Message, from: int)
    ensures Since(log + [m], from) == Since(log, from) + (if m.ts >= from then [m] else [])
  {
  }

  /** Nothing is reordered: the result is a subsequence of the log. */
  lemma {:induction false} SinceIsSubseq(log: seq<Message>, from: int)
    ensures IsSubseq(Since(log, from), log)
  {
    if |log| > 0 {
      var init := log[..|log| - 1];
      var last := log[|log| - 1];
      assert log == init + [last];
      SinceIsSubseq(init, from);
      SinceAppend(init, last, from);
      var rest := Since(init, from);
      if last.ts >= from {
        assert (rest + [last])[..|rest|] == rest;
      }
    }
  }

  /** Every qualifying message keeps its multiplicity; no other survives. */
  lemma {:induction false} SinceMultiplicity(log: seq<Message>, from: int)
    ensures forall m :: multiset(Since(log, from))[m] == if m.ts >= from then multiset(log)[m] else 0
  {
    if |log| > 0 {
      var init := log[..|log| - 1];
      var last := log[|log| - 1];
      assert log == init + [last];
      SinceMultiplicity(init, from);
      SinceAppend(init, last, from);
      assert multiset(log) == multiset(init) + multiset{last};
    }
  }

  /** A message is read exactly when it is in the log and passes the
      threshold. */
  lemma SinceMembers(log: seq<Message>, from: int)
    ensures forall m :: m in Since(log, from) <==> m in log && m.ts >= from
  {
  }

  /** Filtering with a threshold whose every message passes keeps the whole log. */
  lemma {:induction false} SinceAll(log: seq<Message>, from: int)
    requires forall i :: 0 <= i < |log| ==> log[i].ts >= from
    ensures Since(log, from) == log
  {
    if |log| > 0 {
      var init := log[..|log| - 1];
      assert log == init + [log[|log| - 1]];
      SinceAll(init, from);
    }
  }

  /** Filtering at the higher threshold the result of the lower one gives
      the result of the higher one directly. */
  lemma {:induction false} SinceSince(log: seq<Message>, lo: int, hi: int)
    requires lo <= hi
    ensures Since(Since(log, lo), hi) == Since(log, hi)
  {
    if |log| > 0 {
      var init := log[..|log| - 1];
      var last := log[|log| - 1];
      assert log == init + [last];
      SinceSince(init, lo, hi);
      SinceAppend(init, last, lo);
      SinceAppend(init, last, hi);
      if last.ts >= lo {
        SinceAppend(Since(init, lo), last, hi);
      }
    }
  }

  /** Raising the threshold yields a subsequence of the lower threshold's
      result. */
  lemma SinceMonotone(log: seq<Message>, lo: int, hi: int)
    requires lo <= hi
    ensures IsSubseq(Since(log, hi), Since(log, lo))
  {
    SinceSince(log, lo, hi);
    SinceIsSubseq(Since(log, lo), hi);
  }
}
