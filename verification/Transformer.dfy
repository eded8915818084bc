/** A chain of transformations, stopped by its first failure. */
module Transformer {
  import opened Values

  /** A configured handler; None stands for an unknown type or an exception. */
  type Handler = Frame -> Option<Frame>

  datatype Outcome = Outcome(success: bool, rowsBefore: nat, rowsAfter: nat)

  /** `transform`: a failing handler gives the frame back. */
  function Transform(f: Frame, h: Handler): (Frame, Outcome) {
    match h(f)
    case Some(g) => (g, Outcome(true, f.height, g.height))
    case None => (f, Outcome(false, f.height, f.height))
  }

  /** All the handlers in turn, or None if one of them fails. */
  function Composed(f: Frame, hs: seq<Handler>): Option<Frame> {
    if hs == [] then Some(f)
    else
      match Composed(f, hs[..|hs| - 1])
      case None => None
      case Some(g) => hs[|hs| - 1](g)
  }

  /**
   * The frame is what the handlers before the first failing one make of it; they, and that one, have a
   * result each, with the heights around them.
   */
  method TransformMany(df: Frame, configs: seq<Handler>) returns (frame: Frame, results: seq<Outcome>)
    ensures exists n :: 0 <= n <= |configs| && Stopped(df, configs, n, frame, results)
  {
    frame := df;
    results := [];
    for k := 0 to |configs|
      invariant |results| == k && Composed(df, configs[..k]) == Some(frame)
      invariant forall i :: 0 <= i < k ==> results[i].success && Recorded(df, configs, i, results[i])
    {
      assert configs[..k + 1][..k] == configs[..k];
      var (next, result) := Transform(frame, configs[k]);
      results := results + [result];
      if !result.success {
        assert Stopped(df, configs, k, frame, results);
        return;
      }
      frame := next;
    }
    assert Stopped(df, configs, |configs|, frame, results);
  }

  ghost predicate Recorded(df: Frame, configs: seq<Handler>, i: nat, o: Outcome)
    requires i < |configs|
  {
    match Composed(df, configs[..i])
    case None => false
    case Some(f) =>
      && o.success == configs[i](f).Some? && o.rowsBefore == f.height
      && o.rowsAfter == if o.success then configs[i](f).value.height else f.height
  }

  /** Exactly the first `n` handlers succeeded. */
  ghost predicate Stopped(df: Frame, configs: seq<Handler>, n: nat, frame: Frame, results: seq<Outcome>)
    requires n <= |configs|
  {
    && Composed(df, configs[..n]) == Some(frame)
    && |results| == (if n < |configs| then n + 1 else n)
    && (n < |configs| ==> Composed(df, configs[..n + 1]) == None)
    && forall i :: 0 <= i < |results| ==> (results[i].success <==> i < n) && Recorded(df, configs, i, results[i])
  }

  /** There is one such stopping point: once a handler has failed, no longer chain succeeds. */
  lemma {:induction false} FailureIsFinal(df: Frame, hs: seq<Handler>, n: nat)
    requires n <= |hs| && Composed(df, hs[..n]) == None
    ensures Composed(df, hs) == None
  {
    if n == |hs| {
      assert hs[..n] == hs;
    } else {
      assert hs[..|hs| - 1][..n] == hs[..n];
      FailureIsFinal(df, hs[..|hs| - 1], n);
    }
  }

  lemma StopIsUnique(df: Frame, configs: seq<Handler>, n: nat, m: nat, f: Frame, g: Frame, rs: seq<Outcome>,
                     ss: seq<Outcome>)
    requires n <= |configs| && m <= |configs| && Stopped(df, configs, n, f, rs) && Stopped(df, configs, m, g, ss)
    ensures n == m && f == g && rs == ss
  {
    if n < m {
      assert configs[..m][..n + 1] == configs[..n + 1];
      FailureIsFinal(df, configs[..m], n + 1);
    }
    if m < n {
      assert configs[..n][..m + 1] == configs[..m + 1];
      FailureIsFinal(df, configs[..n], m + 1);
    }
  }
}
