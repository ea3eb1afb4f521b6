/**
 * The optional progress observer, modelled as the trace of notifications it
 * receives. Both transforms emit the same shape of trace.
 */
module Progress {

  datatype Event =
    | SetMaxval(n: nat)   // `progress.maxval = n`
    | Start               // `progress.start()`
    | Update(done: nat)   // `progress.update(done)`
    | Finish              // `progress.finish()`

  /** One update per completed frame, numbered from one. */
  function Updates(n: nat): seq<Event>
  {
    seq(n, (j: nat) => Update(j + 1))
  }

  /** Completing one more frame appends its update. */
  lemma UpdatesGrow(n: nat)
    ensures Updates(0) == []
    ensures Updates(n + 1) == Updates(n) + [Update(n + 1)]
  {
    assert Updates(n + 1)[..n] == Updates(n);
  }

  /** The notifications emitted before the first frame is processed. */
  function Opening(n: nat): seq<Event>
  {
    [SetMaxval(n), Start]
  }

  /** The full trace of a call that processes `n` frames. */
  function Trace(n: nat): seq<Event>
  {
    Opening(n) + Updates(n) + [Finish]
  }

  /**
   * The observer is told the frame count first; `start` comes once, before
   * any update; the updates count 1, 2, ..., n in increasing order; and
   * `finish` comes once, last.
   */
  lemma TraceIsOrdered(n: nat)
    ensures |Trace(n)| == n + 3 && Trace(n)[0] == SetMaxval(n)
    ensures forall j :: 0 <= j < |Trace(n)| ==> (Trace(n)[j] == Start <==> j == 1)
    ensures forall j :: 0 <= j < |Trace(n)| ==> (Trace(n)[j] == Finish <==> j == n + 2)
    ensures forall j, j' :: 0 <= j < j' < |Trace(n)| && Trace(n)[j].Update? && Trace(n)[j'].Update? ==>
              Trace(n)[j].done < Trace(n)[j'].done
    ensures forall u: nat :: Update(u) in Trace(n) <==> 1 <= u <= n
    ensures n > 0 ==> Trace(n)[n + 1] == Update(n)
  {
    var t := Trace(n);
    forall j | 2 <= j < n + 2
      ensures t[j] == Update(j - 1)
    {
      assert t[j] == Updates(n)[j - 2];
    }
    forall u | 1 <= u <= n
      ensures Update(u) in t
    {
      assert t[u + 1] == Update(u);
    }
  }
}
