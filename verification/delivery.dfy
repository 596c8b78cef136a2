/** The send loop of `_process_task`: the pieces are sent in order; the first
    rejected send ends the job; a sent piece is then forwarded to the log
    channel, and a failed forward is only logged. The host's answers are
    inputs: `accepts(i)` and `forwards(i)` say how the i-th send and the i-th
    forward turn out. */
module Delivery {

  /** The pieces the host accepted, in order; how many of them were also
      forwarded to the log channel; whether every piece went through. */
  datatype Report = Report(delivered: seq<nat>, forwarded: nat, ok: bool)

  /** The number of `i < n` for which `f(i)` holds. */
  function CountTrue(f: nat -> bool, n: nat): (c: nat)
    ensures c <= n
    ensures c == n <==> forall i :: 0 <= i < n ==> f(i)
  {
    if n == 0 then 0
    else
      var c := CountTrue(f, n - 1) + (if f(n - 1) then 1 else 0);
      assert c == n ==> forall i :: 0 <= i < n ==> f(i) by {
        if c == n {
          forall i | 0 <= i < n ensures f(i) {
            if i < n - 1 {
              assert CountTrue(f, n - 1) == n - 1;
            }
          }
        }
      }
      c
  }

  /** The count is the size of the set of `i < n` for which `f(i)` holds. */
  lemma {:induction false} CountTrueCounts(f: nat -> bool, n: nat)
    ensures CountTrue(f, n) == |set i: nat | i < n && f(i)|
  {
    if n > 0 {
      CountTrueCounts(f, n - 1);
      var before := set i: nat | i < n - 1 && f(i);
      var now := set i: nat | i < n && f(i);
      if f(n - 1) {
        assert now == before + {n - 1};
      } else {
        assert now == before;
      }
    } else {
      var none := set i: nat | i < n && f(i);
      assert none == {};
    }
  }

  /** The index of the first rejected send among the first `n`, or `n` when
      all of them are accepted. */
  function FirstRejected(accepts: nat -> bool, n: nat): (k: nat)
    ensures k <= n
    ensures forall i :: 0 <= i < k ==> accepts(i)
    ensures k < n ==> !accepts(k)
  {
    if n == 0 then 0
    else
      var k := FirstRejected(accepts, n - 1);
      if k < n - 1 then k
      else if accepts(n - 1) then n
      else n - 1
  }

  /** The loop over the pieces: a send is attempted only after every earlier
      one was accepted, so the delivered pieces are exactly those before the
      first rejection, and the job succeeds iff the host accepts every piece;
      forwarding failures do not change that. */
  method DeliverParts(parts: seq<nat>, accepts: nat -> bool, forwards: nat -> bool) returns (rep: Report)
    ensures rep.ok <==> (forall i :: 0 <= i < |parts| ==> accepts(i))
    ensures rep.delivered == parts[..FirstRejected(accepts, |parts|)]
    ensures rep.forwarded == CountTrue(forwards, |rep.delivered|)
    ensures rep.ok ==> rep.delivered == parts
  {
    var i := 0;
    var forwarded := 0;
    while i < |parts|
      invariant 0 <= i <= |parts|
      invariant forall j :: 0 <= j < i ==> accepts(j)
      invariant forwarded == CountTrue(forwards, i)
    {
      if !accepts(i) {
        return Report(parts[..i], forwarded, false);
      }
      if forwards(i) {
        forwarded := forwarded + 1;
      }
      i := i + 1;
    }
    assert parts[..|parts|] == parts;
    return Report(parts, forwarded, true);
  }
}
