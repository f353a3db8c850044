/**
 * The container as a two-state machine driven by a holder's calls. A session
 * is a sequence of `Read` (get_value) and `Wipe` (zeroize) calls on one
 * instance; `Run` replays it and collects every value the reads returned.
 */
module Lifecycle {
  import opened SecureString

  /** The calls a holder of an instance can make. */
  datatype Op = Read | Wipe

  function CountReads(ops: seq<Op>): (n: nat) {
    if ops == [] then 0
    else (if ops[0] == Read then 1 else 0) + CountReads(ops[1..])
  }

  /** `n` copies of `v`: the reference for what a run of reads returns. */
  function Repeat(v: Text, n: nat): (r: seq<Text>)
    ensures |r| == n
    ensures forall i :: 0 <= i < n ==> r[i] == v
  {
    if n == 0 then [] else [v] + Repeat(v, n - 1)
  }

  /** One call: the container afterwards and what the call returned. */
  function Step(c: Secure, op: Op): (r: (Secure, seq<Text>)) {
    match op
    case Read => (c, [GetValue(c)])
    case Wipe => (Zeroize(c), [])
  }

  /** Replay a session: the final container and the values read, in order.
      Reads never change the container; the phase becomes Wiped exactly
      when a wipe occurs, and the allocation keeps its size throughout. */
  function Run(c: Secure, ops: seq<Op>): (r: (Secure, seq<Text>))
    ensures |r.1| == CountReads(ops)
    ensures |r.0.storage| == |c.storage|
    ensures r.0.phase == Wiped <==> (c.phase == Wiped || Wipe in ops)
    ensures Wipe !in ops ==> r.0 == c
    decreases |ops|
  {
    if ops == [] then (c, [])
    else
      var step := Step(c, ops[0]);
      var rest := Run(step.0, ops[1..]);
      assert Wipe in ops <==> ops[0] == Wipe || Wipe in ops[1..];
      (rest.0, step.1 + rest.1)
  }

  /** Running `a` then `b` is running `a + b`. */
  lemma {:induction false} RunAppend(c: Secure, a: seq<Op>, b: seq<Op>)
    ensures Run(c, a + b).0 == Run(Run(c, a).0, b).0
    ensures Run(c, a + b).1 == Run(c, a).1 + Run(Run(c, a).0, b).1
    decreases |a|
  {
    if a == [] {
      assert a + b == b;
    } else {
      assert (a + b)[0] == a[0];
      assert (a + b)[1..] == a[1..] + b;
      RunAppend(Step(c, a[0]).0, a[1..], b);
    }
  }

  /** While no wipe has happened, every read returns the current value. */
  lemma {:induction false} ReadsBeforeWipe(c: Secure, ops: seq<Op>)
    requires Wipe !in ops
    ensures Run(c, ops).1 == Repeat(GetValue(c), CountReads(ops))
    decreases |ops|
  {
    if ops != [] {
      assert ops[0] == Read;
      assert Wipe !in ops[1..];
      ReadsBeforeWipe(c, ops[1..]);
    }
  }

  /** Once wiped, the container stays as it is and every read returns the
      empty text, however many reads and further wipes follow. */
  lemma {:induction false} ReadsAfterWipe(c: Secure, ops: seq<Op>)
    requires c.phase == Wiped
    ensures Run(c, ops).0 == c
    ensures Run(c, ops).1 == Repeat([], CountReads(ops))
    decreases |ops|
  {
    if ops != [] {
      if ops[0] == Wipe {
        ZeroizeWipedIsNoOp(c);
      }
      ReadsAfterWipe(c, ops[1..]);
    }
  }

  /** A whole session on a fresh instance: reads before the first wipe return
      the text it was built from, every read after it returns "". */
  lemma SessionReads(s: Text, before: seq<Op>, after: seq<Op>)
    requires Wipe !in before
    ensures Run(New(s), before + [Wipe] + after).1
         == Repeat(s, CountReads(before)) + Repeat([], CountReads(after))
  {
    var c := New(s);
    var tail := [Wipe] + after;
    assert before + [Wipe] + after == before + tail;
    RunAppend(c, before, tail);
    var first := Run(c, before);
    ReadsBeforeWipe(c, before);
    assert first.1 == Repeat(s, CountReads(before));
    WipeThenReads(first.0, after);
    assert Run(c, before + tail).1 == first.1 + Run(first.0, tail).1;
  }

  /** A wipe followed by anything: only empty reads. */
  lemma WipeThenReads(c: Secure, after: seq<Op>)
    ensures Run(c, [Wipe] + after).1 == Repeat([], CountReads(after))
  {
    var ops := [Wipe] + after;
    assert ops[0] == Wipe && ops[1..] == after;
    ReadsAfterWipe(Zeroize(c), after);
    assert [] + Run(Zeroize(c), after).1 == Run(Zeroize(c), after).1;
  }

  /** A session with no wipe reads back the original text every time. */
  lemma SessionWithoutWipe(s: Text, ops: seq<Op>)
    requires Wipe !in ops
    ensures Run(New(s), ops).1 == Repeat(s, CountReads(ops))
  {
    ReadsBeforeWipe(New(s), ops);
  }

  /** A second wipe right after the first is unobservable. */
  lemma WipeTwiceIsWipeOnce(c: Secure, ops: seq<Op>)
    ensures Run(c, [Wipe, Wipe] + ops) == Run(c, [Wipe] + ops)
  {
    var once, twice := [Wipe] + ops, [Wipe, Wipe] + ops;
    assert once[0] == Wipe && once[1..] == ops;
    assert twice[0] == Wipe && twice[1..] == once;
    var w := Zeroize(c);
    ZeroizeIdempotent(c);
    var r := Run(w, ops);
    assert Run(w, once) == (r.0, [] + r.1);
    assert Run(c, once) == (r.0, [] + r.1);
    assert Run(c, twice) == (r.0, [] + ([] + r.1));
    assert [] + r.1 == r.1;
  }

  /** Whatever the session did, including never wiping, end of life hands
      the allocator only zeros, as many as the text's encoding occupied. */
  lemma EndOfLifeWipes(s: Text, ops: seq<Op>)
    ensures |Drop(Run(New(s), ops).0)| == |s|
    ensures AllZero(Drop(Run(New(s), ops).0))
  {
  }
}
