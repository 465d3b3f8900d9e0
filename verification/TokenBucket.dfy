/** The token bucket inside the command dispatcher of src/shell.cpp, with its numbers as reals. */
module TokenBucket {

  datatype Bucket = Bucket(capacity: real, tokens: real, refill: real, last: int)

  function Min(a: real, b: real): real { if b < a then b else a }

  /** Seconds times refill: the tokens that come in over a stretch of time, or go when the clock was set back. */
  function Gain(refill: real, seconds: int): real { seconds as real * refill }

  lemma GainsAdd(refill: real, a: int, b: int)
    ensures Gain(refill, a + b) == Gain(refill, a) + Gain(refill, b)
    ensures 0.0 <= refill && 0 <= b ==> 0.0 <= Gain(refill, b)
  {
  }

  // ---------- One command ----------

  /** Seconds since the last command; a zero timestamp means there was none. */
  function Elapsed(b: Bucket, now: int): int { if b.last == 0 then 0 else now - b.last }

  function Refilled(b: Bucket, now: int): real {
    Min(b.capacity, b.tokens + Gain(b.refill, Elapsed(b, now)))
  }

  predicate Admits(b: Bucket, now: int) { Refilled(b, now) >= 1.0 }

  /** The bucket after a command at `now`: refilled either way, one token less when admitted. */
  function Step(b: Bucket, now: int): Bucket {
    b.(last := now, tokens := if Admits(b, now) then Refilled(b, now) - 1.0 else Refilled(b, now))
  }

  class Limiter {
    const capacity: real
    const refill: real
    var tokens: real
    var last: int

    constructor (capacity: real, refill: real)
      ensures Value() == Bucket(capacity, capacity, refill, 0)
    {
      this.capacity := capacity;
      this.refill := refill;
      tokens := capacity;
      last := 0;
    }

    function Value(): Bucket
      reads this
    {
      Bucket(capacity, tokens, refill, last)
    }

    method Admit(now: int) returns (ok: bool)
      modifies this
      ensures ok == Admits(old(Value()), now)
      ensures Value() == Step(old(Value()), now)
    {
      var elapsed := if last == 0 then 0 else now - last;
      last := now;
      tokens := Min(capacity, tokens + elapsed as real * refill);
      if tokens < 1.0 { return false; }
      tokens := tokens - 1.0;
      return true;
    }
  }

  // ---------- Runs of commands ----------

  ghost function After(b: Bucket, clock: seq<int>): Bucket
    decreases |clock|
  {
    if clock == [] then b else After(Step(b, clock[0]), clock[1..])
  }

  ghost function Admitted(b: Bucket, clock: seq<int>): nat
    decreases |clock|
  {
    if clock == [] then 0 else (if Admits(b, clock[0]) then 1 else 0) + Admitted(Step(b, clock[0]), clock[1..])
  }

  // ---------- Exactly when the tokens stay within bounds ----------

  ghost predicate InBounds(b: Bucket) { 0.0 <= b.tokens <= b.capacity }

  /** What a command at `now` can be checked for beforehand: the tokens cover the time the clock was set back. */
  predicate Covers(b: Bucket, now: int) { b.tokens + Gain(b.refill, Elapsed(b, now)) >= 0.0 }

  /** One command keeps the tokens within bounds exactly when they cover a clock that was set back. */
  lemma StepBoundedExactly(b: Bucket, now: int)
    requires InBounds(b)
    ensures InBounds(Step(b, now)) <==> Covers(b, now)
  {
    assert Refilled(b, now) == if Covers(b, now) then Refilled(b, now) else b.tokens + Gain(b.refill, Elapsed(b, now));
  }

  /** The bucket after any front part of a run is the run's own bucket after that part. */
  lemma {:induction false} AfterStep(b: Bucket, clock: seq<int>, i: nat)
    requires i < |clock|
    ensures After(b, clock[..i + 1]) == Step(After(b, clock[..i]), clock[i])
    decreases i
  {
    if i == 0 {
      assert clock[..1][1..] == [];
    } else {
      assert clock[..i + 1][1..] == clock[1..][..i] && clock[..i][1..] == clock[1..][..i - 1];
      AfterStep(Step(b, clock[0]), clock[1..], i - 1);
    }
  }

  /** Over a run, whatever the clock does, the tokens stay within bounds exactly as long as every command is covered. */
  lemma {:induction false} BoundedExactly(b: Bucket, clock: seq<int>, n: nat)
    requires InBounds(b) && n <= |clock|
    ensures (forall i | 0 <= i <= n :: InBounds(After(b, clock[..i])))
       <==> (forall i | 0 <= i < n :: Covers(After(b, clock[..i]), clock[i]))
    decreases n
  {
    if n == 0 {
      assert clock[..0] == [];
    } else {
      BoundedExactly(b, clock, n - 1);
      AfterStep(b, clock, n - 1);
      if InBounds(After(b, clock[..n - 1])) {
        StepBoundedExactly(After(b, clock[..n - 1]), clock[n - 1]);
      }
    }
  }

  /** A clock that goes back from 100 to 50 seconds takes an emptied bucket far below zero. */
  lemma ClockSetBack(b: Bucket, clock: seq<int>)
    requires b == Bucket(1.0, 1.0, 1.0, 0) && clock == [100, 50]
    ensures InBounds(b) && !Covers(After(b, clock[..1]), clock[1]) && !InBounds(After(b, clock))
  {
    assert clock[..0] == [] && clock[..2] == clock;
    AfterStep(b, clock, 0);
    AfterStep(b, clock, 1);
    assert After(b, clock[..1]) == Bucket(1.0, 0.0, 1.0, 100);
    StepBoundedExactly(After(b, clock[..1]), 50);
  }

  // ---------- A clock that moves forward ----------

  /** Time moves forward and never reads zero. */
  ghost predicate Forward(b: Bucket, clock: seq<int>) {
    && (forall i | 0 <= i < |clock| :: 0 < clock[i] && b.last <= clock[i])
    && (forall i, j | 0 <= i < j < |clock| :: clock[i] <= clock[j])
  }

  ghost predicate Sound(b: Bucket) {
    InBounds(b) && 0.0 <= b.refill && 0 <= b.last
  }

  /** One command keeps the tokens within bounds and pays for itself out of tokens and refill. */
  lemma StepPays(b: Bucket, now: int)
    requires Sound(b) && 0 < now && b.last <= now
    ensures Sound(Step(b, now))
    ensures b.last != 0 ==>
              Step(b, now).tokens + (if Admits(b, now) then 1.0 else 0.0) <= b.tokens + Gain(b.refill, now - b.last)
  {
    GainsAdd(b.refill, 0, now - b.last);
    StepBoundedExactly(b, now);
  }

  lemma {:induction false} TokensStayBounded(b: Bucket, clock: seq<int>)
    requires Sound(b) && Forward(b, clock)
    ensures Sound(After(b, clock)) && After(b, clock).capacity == b.capacity && After(b, clock).refill == b.refill
    ensures After(b, clock).last == if clock == [] then b.last else clock[|clock| - 1]
    decreases |clock|
  {
    if clock == [] {
    } else {
      StepPays(b, clock[0]);
      TokensStayBounded(Step(b, clock[0]), clock[1..]);
    }
  }

  /** Over a run after a first command, admissions and what is left are paid for by tokens and refill. */
  lemma {:induction false} RunPays(b: Bucket, clock: seq<int>)
    requires Sound(b) && Forward(b, clock) && b.last != 0
    ensures After(b, clock).tokens + Admitted(b, clock) as real
            <= b.tokens + Gain(b.refill, After(b, clock).last - b.last)
    decreases |clock|
  {
    if clock == [] {
    } else {
      StepPays(b, clock[0]);
      RunPays(Step(b, clock[0]), clock[1..]);
      TokensStayBounded(Step(b, clock[0]), clock[1..]);
      GainsAdd(b.refill, clock[0] - b.last, After(b, clock).last - clock[0]);
    }
  }

  lemma {:induction false} Cut(b: Bucket, clock: seq<int>, i: nat)
    requires i <= |clock| && Forward(b, clock)
    ensures Forward(After(b, clock[..i]), clock[i..])
    decreases |clock|
  {
    if i == 0 {
      assert clock[i..] == clock;
    } else {
      assert clock[..i][1..] == clock[1..][..i - 1];
      Cut(Step(b, clock[0]), clock[1..], i - 1);
    }
  }

  /** The first command of a run finds at most a full bucket. */
  lemma BurstPays(b: Bucket, clock: seq<int>)
    requires Sound(b) && Forward(b, clock) && clock != []
    ensures Admitted(b, clock) as real <= b.capacity + Gain(b.refill, clock[|clock| - 1] - clock[0])
  {
    StepPays(b, clock[0]);
    var next := Step(b, clock[0]);
    RunPays(next, clock[1..]);
    TokensStayBounded(next, clock[1..]);
  }

  /** However the commands arrive, a window of a run admits at most the capacity and its seconds times the refill. */
  lemma WindowBound(b: Bucket, clock: seq<int>, i: nat, j: nat)
    requires Sound(b) && Forward(b, clock) && i < j <= |clock|
    ensures Admitted(After(b, clock[..i]), clock[i..j]) as real
            <= b.capacity + Gain(b.refill, clock[j - 1] - clock[i])
  {
    Cut(b, clock, i);
    TokensStayBounded(b, clock[..i]);
    var window := clock[i..j];
    assert window == clock[i..][..j - i] && window[0] == clock[i] && window[j - i - 1] == clock[j - 1];
    BurstPays(After(b, clock[..i]), window);
  }

  // ---------- Nothing is lost but at the brim ----------

  /** What a refill brings beyond the capacity. */
  function Spill(b: Bucket, now: int): real {
    var full := b.tokens + Gain(b.refill, Elapsed(b, now));
    if full > b.capacity then full - b.capacity else 0.0
  }

  ghost function Spilled(b: Bucket, clock: seq<int>): real
    decreases |clock|
  {
    if clock == [] then 0.0 else Spill(b, clock[0]) + Spilled(Step(b, clock[0]), clock[1..])
  }

  /** The seconds a run covers; they start with the first command when there was none before. */
  ghost function Span(b: Bucket, clock: seq<int>): int {
    if clock == [] then 0 else clock[|clock| - 1] - (if b.last == 0 then clock[0] else b.last)
  }

  /** An admitted command takes one token, a refused one none. */
  lemma StepConserves(b: Bucket, now: int)
    ensures Step(b, now).tokens + (if Admits(b, now) then 1.0 else 0.0) + Spill(b, now)
         == b.tokens + Gain(b.refill, Elapsed(b, now))
    ensures Step(b, now).last == now && Step(b, now).refill == b.refill && Step(b, now).capacity == b.capacity
  {
  }

  /** Over any run: what was there and what came in is admitted, left, or was spilled at the brim. */
  lemma {:induction false} Conserved(b: Bucket, clock: seq<int>)
    requires 0 !in clock
    ensures After(b, clock).tokens + Admitted(b, clock) as real + Spilled(b, clock)
         == b.tokens + Gain(b.refill, Span(b, clock))
    decreases |clock|
  {
    if clock == [] {
    } else {
      var next, rest := Step(b, clock[0]), clock[1..];
      assert clock[0] in clock;
      StepConserves(b, clock[0]);
      Conserved(next, rest);
      GainsAdd(b.refill, Elapsed(b, clock[0]), Span(next, rest));
      assert Span(b, clock) == Elapsed(b, clock[0]) + Span(next, rest);
    }
  }

  /** Nothing is spilled exactly when no command finds more than the capacity. */
  lemma {:induction false} NothingSpilled(b: Bucket, clock: seq<int>)
    ensures 0.0 <= Spilled(b, clock)
    ensures Spilled(b, clock) == 0.0 <==> forall i | 0 <= i < |clock| :: Spill(After(b, clock[..i]), clock[i]) == 0.0
    decreases |clock|
  {
    if clock == [] {
    } else {
      var next, rest := Step(b, clock[0]), clock[1..];
      NothingSpilled(next, rest);
      assert clock[..0] == [];
      forall i | 0 <= i < |rest| ensures After(next, rest[..i]) == After(b, clock[..i + 1]) {
        assert clock[..i + 1][1..] == rest[..i];
      }
      if Spilled(b, clock) == 0.0 {
        forall i | 0 <= i < |clock| ensures Spill(After(b, clock[..i]), clock[i]) == 0.0 {
          if i > 0 { assert Spill(After(next, rest[..i - 1]), rest[i - 1]) == 0.0; }
        }
      }
      if forall i | 0 <= i < |clock| :: Spill(After(b, clock[..i]), clock[i]) == 0.0 {
        forall i | 0 <= i < |rest| ensures Spill(After(next, rest[..i]), rest[i]) == 0.0 {
          assert Spill(After(b, clock[..i + 1]), clock[i + 1]) == 0.0;
        }
      }
    }
  }

  /**
   A run admits at least what came in beyond one full bucket, and a run whose last command is refused admits
   exactly the whole number of tokens that were there or came in and were not spilled.
   */
  lemma AdmittedExactly(b: Bucket, clock: seq<int>)
    requires Sound(b) && Forward(b, clock) && clock != []
    ensures var all := b.tokens + Gain(b.refill, Span(b, clock)) - Spilled(b, clock);
      && all - b.capacity <= Admitted(b, clock) as real <= all
      && (!Admits(After(b, clock[..|clock| - 1]), clock[|clock| - 1]) ==>
            Admitted(b, clock) as real <= all < Admitted(b, clock) as real + 1.0)
  {
    var n := |clock| - 1;
    Conserved(b, clock);
    TokensStayBounded(b, clock);
    AfterStep(b, clock, n);
    assert clock[..n + 1] == clock;
  }

  // ---------- Callers that are never refused ----------

  /** Commands at least 1/refill apart. */
  ghost predicate Spaced(refill: real, clock: seq<int>) {
    forall i | 0 < i < |clock| :: Gain(refill, clock[i] - clock[i - 1]) >= 1.0
  }

  /** With room for a token and a token at the start, a caller that keeps its distance is never refused. */
  lemma {:induction false} SpacedNeverRefused(b: Bucket, clock: seq<int>)
    requires Sound(b) && Forward(b, clock) && Spaced(b.refill, clock)
    requires 1.0 <= b.capacity && (clock != [] ==> Admits(b, clock[0]))
    ensures Admitted(b, clock) == |clock|
    decreases |clock|
  {
    if clock == [] {
    } else {
      StepPays(b, clock[0]);
      if |clock| > 1 {
        assert Gain(b.refill, clock[1] - clock[0]) >= 1.0;
      }
      SpacedNeverRefused(Step(b, clock[0]), clock[1..]);
    }
  }

  /** A full bucket admits its first command exactly when it has room for a token. */
  lemma FullStart(b: Bucket, clock: seq<int>)
    requires Sound(b) && Forward(b, clock) && Spaced(b.refill, clock) && b.tokens == b.capacity && clock != []
    ensures Admitted(b, clock) == |clock| <==> 1.0 <= b.capacity
  {
    GainsAdd(b.refill, 0, Elapsed(b, clock[0]));
    if 1.0 <= b.capacity {
      SpacedNeverRefused(b, clock);
    } else {
      AtMostAll(Step(b, clock[0]), clock[1..]);
    }
  }

  lemma {:induction false} AtMostAll(b: Bucket, clock: seq<int>)
    ensures Admitted(b, clock) <= |clock|
    decreases |clock|
  {
    if clock == [] {
    } else {
      AtMostAll(Step(b, clock[0]), clock[1..]);
    }
  }

  /** `n` commands, one every `gap` seconds from `start` on. */
  ghost function Steady(start: int, gap: nat, n: nat): (clock: seq<int>)
    ensures |clock| == n
    decreases n
  {
    if n == 0 then [] else [start] + Steady(start + gap, gap, n - 1)
  }

  /** A first command that finds `t` tokens, and `k` more that find what a gap brings each. */
  ghost predicate PaysFor(t: real, rate: real, k: nat) { t >= 1.0 && k as real <= t - 1.0 + Gain(rate, k) }

  lemma {:induction false} GainAtRate(rate: real, k: nat)
    ensures rate < 1.0 ==> Gain(rate, k) <= k as real
    ensures rate >= 1.0 ==> Gain(rate, k) >= k as real
  {
    if k == 0 {
    } else {
      GainAtRate(rate, k - 1);
      GainsAdd(rate, k - 1, 1);
    }
  }

  /**
   A steady caller is served in full exactly when there is a token for its first command and tokens and
   refill pay for all the others.
   */
  lemma {:induction false} SteadyExactly(b: Bucket, start: int, gap: nat, n: nat, rate: real)
    requires Sound(b) && 0 < start && b.last <= start && rate == Gain(b.refill, gap)
    ensures Admitted(b, Steady(start, gap, n)) == n <==> n == 0 || PaysFor(Refilled(b, start), rate, n - 1)
    decreases n
  {
    if n == 0 {
    } else {
      var rest := Steady(start + gap, gap, n - 1);
      assert Steady(start, gap, n)[1..] == rest;
      var next := Step(b, start);
      StepPays(b, start);
      AtMostAll(next, rest);
      GainsAdd(b.refill, 0, gap);
      SteadyExactly(next, start + gap, gap, n - 1, rate);
      if Admits(b, start) && n > 1 {
        GainsAdd(rate, (n - 1) - 1, 1);
        GainAtRate(rate, (n - 1) - 1);
      }
    }
  }
}
