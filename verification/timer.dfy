/** The stimulus generator of tests/t5/timer_tb.py: a multi-rate tick timer
    whose reference model raises sub-tick `i` once every `delays[i]`
    evaluations, and the main loop that evaluates it once every
    `baseDelay` iterations until `all_passed(MAX_SIMS)`. The `SUB_DELAYS`
    and `BASE_DELAY` generics are passed in. */
module TimerBench {
  import opened Wrappers
  import opened Text
  import opened BitCodec
  import opened SignalModel
  import opened CoverNets

  /** The `all_passed` timeout of the main loop. */
  const MAX_SIMS: nat := 100_000

  // ---------------------------------------------------------------------------
  // The counters as values

  /** What `eval` leaves in a counter `c` of delay `d`: 0 when it was at
      `d - 1`, one more otherwise. */
  function Advance(c: int, d: int): int {
    if c == d - 1 then 0 else c + 1
  }

  /** The sub-tick bit `eval` writes for a counter `c` of delay `d`. */
  function TickBit(c: int, d: int): nat {
    if c == d - 1 then 1 else 0
  }

  /** The counters after one `eval`: the first `|ds|` advance, the rest are
      left alone. */
  function Tick(cs: seq<int>, ds: seq<int>): seq<int> {
    seq(|cs|, i requires 0 <= i < |cs| => if i < |ds| then Advance(cs[i], ds[i]) else cs[i])
  }

  /** The counters after `n` evaluations from `[0] * len(SUB_DELAYS)`. */
  function Iterated(ds: seq<int>, n: nat): seq<int> {
    if n == 0 then Repeat(0, |ds|) else Tick(Iterated(ds, n - 1), ds)
  }

  predicate Positive(ds: seq<int>) {
    forall i :: 0 <= i < |ds| ==> ds[i] >= 1
  }

  /** Every counter lies in `[0, delay)`. */
  predicate Counting(cs: seq<int>, ds: seq<int>) {
    |cs| == |ds| && forall i :: 0 <= i < |ds| ==> 0 <= cs[i] < ds[i]
  }

  /** Counters that start within their delays stay within them. */
  lemma TickKeepsRange(cs: seq<int>, ds: seq<int>)
    requires Counting(cs, ds)
    ensures Counting(Tick(cs, ds), ds)
  {
  }

  /** Advancing a counter that holds `n mod d` gives `(n + 1) mod d`. */
  lemma AdvanceMod(n: nat, d: int)
    requires d >= 1
    ensures Advance(n % d, d) == (n + 1) % d
  {
    var q, r := n / d, n % d;
    if r == d - 1 {
      ModOfSplit(n + 1, q + 1, 0, d);
    } else {
      ModOfSplit(n + 1, q, r + 1, d);
    }
  }

  /** After `n` evaluations from zero, counter `i` holds `n mod delays[i]`. */
  lemma {:induction false} IteratedIsMod(ds: seq<int>, n: nat)
    requires Positive(ds)
    ensures |Iterated(ds, n)| == |ds|
    ensures forall i :: 0 <= i < |ds| ==> Iterated(ds, n)[i] == n % ds[i]
  {
    if n > 0 {
      IteratedIsMod(ds, n - 1);
      forall i | 0 <= i < |ds|
        ensures Iterated(ds, n)[i] == n % ds[i]
      {
        AdvanceMod(n - 1, ds[i]);
      }
    }
  }

  /** Counting from zero, sub-tick `i` is raised by evaluation `n + 1`
      exactly when `n + 1` is a multiple of `delays[i]`. */
  lemma FiresEvery(ds: seq<int>, n: nat, i: nat)
    requires Positive(ds) && i < |ds|
    ensures |Iterated(ds, n)| == |ds|
    ensures TickBit(Iterated(ds, n)[i], ds[i]) == 1 <==> (n + 1) % ds[i] == 0
  {
    IteratedIsMod(ds, n);
    AdvanceMod(n, ds[i]);
  }

  /** One more loop pass moves `s` on by one in base `p`. */
  lemma CountStep(s: nat, p: int)
    requires p >= 1
    ensures s % p + 1 == p ==> (s + 1) % p == 0 && (s + 1) / p == s / p + 1
    ensures s % p + 1 != p ==> (s + 1) % p == s % p + 1 && (s + 1) / p == s / p
  {
    var q, r := s / p, s % p;
    if r + 1 == p {
      SplitDivMod(s + 1, q + 1, 0, p);
    } else {
      SplitDivMod(s + 1, q, r + 1, p);
    }
  }

  // ---------------------------------------------------------------------------
  // The reference model

  /** `Timer`: the `sub_ticks` output, one little-endian bit per sub delay,
      and the one-bit `base_tick` output. */
  class Timer {
    const delays: seq<int>
    const subTicks: Signal
    const baseTick: Signal

    ghost predicate Valid()
      reads subTicks, baseTick
    {
      subTicks.Valid() && baseTick.Valid() && subTicks != baseTick &&
      subTicks.width == (if |delays| > 0 then |delays| else 1) && !subTicks.bigEndian &&
      baseTick.width == 1
    }

    /** Bit `i` of `sub_ticks` counted from the least significant end, as
        `as_logic()` prints it. */
    function SubTick(i: nat): nat
      reads subTicks
    {
      Bit(subTicks.value % Pow2(subTicks.width), i)
    }

    /** `Timer()`: both outputs at zero. */
    constructor(delays: seq<int>)
      ensures Valid() && this.delays == delays
      ensures subTicks.value == 0 && baseTick.value == 0
    {
      this.delays := delays;
      subTicks := new Signal(Some(|delays|), OUT, 0, false, None);
      baseTick := new Signal(None, OUT, 0, true, None);
      SplitDivMod(0, 0, 0, Pow2(if |delays| > 0 then |delays| else 1));
      SplitDivMod(0, 0, 0, Pow2(1));
    }

    /** `eval(counts)`: `base_tick` goes to 1; for each sub delay, in order,
        a counter at `delay - 1` raises its sub-tick bit and restarts at 0,
        any other clears the bit and counts up. Counters past the sub delays
        and sub-tick bits past them are left alone. */
    method Eval(counts: array<int>)
      requires Valid() && counts.Length >= |delays|
      modifies subTicks, baseTick, counts
      ensures Valid() && baseTick.value == 1
      ensures counts[..] == Tick(old(counts[..]), delays)
      ensures forall i :: 0 <= i < |delays| ==> SubTick(i) == TickBit(old(counts[i]), delays[i])
      ensures forall i :: |delays| <= i < subTicks.width ==> SubTick(i) == old(SubTick(i))
    {
      baseTick.SetInt(1);
      SplitDivMod(1, 0, 1, Pow2(1));
      ghost var c0 := counts[..];
      ghost var v0 := subTicks.value % Pow2(subTicks.width);
      for i := 0 to |delays|
        invariant Valid() && baseTick.value == 1
        invariant forall j :: 0 <= j < i ==> counts[j] == Advance(c0[j], delays[j])
        invariant forall j :: i <= j < counts.Length ==> counts[j] == c0[j]
        invariant forall j :: 0 <= j < i ==> SubTick(j) == TickBit(c0[j], delays[j])
        invariant forall j :: i <= j < subTicks.width ==> SubTick(j) == Bit(v0, j)
      {
        var delay := delays[i];
        var time := counts[i];
        if time == delay - 1 {
          subTicks.SetBit(i, 1);
          counts[i] := 0;
        } else {
          subTicks.SetBit(i, 0);
          counts[i] := counts[i] + 1;
        }
        SplitDivMod(subTicks.value, 0, subTicks.value, Pow2(subTicks.width));
      }
      assert counts[..] == Tick(c0, delays);
    }
  }

  /** `Bit(0, i)` */
  lemma {:induction false} BitOfZero(i: nat)
    ensures Bit(0, i) == 0
  {
    if i > 0 {
      BitOfZero(i - 1);
    }
  }

  // ---------------------------------------------------------------------------
  // The main loop

  /** The script's state: the timer, the counters it is evaluated with and
      `base_count`. */
  class Bench {
    const timer: Timer
    const baseDelay: int
    const counts: array<int>
    var baseCount: int

    ghost predicate Valid()
      reads timer.subTicks, timer.baseTick
    {
      timer.Valid() && counts.Length == |timer.delays|
    }

    /** `model = Timer()`, `base_count = 0` and `counts = [0] * len(SUB_DELAYS)`. */
    constructor(delays: seq<int>, baseDelay: int)
      ensures Valid() && timer.delays == delays && this.baseDelay == baseDelay
      ensures baseCount == 0 && counts[..] == Repeat(0, |delays|)
    {
      timer := new Timer(delays);
      this.baseDelay := baseDelay;
      counts := new int[|delays|](_ => 0);
      baseCount := 0;
    }

    /** One pass of the main loop: both outputs are cleared, `base_count`
        counts up, and when it reaches `BASE_DELAY` it restarts at 0 and the
        timer is evaluated. */
    method Iteration()
      requires Valid()
      modifies this, timer.subTicks, timer.baseTick, counts
      ensures Valid()
      ensures var fired := old(baseCount) + 1 == baseDelay;
        baseCount == (if fired then 0 else old(baseCount) + 1) &&
        counts[..] == (if fired then Tick(old(counts[..]), timer.delays) else old(counts[..])) &&
        timer.baseTick.value == (if fired then 1 else 0) &&
        (forall i :: 0 <= i < |timer.delays| ==>
          timer.SubTick(i) == if fired then TickBit(old(counts[i]), timer.delays[i]) else 0) &&
        (forall i :: |timer.delays| <= i < timer.subTicks.width ==> timer.SubTick(i) == 0)
    {
      timer.baseTick.SetInt(0);
      timer.subTicks.SetInt(0);
      SplitDivMod(0, 0, 0, Pow2(timer.subTicks.width));
      forall i: nat
        ensures Bit(0, i) == 0
      {
        BitOfZero(i);
      }
      baseCount := baseCount + 1;
      if baseCount == baseDelay {
        baseCount := 0;
        timer.Eval(counts);
      }
    }

    /** `while Coverage.all_passed(MAX_SIMS) == False`: from a fresh counter
        the body runs `sims <= MAX_SIMS` times; with a positive
        `BASE_DELAY` the timer was then evaluated `sims / BASE_DELAY` times
        and `base_count` is `sims mod BASE_DELAY`, and otherwise it was never
        evaluated. */
    method Run(reg: Registry) returns (sims: nat)
      requires Valid() && reg.counter == 0 && baseCount == 0 && counts[..] == Repeat(0, |timer.delays|)
      modifies reg, this, timer.subTicks, timer.baseTick, counts
      ensures sims <= MAX_SIMS
      ensures baseDelay >= 1 ==> baseCount == sims % baseDelay && counts[..] == Iterated(timer.delays, sims / baseDelay)
      ensures baseDelay < 1 ==> baseCount == sims && counts[..] == Repeat(0, |timer.delays|)
    {
      sims := 0;
      assert reg !in {this, timer.subTicks, timer.baseTick, counts};
      while true
        invariant Valid() && sims == reg.counter <= MAX_SIMS
        invariant baseDelay >= 1 ==> baseCount == sims % baseDelay && counts[..] == Iterated(timer.delays, sims / baseDelay)
        invariant baseDelay < 1 ==> baseCount == sims && counts[..] == Repeat(0, |timer.delays|)
        decreases MAX_SIMS - reg.counter
      {
        var done := reg.AllPassed(MAX_SIMS);
        if done {
          return;
        }
        if baseDelay >= 1 {
          CountStep(sims, baseDelay);
        }
        Iteration();
        sims := sims + 1;
      }
    }
  }
}
