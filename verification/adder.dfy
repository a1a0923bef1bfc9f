/** The stimulus generator of tests/t3/add_tb.py: a ripple adder's reference
    model, the coverage nets that steer its inputs, the priority chain of
    directed overrides and the main loop bounded by `MAX_SIMS`. The width
    is the `LEN` generic, passed in; Python's random choices are
    nondeterministic choices. */
module AdderBench {
  import opened Wrappers
  import opened BitCodec
  import opened SignalModel
  import opened CoverNets

  /** The `all_passed` timeout of the main loop. */
  const MAX_SIMS: nat := 5000

  /** The counters of the nine nets. */
  datatype Tallies = Tallies(cin: nat, cout: nat, zero: nat, max: nat,
                             in0Ext: Tally, in1Ext: Tally, in0Full: Tally, in1Full: Tally, cross: Tally)

  /** The reference model: two `width`-bit operands and a carry in, the
      `width`-bit sum and the carry out. */
  class Adder {
    const in0: Signal
    const in1: Signal
    const cin: Signal
    const sum: Signal
    const cout: Signal

    /** Five distinct big-endian signals of the declared widths. */
    ghost predicate Valid()
      reads in0, in1, cin, sum, cout
    {
      in0.Valid() && in1.Valid() && cin.Valid() && sum.Valid() && cout.Valid() &&
      in1.width == in0.width && sum.width == in0.width && cin.width == 1 && cout.width == 1 &&
      sum.bigEndian && cout.bigEndian &&
      in0 != in1 && in0 != cin && in1 != cin && sum != cout &&
      sum != in0 && sum != in1 && sum != cin && cout != in0 && cout != in1 && cout != cin
    }

    /** `Adder(width)`: every signal at zero. */
    constructor(width: nat)
      requires width >= 1
      ensures Valid() && in0.width == width
      ensures in0.value == 0 && in1.value == 0 && cin.value == 0
      ensures fresh(in0) && fresh(in1) && fresh(cin) && fresh(sum) && fresh(cout)
    {
      in0 := new Signal(Some(width), INFER, 0, true, None);
      in1 := new Signal(Some(width), INFER, 0, true, None);
      cin := new Signal(None, INFER, 0, true, None);
      sum := new Signal(Some(width), INFER, 0, true, None);
      cout := new Signal(None, INFER, 0, true, None);
      SplitDivMod(0, 0, 0, Pow2(width));
      SplitDivMod(0, 0, 0, Pow2(1));
    }

    /** `evaluate`: the total is printed in `width + 1` bits; `sum` takes the
        low `width` bits and `cout` the top bit, so together they are the
        total modulo `2^(width+1)`, and exactly the total for inputs within
        their widths. The carry-out cover point counts a carry out of 1. */
    method Evaluate(cp: CoverPoint)
      requires Valid()
      modifies sum, cout, cp
      ensures Valid()
      ensures sum.value == old(in0.value + in1.value + cin.value) % Pow2(in0.width)
      ensures cout.value == Bit(old(in0.value + in1.value + cin.value) % Pow2(in0.width + 1), in0.width)
      ensures old(0 <= in0.value < Pow2(in0.width) && 0 <= in1.value < Pow2(in0.width) && 0 <= cin.value <= 1) ==>
        sum.value + Pow2(in0.width) * cout.value == old(in0.value + in1.value + cin.value)
      ensures cp.count == old(cp.count) + if cout.value == 1 then 1 else 0
    {
      var w := in0.width;
      var result := in0.value + in1.value + cin.value;
      var t := Printed(result, w + 1);
      Evaluated(t, w, result);
      AddWithinWidth(in0.value, in1.value, cin.value, w);
      Slice(t);
      var _ := cp.Cover(if cout.value == 1 then 1 else 0);
    }

    /** `randomize(model)` on this model, taking `in0`, `in1` and `cin` to
        be the design's input ports (the general operation over a port
        table is `SignalModel.Randomize`): each input takes any value of its
        width, and the outputs are not touched. */
    method RandomInputs()
      requires Valid()
      modifies in0, in1, cin
      ensures Valid() && InputsInRange()
    {
      in0.Rand();
      in1.Rand();
      cin.Rand();
    }

    /** `txn.in0.set(a)`, `txn.in1.set(b)`, `txn.cin.set(c)` with values
        already within the inputs' widths, which `set` keeps as they are. */
    method SetInputs(a: int, b: int, c: int)
      requires Valid() && 0 <= a <= in0.Max() && 0 <= b <= in1.Max() && 0 <= c <= cin.Max()
      modifies in0, in1, cin
      ensures Valid() && in0.value == a && in1.value == b && cin.value == c
    {
      Fits(a, in0.width);
      in0.SetInt(a);
      Fits(b, in1.width);
      in1.SetInt(b);
      Fits(c, cin.width);
      cin.SetInt(c);
    }

    /** The inputs hold unsigned values of their widths. */
    predicate InputsInRange()
      reads in0, in1, cin
    {
      0 <= in0.value <= in0.Max() && 0 <= in1.value <= in1.Max() && 0 <= cin.value <= cin.Max()
    }

    /** `temp = Signal(width, value=x); temp.as_logic()`: the value wrapped to
        `width` bits, most significant bit first. */
    static method Printed(x: int, width: nat) returns (t: string)
      requires width >= 1
      ensures |t| == width && IsBits(t) && Unsigned(t) == x % Pow2(width)
    {
      var temp := new Signal(Some(width), INFER, x, true, None);
      t := temp.AsLogic();
      SplitDivMod(temp.value, 0, temp.value, Pow2(width));
    }

    /** `sum.set(temp[1:])` and `cout.set(temp[0])`. */
    method Slice(t: string)
      requires Valid() && |t| == in0.width + 1 && IsBits(t)
      modifies sum, cout
      ensures Valid() && sum.value == Unsigned(t[1..]) && cout.value == Unsigned(t[..1])
    {
      sum.KeptFullWidth(t[1..]);
      var ok := sum.SetStr(t[1..], false);
      cout.KeptFullWidth(t[..1]);
      ok := cout.SetStr(t[..1], false);
    }
  }

  /** Reducing modulo `2p` and then modulo `p` is reducing modulo `p`. */
  lemma ModOfDoubleMod(x: int, p: int)
    requires p > 0
    ensures (x % (2 * p)) % p == x % p
  {
    var q, r := x / (2 * p), x % (2 * p);
    var q', s := r / p, r % p;
    assert x == q * (2 * p) + r;
    assert r == q' * p + s;
    assert x == (2 * q + q') * p + s;
    ModOfSplit(x, 2 * q + q', s, p);
  }

  /** A `w + 1`-bit string holding `x` modulo `2^(w+1)`: its first
      character is bit `w` of that value and the rest is `x` modulo `2^w`. */
  lemma Evaluated(t: string, w: nat, x: int)
    requires |t| == w + 1 && IsBits(t) && Unsigned(t) == x % Pow2(w + 1)
    ensures Unsigned(t[1..]) == x % Pow2(w)
    ensures Unsigned(t[..1]) == Bit(x % Pow2(w + 1), w)
    ensures x % Pow2(w + 1) == x ==> Unsigned(t[1..]) + Pow2(w) * Unsigned(t[..1]) == x
  {
    assert t[..1][..0] == [];
    assert Unsigned(t[..1]) == Digit(t[0]);
    BitOfUnsigned(t, w);
    UnsignedLead(t);
    UnsignedBound(t[1..]);
    var p := Pow2(w);
    assert Pow2(w + 1) == 2 * p;
    ModOfSplit(Unsigned(t), Digit(t[0]), Unsigned(t[1..]), p);
    ModOfDoubleMod(x, p);
  }

  /** Operands within `w` bits and a carry bit add up to less than `2^(w+1)`. */
  lemma AddWithinWidth(a: int, b: int, c: int, w: nat)
    ensures 0 <= a < Pow2(w) && 0 <= b < Pow2(w) && 0 <= c <= 1 ==> (a + b + c) % Pow2(w + 1) == a + b + c
  {
    if 0 <= a < Pow2(w) && 0 <= b < Pow2(w) && 0 <= c <= 1 {
      SplitDivMod(a + b + c, 0, a + b + c, Pow2(w + 1));
    }
  }

  lemma Fits(v: int, w: nat)
    requires 0 <= v < Pow2(w)
    ensures v % Pow2(w) == v
  {
    SplitDivMod(v, 0, v, Pow2(w));
  }

  /** A value whose step is below `n` lies below `n` steps. */
  lemma BelowTiles(v: nat, s: nat, n: nat)
    requires s >= 1 && v / s < n
    ensures v < s * n
  {
    assert v == (v / s) * s + v % s;
    MulMono(s, v / s + 1, n);
  }

  /** The cross mapping `steps0 * int(in0 / step0) + int(in1 / step1)` for
      non-negative inputs. */
  function CrossIndex(steps0: nat, step0: nat, step1: nat, a: nat, b: nat): nat
    requires step0 >= 1 && step1 >= 1
  {
    steps0 * (a / step0) + b / step1
  }

  /** The cross mapping is the two-digit mixed-radix number of the steps,
      `in1`'s step least significant, and so lies in the cross range; this
      relies on both ranges having the same number of steps, since `in0`'s
      step is weighted by its own step count. */
  lemma CrossIndexInRange(r0: CoverRange, r1: CoverRange, a: nat, b: nat)
    requires r0.Valid() && r1.Valid() && r0.numSteps == r1.numSteps
    requires r0.Legal(a) && r1.Legal(b)
    ensures CrossIndex(r0.numSteps, r0.stepSize, r1.stepSize, a, b) ==
      MixedRadix([b / r1.stepSize, a / r0.stepSize], [r1.numSteps, r0.numSteps])
    ensures CrossIndex(r0.numSteps, r0.stepSize, r1.stepSize, a, b) < r0.numSteps * r1.numSteps
  {
    var d, r := [b / r1.stepSize, a / r0.stepSize], [r1.numSteps, r0.numSteps];
    BinBelow(a, r0.stepSize, r0.numSteps);
    BinBelow(b, r1.stepSize, r1.numSteps);
    assert d[1..] == [a / r0.stepSize] && r[1..] == [r0.numSteps];
    assert d[1..][1..] == [] && r[1..][1..] == [];
    assert MixedRadix(d[1..], r[1..]) == d[1] + r[1] * MixedRadix([], []);
    assert MixedRadix(d, r) == d[0] + r[0] * d[1];
    MixedRadixBound(d, r);
    assert Prod(r[1..]) == r[1] * Prod([]);
    assert Prod(r) == r[0] * r[1];
  }

  /** `pow2m1(WIDTH) + randint(1, WIDTH) - in0` wrapped into `in1`. */
  function CarryPartner(w: nat, a: int, b: int): int {
    (Pow2m1(w) + b - a) % Pow2(w)
  }

  lemma {:induction false} WidthBelowPow2(w: nat)
    ensures w < Pow2(w)
  {
    if w > 0 {
      WidthBelowPow2(w - 1);
    }
  }

  /** The carry-generating override produces a carry exactly when the
      random `b` does not exceed `in0`; otherwise the wrapped `in1` makes the
      sum small. */
  lemma CarryBranch(w: nat, a: int, b: int)
    requires 1 <= a <= Pow2m1(w) && 1 <= b <= w
    ensures a + CarryPartner(w, a, b) >= Pow2(w) <==> b <= a
  {
    var p := Pow2(w);
    WidthBelowPow2(w);
    if b <= a {
      SplitDivMod(p - 1 + b - a, 0, p - 1 + b - a, p);
    } else {
      SplitDivMod(p - 1 + b - a, 1, b - a - 1, p);
    }
  }

  /** `cp_in0_in1_eq_0`'s mapping. */
  predicate ZeroHit(a: int, b: int) {
    a == 0 && b == 0
  }

  /** `cp_in0_in1_eq_max`'s mapping. */
  predicate MaxHit(a: int, b: int, max0: int, max1: int) {
    a == max0 && b == max1
  }

  /** The directed overrides, in priority order. */
  datatype Directive = In0Full | In1Full | CoutGen | In0Extreme | In1Extreme | CinAsserted | BothZero | BothMax | NoDirective

  function Rank(d: Directive): nat {
    match d
    case In0Full => 0
    case In1Full => 1
    case CoutGen => 2
    case In0Extreme => 3
    case In1Extreme => 4
    case CinAsserted => 5
    case BothZero => 6
    case BothMax => 7
    case NoDirective => 8
  }

  /** A step of the covered range holds `v`, and it is below the goal. */
  predicate StepUnmet(r: CoverRange, v: int)
    reads r.counts
  {
    v >= 0 && r.stepSize >= 1 && v / r.stepSize < r.counts.Length && r.counts[v / r.stepSize] < r.goal
  }

  /** A full `2^w` range in at most 16 steps: the steps tile it exactly. */
  lemma FullRangeSteps(w: nat)
    ensures RangeLen(Pow2(w), 1) == Pow2(w)
    ensures RangeLen(Pow2(w), 1) > 16 ==> CeilDiv(Pow2(w), 16) * 16 == Pow2(w)
  {
    CeilExact(Pow2(w), 1, Pow2(w));
    if Pow2(w) > 16 {
      assert w >= 5 by {
        if w < 5 {
          Pow2Monotonic(w, 4);
        }
      }
      Pow2Add(4, w - 4);
      CeilExact(Pow2(w), 16, Pow2(w - 4));
    }
  }

  /** The number of steps of a full `w`-bit range in at most 16 steps. */
  function FullSteps(w: nat): nat {
    if Pow2(w) > 16 then 16 else Pow2(w)
  }

  /** The size of each step of a full `w`-bit range in at most 16 steps. */
  function FullStepSize(w: nat): nat {
    if Pow2(w) > 16 then CeilDiv(Pow2(w), 16) else 1
  }

  /** `Covergroup(name, bins=[0, pow2m1(WIDTH)], goal=10)` */
  method NewExtremes(r: Registry, name: string, w: nat) returns (g: CoverGroup)
    modifies r
    ensures g.Valid() && !g.mapped && g.goal == 10 && g.name == name
    ensures fresh(g) && fresh(g.counts)
    ensures r.nets == old(r.nets) + [Group(g)] && r.counter == old(r.counter)
  {
    g := new CoverGroup(r, name, [0, Pow2m1(w)], 10, false, 64, false);
  }

  /** `Coverrange(name, span=range(0, pow2(WIDTH)), goal=1, max_steps=16)`:
      the steps tile the range exactly. */
  method NewFullRange(r: Registry, name: string, w: nat) returns (rg: CoverRange)
    modifies r
    ensures rg.Valid() && !rg.mapped && rg.goal == 1 && rg.name == name
    ensures rg.stop == Pow2(w) && rg.numSteps == FullSteps(w) && rg.stepSize == FullStepSize(w)
    ensures rg.stepSize * rg.numSteps == Pow2(w)
    ensures fresh(rg) && fresh(rg.counts)
    ensures r.nets == old(r.nets) + [Range(rg)] && r.counter == old(r.counter)
  {
    FullRangeSteps(w);
    rg := new CoverRange(r, name, Pow2(w), 1, 1, false, Some(16), false);
  }

  /** `int(rng.next(rand=True))` for a full `w`-bit range that has not met
      its goal: a value in one of its unmet steps, within `w` bits. */
  method PickUnmet(rng: CoverRange, w: nat) returns (v: int)
    requires rng.Valid() && !rng.mapped && !rng.Met()
    requires rng.stepSize * rng.numSteps == Pow2(w)
    ensures 0 <= v <= Pow2m1(w) && StepUnmet(rng, v)
  {
    var r := rng.Next(true);
    v := r.value.value;
    BelowTiles(v, rng.stepSize, rng.numSteps);
  }

  /** The carry-in, carry-out and extreme-value nets of `add_tb.py`, in its
      order. */
  method NewPortNets(r: Registry, width: nat) returns (pCin: CoverPoint, pCout: CoverPoint, gIn0: CoverGroup, gIn1: CoverGroup)
    modifies r
    ensures gIn0.Valid() && gIn1.Valid()
    ensures pCin.goal == 100 && pCout.goal == 10 && gIn0.goal == 10 && gIn1.goal == 10
    ensures fresh(pCin) && fresh(pCout) && fresh(gIn0) && fresh(gIn0.counts) && fresh(gIn1) && fresh(gIn1.counts)
    ensures pCin != pCout && gIn0 != gIn1 && gIn0.counts != gIn1.counts
    ensures r.nets == old(r.nets) + [Point(pCin), Point(pCout), Group(gIn0), Group(gIn1)]
    ensures r.counter == old(r.counter)
  {
    pCin := new CoverPoint(r, "cin asserted", 100, false);
    pCout := new CoverPoint(r, "cout generated", 10, false);
    gIn0 := NewExtremes(r, "in0 extremes", width);
    gIn1 := NewExtremes(r, "in1 extremes", width);
  }

  /** The two full ranges, built identically, and the cross range over
      their step pairs. */
  method NewRangeNets(r: Registry, width: nat) returns (rIn0: CoverRange, rIn1: CoverRange, rCross: CoverRange)
    modifies r
    ensures rIn0.Valid() && rIn1.Valid() && rCross.Valid()
    ensures !rIn0.mapped && !rIn1.mapped && rIn0.stop == Pow2(width) && rIn1.stop == Pow2(width)
    ensures rIn0.stepSize * rIn0.numSteps == Pow2(width)
    ensures rIn0.numSteps == rIn1.numSteps && rIn0.stepSize == rIn1.stepSize
    ensures rCross.stop == rIn0.numSteps * rIn1.numSteps
    ensures rIn0.goal == 1 && rIn1.goal == 1 && rCross.goal == 1
    ensures fresh(rIn0) && fresh(rIn0.counts) && fresh(rIn1) && fresh(rIn1.counts) && fresh(rCross) && fresh(rCross.counts)
    ensures rIn0 != rIn1 && rIn0 != rCross && rIn1 != rCross
    ensures rIn0.counts != rIn1.counts && rIn0.counts != rCross.counts && rIn1.counts != rCross.counts
    ensures r.nets == old(r.nets) + [Range(rIn0), Range(rIn1), Range(rCross)]
    ensures r.counter == old(r.counter)
  {
    rIn0 := NewFullRange(r, "in0 full", width);
    rIn1 := NewFullRange(r, "in1 full", width);
    var combos := rIn0.numSteps * rIn1.numSteps;
    CeilExact(combos, 1, combos);
    rCross := new CoverRange(r, "in0 cross in1", combos, 1, 1, false, None, true);
  }

  /** The both-zero and both-max cover points. */
  method NewEdgeNets(r: Registry) returns (pZero: CoverPoint, pMax: CoverPoint)
    modifies r
    ensures pZero.goal == 1 && pMax.goal == 1
    ensures fresh(pZero) && fresh(pMax) && pZero != pMax
    ensures r.nets == old(r.nets) + [Point(pZero), Point(pMax)]
    ensures r.counter == old(r.counter)
  {
    pZero := new CoverPoint(r, "in0 and in1 equal 0", 1, false);
    pMax := new CoverPoint(r, "in0 and in1 equal max", 1, false);
  }

  /** The script's state: the registry, its nine nets and the model. */
  class AddBench {
    const width: nat
    const reg: Registry
    const cpCin: CoverPoint
    const cpCout: CoverPoint
    const cgIn0Ext: CoverGroup
    const cgIn1Ext: CoverGroup
    const crIn0Full: CoverRange
    const crIn1Full: CoverRange
    const crCross: CoverRange
    const cpZero: CoverPoint
    const cpMax: CoverPoint
    const model: Adder

    /** The objects whose state the nets' goals depend on. */
    function Nets(): set<object> {
      {cpCin, cpCout, cpZero, cpMax, cgIn0Ext.counts, cgIn1Ext.counts,
       crIn0Full.counts, crIn1Full.counts, crCross.counts}
    }

    /** The inputs, the outputs and the nets, all the loop body changes. */
    function Mutable(): set<object> {
      NetObjects() + {model.in0, model.in1, model.cin, model.sum, model.cout}
    }

    ghost predicate Valid()
      reads model.in0, model.in1, model.cin, model.sum, model.cout
    {
      model.Valid() && model.in0.width == width && NetsValid()
    }

    /** The nets as the script declares them: two identical full ranges over
        `width` bits, tiled exactly by their steps, and a cross range over
        their step pairs. */
    ghost predicate NetsValid() {
      width >= 1 && cgIn0Ext.Valid() && cgIn1Ext.Valid() &&
      crIn0Full.Valid() && crIn1Full.Valid() && crCross.Valid() &&
      !crIn0Full.mapped && !crIn1Full.mapped &&
      crIn0Full.stop == Pow2(width) && crIn1Full.stop == Pow2(width) &&
      crIn0Full.stepSize * crIn0Full.numSteps == Pow2(width) &&
      crIn0Full.numSteps == crIn1Full.numSteps && crIn0Full.stepSize == crIn1Full.stepSize &&
      crCross.stop == crIn0Full.numSteps * crIn1Full.numSteps &&
      Distinct()
    }

    /** The nets are nine different objects with their own counters. */
    ghost predicate Distinct() {
      cpCin != cpCout && cpCin != cpZero && cpCin != cpMax &&
      cpCout != cpZero && cpCout != cpMax && cpZero != cpMax &&
      cgIn0Ext != cgIn1Ext && crIn0Full != crIn1Full && crIn0Full != crCross && crIn1Full != crCross &&
      cgIn0Ext.counts != cgIn1Ext.counts && cgIn0Ext.counts != crIn0Full.counts &&
      cgIn0Ext.counts != crIn1Full.counts && cgIn0Ext.counts != crCross.counts &&
      cgIn1Ext.counts != crIn0Full.counts && cgIn1Ext.counts != crIn1Full.counts &&
      cgIn1Ext.counts != crCross.counts && crIn0Full.counts != crIn1Full.counts &&
      crIn0Full.counts != crCross.counts && crIn1Full.counts != crCross.counts
    }

    /** The nets are declared in the script's order with its goals; the two
        full ranges are built identically. */
    constructor(width: nat)
      requires width >= 1
      ensures Valid() && this.width == width
      ensures fresh(reg) && reg.counter == 0
      ensures reg.nets == [Point(cpCin), Point(cpCout), Group(cgIn0Ext), Group(cgIn1Ext),
                           Range(crIn0Full), Range(crIn1Full), Range(crCross), Point(cpZero), Point(cpMax)]
      ensures cpCin.goal == 100 && cpCout.goal == 10 && cgIn0Ext.goal == 10 && cgIn1Ext.goal == 10
      ensures crIn0Full.goal == 1 && crIn1Full.goal == 1 && crCross.goal == 1 && cpZero.goal == 1 && cpMax.goal == 1
    {
      var r := new Registry();
      var pCin, pCout, gIn0, gIn1 := NewPortNets(r, width);
      var rIn0, rIn1, rCross := NewRangeNets(r, width);
      var pZero, pMax := NewEdgeNets(r);
      var m := new Adder(width);
      this.width, reg, model := width, r, m;
      cpCin, cpCout, cgIn0Ext, cgIn1Ext := pCin, pCout, gIn0, gIn1;
      crIn0Full, crIn1Full, crCross, cpZero, cpMax := rIn0, rIn1, rCross, pZero, pMax;
    }

    /** The net that directive `d` steers toward has not met its goal. */
    predicate Unmet(d: Directive)
      reads Nets()
    {
      match d
      case In0Full => !crIn0Full.Met()
      case In1Full => !crIn1Full.Met()
      case CoutGen => !cpCout.Met()
      case In0Extreme => !cgIn0Ext.Met()
      case In1Extreme => !cgIn1Ext.Met()
      case CinAsserted => !cpCin.Met()
      case BothZero => !cpZero.Met()
      case BothMax => !cpMax.Met()
      case NoDirective => false
    }

    /** The conditions of the `if`/`elif` chain: the first net in priority
        order that has not met its goal, or none when every one has. */
    method Choose() returns (d: Directive)
      ensures d != NoDirective ==> Unmet(d)
      ensures forall e :: Rank(e) < Rank(d) ==> !Unmet(e)
    {
      var met := crIn0Full.Passed();
      if !met {
        return In0Full;
      }
      met := crIn1Full.Passed();
      if !met {
        return In1Full;
      }
      if !cpCout.Met() {
        return CoutGen;
      }
      met := cgIn0Ext.Passed();
      if !met {
        return In0Extreme;
      }
      met := cgIn1Ext.Passed();
      if !met {
        return In1Extreme;
      }
      if !cpCin.Met() {
        return CinAsserted;
      }
      if !cpZero.Met() {
        return BothZero;
      }
      if !cpMax.Met() {
        return BothMax;
      }
      return NoDirective;
    }

    /** What override `d` leaves in the inputs, whose values before it were
        `a0`, `a1` and `c0`: a full-range value lands in an unmet step, the
        carry override picks `in0` from 1 up and `in1` as its carry partner,
        the extremes are `min` or `max`, and the both-zero and both-max
        pairs satisfy their cover points' mappings; inputs it does not set
        keep their values. */
    predicate Steered(d: Directive, a0: int, a1: int, c0: int)
      reads model.in0, model.in1, model.cin, crIn0Full.counts, crIn1Full.counts
    {
      var a, b, c := model.in0.value, model.in1.value, model.cin.value;
      match d
      case In0Full => StepUnmet(crIn0Full, a) && b == a1 && c == c0
      case In1Full => a == a0 && StepUnmet(crIn1Full, b) && c == c0
      case CoutGen => 1 <= a && (exists k :: 1 <= k <= width && b == CarryPartner(width, a, k)) && c == c0
      case In0Extreme => (a == 0 || a == model.in0.Max()) && b == a1 && c == c0
      case In1Extreme => a == a0 && (b == 0 || b == model.in1.Max()) && c == c0
      case CinAsserted => a == a0 && b == a1 && c == 1
      case BothZero => ZeroHit(a, b) && c == c0
      case BothMax => MaxHit(a, b, model.in0.Max(), model.in1.Max()) && c == c0
      case NoDirective => a == a0 && b == a1 && c == c0
    }

    /** The bodies of the `if`/`elif` chain: the chosen override steers the
        inputs toward its unmet net and keeps them within their widths. */
    method Apply(d: Directive)
      requires Valid() && model.InputsInRange() && (d != NoDirective ==> Unmet(d))
      modifies model.in0, model.in1, model.cin
      ensures Valid() && model.InputsInRange()
      ensures Steered(d, old(model.in0.value), old(model.in1.value), old(model.cin.value))
    {
      var a, b, c := model.in0.value, model.in1.value, model.cin.value;
      var max := Pow2m1(width);
      match d {
      case In0Full =>
        a := PickUnmet(crIn0Full, width);
      case In1Full =>
        b := PickUnmet(crIn1Full, width);
      case CoutGen =>
        a :| 1 <= a <= max;
        var k :| 1 <= k <= width;
        b := CarryPartner(width, a, k);
      case In0Extreme =>
        a :| a in {0, max};
      case In1Extreme =>
        b :| b in {0, max};
      case CinAsserted =>
        c := 1;
      case BothZero =>
        a, b := 0, 0;
      case BothMax =>
        a, b := max, max;
      case NoDirective =>
      }
      model.SetInputs(a, b, c);
    }

    /** The objects of the nets that covering changes. */
    function NetObjects(): set<object> {
      Nets() + {cgIn0Ext, cgIn1Ext, crIn0Full, crIn1Full, crCross}
    }

    /** Every counter of the nets. */
    function Snapshot(): Tallies
      reads NetObjects()
    {
      Tallies(cpCin.count, cpCout.count, cpZero.count, cpMax.count,
              cgIn0Ext.Counters(), cgIn1Ext.Counters(), crIn0Full.Counters(), crIn1Full.Counters(),
              crCross.Counters())
    }

    /** The counters after covering a transaction of inputs `a`, `b` and
        carry in `c`: each full range and extreme group counts its own input
        in its step or bin, the cross range counts the pair's cross index,
        the both-zero and both-max points count a pair that hits them and
        the carry-in point counts a carry in of 1; the carry-out point is
        left as it was. */
    function Covered(t: Tallies, a: nat, b: nat, c: int): Tallies
      requires NetsValid()
    {
      PairCovered(InputsCovered(t, a, b), a, b, c)
    }

    /** The full ranges and the extreme groups after covering `a` and `b`. */
    function InputsCovered(t: Tallies, a: nat, b: nat): Tallies
      requires NetsValid()
    {
      ExtremesCovered(RangesCovered(t, a, b), a, b)
    }

    /** The full ranges count an input in the range in its step. */
    function RangesCovered(t: Tallies, a: nat, b: nat): Tallies
      requires NetsValid()
    {
      t.(in0Full := if crIn0Full.Legal(a) then Bumped(t.in0Full, crIn0Full.Bin(a)) else t.in0Full,
         in1Full := if crIn1Full.Legal(b) then Bumped(t.in1Full, crIn1Full.Bin(b)) else t.in1Full)
    }

    /** The extreme groups count an extreme input in its bin. */
    function ExtremesCovered(t: Tallies, a: nat, b: nat): Tallies
      requires NetsValid()
    {
      t.(in0Ext := if a in cgIn0Ext.lookup then Bumped(t.in0Ext, cgIn0Ext.Bin(a)) else t.in0Ext,
         in1Ext := if b in cgIn1Ext.lookup then Bumped(t.in1Ext, cgIn1Ext.Bin(b)) else t.in1Ext)
    }

    /** The cross range and the three points of the pair and the carry in. */
    function PairCovered(t: Tallies, a: nat, b: nat, c: int): Tallies
      requires NetsValid()
    {
      t.(cross := CrossCovered(t.cross, a, b),
         zero := t.zero + (if ZeroHit(a, b) then 1 else 0),
         max := t.max + (if MaxHit(a, b, Pow2m1(width), Pow2m1(width)) then 1 else 0),
         cin := t.cin + (if c == 1 then 1 else 0))
    }

    /** The cross range's counters after covering the pair `(a, b)` through
        the cross mapping. */
    function CrossCovered(t: Tally, a: nat, b: nat): Tally
      requires NetsValid()
    {
      var x := CrossIndex(crIn0Full.numSteps, crIn0Full.stepSize, crIn1Full.stepSize, a, b);
      if crCross.Legal(x) then Bumped(t, crCross.Bin(x)) else t
    }

    /** `cg_in0_cross_in1.cover(input_pair)`: a pair within the width always
        lands in the cross range. */
    method CoverPair(a: nat, b: nat)
      requires NetsValid()
      modifies crCross, crCross.counts
      ensures crCross.Counters() == CrossCovered(old(crCross.Counters()), a, b)
      ensures a < Pow2(width) && b < Pow2(width) ==> crCross.total == old(crCross.total) + 1
    {
      if a < Pow2(width) && b < Pow2(width) {
        CrossIndexInRange(crIn0Full, crIn1Full, a, b);
      }
      var progress := crCross.Cover(CrossIndex(crIn0Full.numSteps, crIn0Full.stepSize, crIn1Full.stepSize, a, b));
    }

    /** The cover calls of one pass, on the transaction's values (the cross
        range through the cross mapping, the both-zero and both-max points
        and the carry-in point through their mappings). Inputs within the
        width land in every range, the cross range included. */
    method CoverAll(a: nat, b: nat, c: int)
      requires NetsValid()
      modifies NetObjects()
      ensures Snapshot() == Covered(old(Snapshot()), a, b, c)
      ensures a < Pow2(width) && b < Pow2(width) ==>
        crIn0Full.total == old(crIn0Full.total) + 1 && crIn1Full.total == old(crIn1Full.total) + 1 &&
        crCross.total == old(crCross.total) + 1
    {
      CoverInputs(a, b);
      CoverPairs(a, b, c);
    }

    /** The first four cover calls: each input in its full range and its
        extreme group. */
    method CoverInputs(a: nat, b: nat)
      requires NetsValid()
      modifies crIn0Full, crIn0Full.counts, crIn1Full, crIn1Full.counts, cgIn0Ext, cgIn0Ext.counts, cgIn1Ext, cgIn1Ext.counts
      ensures Snapshot() == InputsCovered(old(Snapshot()), a, b)
      ensures a < Pow2(width) && b < Pow2(width) ==>
        crIn0Full.total == old(crIn0Full.total) + 1 && crIn1Full.total == old(crIn1Full.total) + 1
    {
      CoverRanges(a, b);
      CoverExtremes(a, b);
    }

    /** `cg_in0_full.cover(txn.in0)` and `cg_in1_full.cover(txn.in1)`. */
    method CoverRanges(a: nat, b: nat)
      requires NetsValid()
      modifies crIn0Full, crIn0Full.counts, crIn1Full, crIn1Full.counts
      ensures Snapshot() == RangesCovered(old(Snapshot()), a, b)
      ensures a < Pow2(width) && b < Pow2(width) ==>
        crIn0Full.total == old(crIn0Full.total) + 1 && crIn1Full.total == old(crIn1Full.total) + 1
    {
      ghost var t := Snapshot();
      var progress := crIn0Full.Cover(a);
      progress := crIn1Full.Cover(b);
      assert crIn0Full.Counters() == RangesCovered(t, a, b).in0Full;
      assert crIn1Full.Counters() == RangesCovered(t, a, b).in1Full;
    }

    /** `cg_in0_extremes.cover(..)` and `cg_in1_extremes.cover(..)`. */
    method CoverExtremes(a: nat, b: nat)
      requires NetsValid()
      modifies cgIn0Ext, cgIn0Ext.counts, cgIn1Ext, cgIn1Ext.counts
      ensures Snapshot() == ExtremesCovered(old(Snapshot()), a, b)
      ensures crIn0Full.total == old(crIn0Full.total) && crIn1Full.total == old(crIn1Full.total)
    {
      ghost var t := Snapshot();
      var progress := cgIn0Ext.Cover(a);
      progress := cgIn1Ext.Cover(b);
      assert cgIn0Ext.Counters() == ExtremesCovered(t, a, b).in0Ext;
      assert cgIn1Ext.Counters() == ExtremesCovered(t, a, b).in1Ext;
    }

    /** The last four cover calls: the pair through the cross mapping, the
        both-zero and both-max mappings, and the carry in. */
    method CoverPairs(a: nat, b: nat, c: int)
      requires NetsValid()
      modifies crCross, crCross.counts, cpZero, cpMax, cpCin
      ensures Snapshot() == PairCovered(old(Snapshot()), a, b, c)
      ensures a < Pow2(width) && b < Pow2(width) ==> crCross.total == old(crCross.total) + 1
      ensures crIn0Full.total == old(crIn0Full.total) && crIn1Full.total == old(crIn1Full.total)
    {
      ghost var t := Snapshot();
      CoverPair(a, b);
      var cond := cpZero.Cover(if ZeroHit(a, b) then 1 else 0);
      cond := cpMax.Cover(if MaxHit(a, b, Pow2m1(width), Pow2m1(width)) then 1 else 0);
      cond := cpCin.Cover(if c == 1 then 1 else 0);
      assert crCross.Counters() == PairCovered(t, a, b, c).cross;
      assert cpZero.count == PairCovered(t, a, b, c).zero;
      assert cpMax.count == PairCovered(t, a, b, c).max;
      assert cpCin.count == PairCovered(t, a, b, c).cin;
    }

    /** One pass of the main loop: a transaction is stimulated, then
        sampled; the expected outputs are the inputs' total, and the nets
        have counted the new transaction as `Sample` states. */
    method Step()
      requires Valid()
      modifies Mutable()
      ensures Valid() && model.InputsInRange()
      ensures model.sum.value + Pow2(width) * model.cout.value == model.in0.value + model.in1.value + model.cin.value
      ensures Snapshot() == Sampled(old(Snapshot()), model.in0.value, model.in1.value, model.cin.value, model.cout.value)
      ensures crIn0Full.total == old(crIn0Full.total) + 1 && crIn1Full.total == old(crIn1Full.total) + 1
      ensures crCross.total == old(crCross.total) + 1
    {
      Stimulate();
      Sample();
    }

    /** `txn = randomize(model)` and the `if`/`elif` chain: random inputs
        within their widths, then at most one override. */
    method Stimulate()
      requires Valid()
      modifies model.in0, model.in1, model.cin
      ensures Valid() && model.InputsInRange()
    {
      model.RandomInputs();
      var d := Choose();
      Apply(d);
    }

    /** Every net covered with the transaction, then the model evaluated;
        the outputs are the inputs' total as `Adder.Evaluate` states. The
        counters are those `CoverAll` leaves, with a carry out of 1 counted
        as well; every transaction lands in both full ranges and in the
        cross range. */
    method Sample()
      requires Valid() && model.InputsInRange()
      modifies NetObjects(), model.sum, model.cout
      ensures Valid() && model.InputsInRange()
      ensures model.in0.value == old(model.in0.value) && model.in1.value == old(model.in1.value)
      ensures model.cin.value == old(model.cin.value)
      ensures model.sum.value + Pow2(width) * model.cout.value == model.in0.value + model.in1.value + model.cin.value
      ensures Snapshot() == Sampled(old(Snapshot()), model.in0.value, model.in1.value, model.cin.value, model.cout.value)
      ensures crIn0Full.total == old(crIn0Full.total) + 1 && crIn1Full.total == old(crIn1Full.total) + 1
      ensures crCross.total == old(crCross.total) + 1
    {
      assert {model.in0, model.in1, model.cin, model.sum, model.cout} !! NetObjects();
      CoverAll(model.in0.value, model.in1.value, model.cin.value);
      model.Evaluate(cpCout);
    }

    /** The counters after a sampled transaction with carry out `co`. */
    function Sampled(t: Tallies, a: nat, b: nat, c: int, co: int): Tallies
      requires NetsValid()
    {
      var u := Covered(t, a, b, c);
      u.(cout := u.cout + if co == 1 then 1 else 0)
    }

    /** `while Coverage.all_passed(MAX_SIMS) == False`: from a fresh counter
        the body runs at most `MAX_SIMS` times, since every false answer
        advances the counter and a counter at `MAX_SIMS` answers true. */
    method Run() returns (sims: nat)
      requires Valid() && reg.counter == 0
      modifies reg, Mutable()
      ensures sims <= MAX_SIMS
    {
      sims := 0;
      assert reg !in Mutable();
      while true
        invariant Valid() && sims == reg.counter <= MAX_SIMS
        decreases MAX_SIMS - reg.counter
      {
        var done := reg.AllPassed(MAX_SIMS);
        if done {
          return;
        }
        Step();
        sims := sims + 1;
      }
    }
  }
}
