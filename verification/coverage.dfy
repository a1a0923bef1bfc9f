/** The coverage nets of sw-drivers/python/src/veriti/coverage.py: cover
    points, cover groups, cover ranges and cover crosses, each holding goal
    counters that `cover` raises in place, and the registry every net joins
    on construction together with the counter `all_passed` raises on each
    failing poll. Items reach the nets already mapped: a net built with a
    mapping only remembers that it has one, which makes `next` raise. */
module CoverNets {
  import opened Wrappers
  import opened Text

  // ---------------------------------------------------------------------------
  // Arithmetic of bins

  /** `ceil(a / b)` on integers. */
  function CeilDiv(a: nat, b: nat): (q: nat)
    requires b >= 1
    ensures b * q >= a
    ensures q > 0 ==> b * (q - 1) < a
  {
    CeilDivBounds(a, b);
    (a + b - 1) / b
  }

  lemma CeilDivBounds(a: nat, b: nat)
    requires b >= 1
    ensures b * ((a + b - 1) / b) >= a
    ensures (a + b - 1) / b > 0 ==> b * ((a + b - 1) / b - 1) < a
  {
    var q, r := (a + b - 1) / b, (a + b - 1) % b;
    assert a + b - 1 == b * q + r;
    assert b * (q - 1) == b * q - b;
  }

  /** A value below `size * count` falls in one of `count` bins of `size`. */
  lemma BinBelow(v: nat, size: nat, count: nat)
    requires size >= 1 && v < size * count
    ensures v / size < count
  {
  }

  /** The bin of `j * size + x` with `x < size` is `j`. */
  lemma BinOfOffset(j: nat, size: nat, x: nat)
    requires x < size
    ensures (j * size + x) / size == j
  {
    var v := j * size + x;
    var q, r := v / size, v % size;
    assert (q - j) * size == x - r;
    SmallMultiple(q - j, size);
  }

  lemma SmallMultiple(a: int, size: nat)
    requires -(size as int) < a * size < size
    ensures a == 0
  {
  }

  /** The product of the step counts. */
  function Prod(s: seq<nat>): nat {
    if s == [] then 1 else s[0] * Prod(s[1..])
  }

  lemma {:induction false} ProdSnoc(s: seq<nat>, x: nat)
    ensures Prod(s + [x]) == Prod(s) * x
  {
    if s != [] {
      assert (s + [x])[1..] == s[1..] + [x];
      ProdSnoc(s[1..], x);
    }
  }

  /** The mixed-radix number whose `k`-th digit is `d[k]` in radix `r[k]`,
      the first digit least significant. */
  function MixedRadix(d: seq<nat>, r: seq<nat>): nat
    requires |d| == |r|
  {
    if d == [] then 0 else d[0] + r[0] * MixedRadix(d[1..], r[1..])
  }

  /** Digits within their radices make a number below the product of the
      radices. */
  lemma {:induction false} MixedRadixBound(d: seq<nat>, r: seq<nat>)
    requires |d| == |r| && forall k :: 0 <= k < |d| ==> d[k] < r[k]
    ensures MixedRadix(d, r) < Prod(r)
  {
    if d != [] {
      assert forall k :: 0 <= k < |d| - 1 ==> d[1..][k] < r[1..][k] by {
        assert forall k :: 0 <= k < |d| - 1 ==> d[1..][k] == d[k + 1] && r[1..][k] == r[k + 1];
      }
      MixedRadixBound(d[1..], r[1..]);
      RadixStep(d[0], r[0], MixedRadix(d[1..], r[1..]), Prod(r[1..]));
    }
  }

  lemma ProductNat(a: nat, b: nat)
    ensures a * b >= 0
  {
  }

  /** One more digit below its radix stays below the grown product. */
  lemma RadixStep(x: nat, b: nat, m: nat, p: nat)
    requires x < b && m < p
    ensures x + b * m < b * p
  {
    assert b * m <= b * (p - 1);
  }

  /** Adding the digit of position `k` times the product of the radices
      below it extends the number read from position `k + 1` on. */
  lemma MixedRadixStep(d: seq<nat>, r: seq<nat>, k: nat)
    requires |d| == |r| && k < |d|
    ensures Prod(r[..k + 1]) * MixedRadix(d[k + 1..], r[k + 1..]) + d[k] * Prod(r[..k]) ==
            Prod(r[..k]) * MixedRadix(d[k..], r[k..])
  {
    assert r[..k + 1] == r[..k] + [r[k]];
    ProdSnoc(r[..k], r[k]);
    assert d[k..][1..] == d[k + 1..] && r[k..][1..] == r[k + 1..];
    var p, m := Prod(r[..k]), MixedRadix(d[k + 1..], r[k + 1..]);
    assert MixedRadix(d[k..], r[k..]) == d[k] + r[k] * m;
    calc {
      p * r[k] * m + d[k] * p;
      p * (r[k] * m) + p * d[k];
      p * (d[k] + r[k] * m);
    }
  }

  lemma FlattenExamples()
    ensures MixedRadix([0, 0], [4, 4]) == 0 && MixedRadix([3, 0], [4, 4]) == 3
    ensures MixedRadix([0, 1], [4, 4]) == 4 && MixedRadix([1, 1], [4, 4]) == 5
    ensures MixedRadix([3, 3], [4, 4]) == 15
    ensures MixedRadix([1, 0, 0], [2, 3, 4]) == 1 && MixedRadix([0, 2, 0], [2, 3, 4]) == 4
    ensures MixedRadix([0, 0, 1], [2, 3, 4]) == 6 && MixedRadix([1, 1, 1], [2, 3, 4]) == 9
    ensures MixedRadix([1, 2, 3], [2, 3, 4]) == 23
  {
  }

  /** The index of the first counter below `goal`, or `|c|` when none is. */
  function FirstBelow(c: seq<nat>, goal: int): (j: nat)
    ensures j <= |c|
    ensures j < |c| ==> c[j] < goal
    ensures forall m :: 0 <= m < j ==> c[m] >= goal
  {
    if c == [] then 0
    else if c[0] < goal then 0
    else
      var j := FirstBelow(c[1..], goal);
      assert forall m :: 1 <= m < j + 1 ==> c[m] == c[1..][m - 1];
      j + 1
  }

  /** `set(bins)` listed in first-occurrence order. */
  function Distinct(bins: seq<int>): (d: seq<int>)
    ensures forall x :: x in d <==> x in bins
    ensures forall i, j :: 0 <= i < j < |d| ==> d[i] != d[j]
  {
    if bins == [] then []
    else
      var init := Distinct(bins[..|bins| - 1]);
      var last := bins[|bins| - 1];
      assert bins == bins[..|bins| - 1] + [last];
      if last in init then init else init + [last]
  }

  /** The bins-per-macro-bin divisor of a cover group. */
  function ItemsPerBin(count: nat, maxBins: nat): (ipb: nat)
    requires maxBins >= 1 || count == 0
    ensures ipb >= 1
    ensures count > maxBins ==> ipb * maxBins <= count < (ipb + 1) * maxBins
  {
    if count > maxBins then
      var q := count / maxBins;
      assert count == maxBins * q + count % maxBins;
      q
    else 1
  }

  // ---------------------------------------------------------------------------
  // Cover groups

  /** `d` cut into macro bins of `ipb` values in order, with `lookup` giving
      each value its position in `d`. */
  ghost predicate Partitioned(d: seq<int>, ipb: nat, macro: seq<seq<int>>, lookup: map<int, nat>)
    requires ipb >= 1
  {
    (forall x :: x in lookup <==> x in d) &&
    (forall i :: 0 <= i < |d| ==> d[i] in lookup && lookup[d[i]] == i) &&
    (forall i :: 0 <= i < |d| ==> i / ipb < |macro| && d[i] in macro[i / ipb]) &&
    (forall m :: 0 <= m < |macro| ==> 1 <= |macro[m]| <= ipb) &&
    (forall m :: 0 <= m < |macro| - 1 ==> |macro[m]| == ipb) &&
    (forall m, t :: 0 <= m < |macro| && 0 <= t < |macro[m]| ==>
      macro[m][t] in lookup && lookup[macro[m][t]] / ipb == m)
  }

  /** `ceil(n / b)` is the `q` with `b * (q - 1) < n <= b * q`. */
  lemma CeilExact(n: nat, b: nat, q: nat)
    requires b >= 1 && b * q >= n && (q > 0 ==> b * (q - 1) < n)
    ensures CeilDiv(n, b) == q
  {
    var c := CeilDiv(n, b);
    if c < q {
      MulMono(b, c, q - 1);
    } else if c > q {
      MulMono(b, q, c - 1);
    }
  }

  lemma MulMono(b: nat, x: nat, y: nat)
    requires x <= y
    ensures b * x <= b * y
  {
  }

  /** Where value `i` lands when `c` macro bins exist and the last holds
      `last` values. */
  lemma BinAdvance(i: nat, ipb: nat, c: nat, last: nat)
    requires ipb >= 1
    requires (i == 0 && c == 0) || (c >= 1 && 1 <= last <= ipb && i == ipb * (c - 1) + last)
    ensures i / ipb == if i == 0 || last == ipb then c else c - 1
  {
    if i == 0 {
    } else if last == ipb {
      assert i == c * ipb + 0;
      BinOfOffset(c, ipb, 0);
    } else {
      assert i == (c - 1) * ipb + last;
      BinOfOffset(c - 1, ipb, last);
    }
  }

  /** The state of the bin loop after the first `i` distinct values. */
  ghost predicate Placed(d: seq<int>, i: nat, ipb: nat, macro: seq<seq<int>>, lookup: map<int, nat>)
    requires ipb >= 1 && i <= |d|
  {
    Filled(i, ipb, macro) && Indexed(d, i, lookup) && Binned(d, i, ipb, macro) && BinsIndexed(ipb, macro, lookup)
  }

  /** The macro bins hold `i` values, all full but the last. */
  ghost predicate Filled(i: nat, ipb: nat, macro: seq<seq<int>>) {
    (i == 0) == (macro == []) &&
    (i > 0 ==> i == ipb * (|macro| - 1) + |macro[|macro| - 1]|) &&
    (forall m :: 0 <= m < |macro| ==> 1 <= |macro[m]| <= ipb) &&
    (forall m :: 0 <= m < |macro| - 1 ==> |macro[m]| == ipb)
  }

  /** The lookup maps the first `i` values to their positions. */
  ghost predicate Indexed(d: seq<int>, i: nat, lookup: map<int, nat>)
    requires i <= |d|
  {
    (forall x :: x in lookup <==> x in d[..i]) &&
    (forall j :: 0 <= j < i ==> d[j] in lookup && lookup[d[j]] == j)
  }

  /** Value `j` sits in macro bin `j / ipb`. */
  ghost predicate Binned(d: seq<int>, i: nat, ipb: nat, macro: seq<seq<int>>)
    requires ipb >= 1 && i <= |d|
  {
    forall j :: 0 <= j < i ==> j / ipb < |macro| && d[j] in macro[j / ipb]
  }

  /** Each value of macro bin `m` is looked up to a position in bin `m`. */
  ghost predicate BinsIndexed(ipb: nat, macro: seq<seq<int>>, lookup: map<int, nat>)
    requires ipb >= 1
  {
    forall m, t :: 0 <= m < |macro| && 0 <= t < |macro[m]| ==>
      macro[m][t] in lookup && lookup[macro[m][t]] / ipb == m
  }

  /** Value `i` goes to macro bin `i / ipb`, which is the last macro bin or
      the one after it. */
  function Place(macro: seq<seq<int>>, k: nat, x: int): seq<seq<int>> {
    var grown := if |macro| <= k then macro + [[]] else macro;
    if k < |grown| then grown[k := grown[k] + [x]] else grown
  }

  /** The macro bins the bin loop builds from the values `s`. */
  function Chunks(s: seq<int>, ipb: nat): seq<seq<int>>
    requires ipb >= 1
  {
    if s == [] then [] else Place(Chunks(s[..|s| - 1], ipb), (|s| - 1) / ipb, s[|s| - 1])
  }

  /** The lookup the bin loop builds: each value to its position. */
  function Positions(s: seq<int>): map<int, nat> {
    if s == [] then map[] else Positions(s[..|s| - 1])[s[|s| - 1] := |s| - 1]
  }

  lemma PlaceKeeps(macro: seq<seq<int>>, k: nat, x: int)
    requires k <= |macro|
    ensures |Place(macro, k, x)| == if k < |macro| then |macro| else k + 1
    ensures forall m :: 0 <= m < |macro| && m != k ==> Place(macro, k, x)[m] == macro[m]
    ensures Place(macro, k, x)[k] == (if k < |macro| then macro[k] else []) + [x]
  {
  }

  lemma FilledStep(i: nat, ipb: nat, macro: seq<seq<int>>, x: int)
    requires ipb >= 1 && Filled(i, ipb, macro)
    ensures i / ipb <= |macro|
    ensures Filled(i + 1, ipb, Place(macro, i / ipb, x))
  {
    var last := if macro == [] then 0 else |macro[|macro| - 1]|;
    BinAdvance(i, ipb, |macro|, last);
    var m2 := Place(macro, i / ipb, x);
    PlaceKeeps(macro, i / ipb, x);
    if i == 0 || last == ipb {
      assert i == ipb * |macro| by {
        if i > 0 {
          assert ipb * (|macro| - 1) + ipb == ipb * |macro|;
        }
      }
      assert |m2| == |macro| + 1 && m2[|macro|] == [x];
    } else {
      assert |m2| == |macro| && |m2[|macro| - 1]| == last + 1;
    }
  }

  lemma IndexedStep(d: seq<int>, i: nat, lookup: map<int, nat>)
    requires i < |d| && Indexed(d, i, lookup) && d[i] !in lookup
    ensures Indexed(d, i + 1, lookup[d[i] := i])
  {
    assert d[..i + 1] == d[..i] + [d[i]];
  }

  lemma BinnedStep(d: seq<int>, i: nat, ipb: nat, macro: seq<seq<int>>)
    requires ipb >= 1 && i < |d| && i / ipb <= |macro| && Binned(d, i, ipb, macro)
    ensures Binned(d, i + 1, ipb, Place(macro, i / ipb, d[i]))
  {
    var m2 := Place(macro, i / ipb, d[i]);
    PlaceKeeps(macro, i / ipb, d[i]);
    forall j | 0 <= j < i + 1
      ensures j / ipb < |m2| && d[j] in m2[j / ipb]
    {
      if j < i {
        assert d[j] in macro[j / ipb];
      }
    }
  }

  lemma BinsIndexedStep(d: seq<int>, i: nat, ipb: nat, macro: seq<seq<int>>, lookup: map<int, nat>)
    requires ipb >= 1 && i < |d| && i / ipb <= |macro| && d[i] !in lookup
    requires BinsIndexed(ipb, macro, lookup)
    ensures BinsIndexed(ipb, Place(macro, i / ipb, d[i]), lookup[d[i] := i])
  {
    var k := i / ipb;
    var m2, l2 := Place(macro, k, d[i]), lookup[d[i] := i];
    PlaceKeeps(macro, k, d[i]);
    forall m, t | 0 <= m < |m2| && 0 <= t < |m2[m]|
      ensures m2[m][t] in l2 && l2[m2[m][t]] / ipb == m
    {
      if m != k || (k < |macro| && t < |macro[k]|) {
        assert m2[m][t] == macro[m][t];
      }
    }
  }

  lemma PlacedStep(d: seq<int>, i: nat, ipb: nat, macro: seq<seq<int>>, lookup: map<int, nat>)
    requires ipb >= 1 && i < |d|
    requires forall a, b :: 0 <= a < b < |d| ==> d[a] != d[b]
    requires Placed(d, i, ipb, macro, lookup)
    ensures i / ipb <= |macro|
    ensures Placed(d, i + 1, ipb, Place(macro, i / ipb, d[i]), lookup[d[i] := i])
  {
    assert d[i] !in lookup by {
      assert forall j :: 0 <= j < i ==> d[..i][j] == d[j] != d[i];
    }
    FilledStep(i, ipb, macro, d[i]);
    IndexedStep(d, i, lookup);
    BinnedStep(d, i, ipb, macro);
    BinsIndexedStep(d, i, ipb, macro, lookup);
  }

  /** Once every value is placed, the macro bins partition the values in
      order, `ipb` to a bin, and the lookup agrees with them. */
  lemma PlacedAll(d: seq<int>, ipb: nat, macro: seq<seq<int>>, lookup: map<int, nat>)
    requires ipb >= 1 && Placed(d, |d|, ipb, macro, lookup)
    ensures Partitioned(d, ipb, macro, lookup)
    ensures |macro| == CeilDiv(|d|, ipb)
  {
    assert d[..|d|] == d;
    FilledCount(|d|, ipb, macro);
  }

  /** Bins filled in order, `ipb` to a bin, number `ceil(i / ipb)`. */
  lemma FilledCount(i: nat, ipb: nat, macro: seq<seq<int>>)
    requires ipb >= 1 && Filled(i, ipb, macro)
    ensures |macro| == CeilDiv(i, ipb)
  {
    if i > 0 {
      var last := |macro[|macro| - 1]|;
      assert ipb * (|macro| - 1) + ipb == ipb * |macro|;
      CeilExact(i, ipb, |macro|);
    }
  }

  /** The bin loop of `CoverGroup.__init__`: value `i` of the distinct bins
      goes to macro bin `i / ipb`, a new macro bin opening when it is first
      reached (see `PartitionShape` for what the result holds). */
  method Partition(d: seq<int>, ipb: nat) returns (macro: seq<seq<int>>, lookup: map<int, nat>)
    requires ipb >= 1
    ensures macro == Chunks(d, ipb) && lookup == Positions(d)
  {
    macro, lookup := [], map[];
    for i := 0 to |d|
      invariant macro == Chunks(d[..i], ipb) && lookup == Positions(d[..i])
    {
      PrefixStep(d, i, ipb);
      ChunksFilled(d[..i], ipb);
      FilledStep(i, ipb, macro, d[i]);
      ghost var placed := Place(macro, i / ipb, d[i]);
      lookup := lookup[d[i] := i];
      var k := i / ipb;
      if |macro| <= k {
        macro := macro + [[]];
      }
      macro := macro[k := macro[k] + [d[i]]];
      assert macro == placed;
    }
    assert d[..|d|] == d;
  }

  /** One more value extends the bins and the lookup by one placement. */
  lemma PrefixStep(d: seq<int>, i: nat, ipb: nat)
    requires ipb >= 1 && i < |d|
    ensures Chunks(d[..i + 1], ipb) == Place(Chunks(d[..i], ipb), i / ipb, d[i])
    ensures Positions(d[..i + 1]) == Positions(d[..i])[d[i] := i]
  {
    assert d[..i + 1][..i] == d[..i];
  }

  /** The macro bins of `s` hold its values, all full but the last. */
  lemma {:induction false} ChunksFilled(s: seq<int>, ipb: nat)
    requires ipb >= 1
    ensures Filled(|s|, ipb, Chunks(s, ipb))
  {
    if s != [] {
      var init := s[..|s| - 1];
      ChunksFilled(init, ipb);
      FilledStep(|init|, ipb, Chunks(init, ipb), s[|s| - 1]);
    }
  }

  /** The loop state after each prefix of the distinct values. */
  lemma {:induction false} ChunksPlaced(d: seq<int>, i: nat, ipb: nat)
    requires ipb >= 1 && i <= |d|
    requires forall a, b :: 0 <= a < b < |d| ==> d[a] != d[b]
    ensures Placed(d, i, ipb, Chunks(d[..i], ipb), Positions(d[..i]))
  {
    if i > 0 {
      ChunksPlaced(d, i - 1, ipb);
      assert d[..i][..i - 1] == d[..i - 1];
      PlacedStep(d, i - 1, ipb, Chunks(d[..i - 1], ipb), Positions(d[..i - 1]));
    }
  }

  /** The macro bins partition the distinct values in order, `ipb` to a bin
      but the last, `ceil(|d| / ipb)` bins in all, and a value's looked-up
      position divided by `ipb` is the macro bin holding it. */
  lemma PartitionShape(d: seq<int>, ipb: nat)
    requires ipb >= 1
    requires forall a, b :: 0 <= a < b < |d| ==> d[a] != d[b]
    ensures Partitioned(d, ipb, Chunks(d, ipb), Positions(d))
    ensures |Chunks(d, ipb)| == CeilDiv(|d|, ipb)
  {
    ChunksPlaced(d, |d|, ipb);
    assert d[..|d|] == d;
    PlacedAll(d, ipb, Chunks(d, ipb), Positions(d));
  }

  // ---------------------------------------------------------------------------
  // Nets and the registry

  datatype Status = PASSED | SKIPPED | FAILED

  /** A registered net of any of the four kinds. */
  datatype Net = Point(p: CoverPoint) | Group(g: CoverGroup) | Range(r: CoverRange) | Cross(c: CoverCross)

  /** `Coverage._group` and `Coverage._counter`, held by an explicit object
      rather than by the class. */
  class Registry {
    var nets: seq<Net>
    var counter: nat

    constructor()
      ensures nets == [] && counter == 0
    {
      nets, counter := [], 0;
    }

    /** `Coverage._group += [self]` */
    method Register(n: Net)
      modifies this
      ensures nets == old(nets) + [n] && counter == old(counter)
    {
      nets := nets + [n];
    }

    /** `_group.pop()` */
    method Pop()
      requires nets != []
      modifies this
      ensures nets == old(nets)[..|old(nets)| - 1] && counter == old(counter)
    {
      nets := nets[..|nets| - 1];
    }

    /** `all_passed(timeout)`: true once a positive timeout has been reached
        by the counter; otherwise true exactly when every net is skipped or
        met its goal, and a false answer advances the counter. */
    method AllPassed(timeout: int) returns (r: bool)
      modifies this
      ensures nets == old(nets)
      ensures timeout > 0 && old(counter) >= timeout ==> r && counter == old(counter)
      ensures !(timeout > 0 && old(counter) >= timeout) ==>
        (r <==> AllMet(nets)) && counter == old(counter) + (if r then 0 else 1)
    {
      if timeout > 0 && counter >= timeout {
        return true;
      }
      for i := 0 to |nets|
        invariant nets == old(nets) && counter == old(counter)
        invariant forall k :: 0 <= k < i ==> Skipped(nets[k]) || NetMet(nets[k])
      {
        if !Skipped(nets[i]) {
          var met := NetPassed(nets[i]);
          if !met {
            counter := counter + 1;
            return false;
          }
        }
      }
      return true;
    }

    /** `percent()` before the division: the number of nets that passed out
        of those not skipped, or `None` when every net is skipped. */
    method Percent() returns (r: Option<(nat, nat)>)
      ensures r.None? <==> Counted(nets) == 0
      ensures r.Some? ==> r.value == (PassedCount(nets), Counted(nets))
    {
      var total, passed := 0, 0;
      for i := 0 to |nets|
        invariant total == Counted(nets[..i])
        invariant passed == PassedCount(nets[..i])
      {
        assert Footprint(nets[..i]) <= Footprint(nets);
        var s := NetStatus(nets[i]);
        assert nets[..i + 1][..i] == nets[..i] && nets[..i + 1][i] == nets[i];
        assert PassedCount(nets[..i + 1]) ==
          PassedCount(nets[..i]) + if !Skipped(nets[i]) && NetMet(nets[i]) then 1 else 0;
        if s != SKIPPED {
          total := total + 1;
          if s == PASSED {
            passed := passed + 1;
          }
        }
      }
      assert nets[..|nets|] == nets;
      if total == 0 {
        return None;
      }
      return Some((passed, total));
    }
  }

  /** A cover group's or cover range's counters and its total. */
  datatype Tally = Tally(counts: seq<nat>, total: nat)

  /** Counter `j` and the total raised by one. */
  function Bumped(t: Tally, j: nat): Tally {
    if j < |t.counts| then Tally(t.counts[j := t.counts[j] + 1], t.total + 1) else t
  }

  /** A single event counted toward a goal. */
  class CoverPoint {
    const name: string
    const goal: int
    const bypass: bool
    var count: nat

    constructor(reg: Registry, name: string, goal: int, bypass: bool)
      modifies reg
      ensures this.name == name && this.goal == goal && this.bypass == bypass && count == 0
      ensures reg.nets == old(reg.nets) + [Point(this)] && reg.counter == old(reg.counter)
    {
      this.name, this.goal, this.bypass := name, goal, bypass;
      count := 0;
      new;
      reg.Register(Point(this));
    }

    /** `passed` */
    predicate Met()
      reads this
    {
      count >= goal
    }

    /** `cover(item)` with the item already mapped to an int: the count rises
        exactly when it is 1 (Python's `cond == True`), and the item is
        returned. */
    method Cover(cond: int) returns (r: int)
      modifies this
      ensures r == cond
      ensures count == old(count) + if cond == 1 then 1 else 0
      ensures old(Met()) ==> Met()
    {
      if cond == 1 {
        count := count + 1;
      }
      r := cond;
    }
  }

  /** Distinct values gathered into macro bins of `ipb` values each. */
  class CoverGroup {
    const name: string
    const goal: int
    const bypass: bool
    const mapped: bool
    const ipb: nat
    const lookup: map<int, nat>
    const macroBins: seq<seq<int>>
    const counts: array<nat>
    var total: nat

    /** The macro bins partition the looked-up values and there is one
        counter per macro bin. */
    ghost predicate Valid() {
      ipb >= 1 && counts.Length == |macroBins| &&
      (forall x :: x in lookup ==> lookup[x] / ipb < |macroBins|) &&
      (forall m :: 0 <= m < |macroBins| ==> macroBins[m] != []) &&
      (forall m, t :: 0 <= m < |macroBins| && 0 <= t < |macroBins[m]| ==>
        macroBins[m][t] in lookup && lookup[macroBins[m][t]] / ipb == m)
    }

    /** `CoverGroup(name, bins, goal, bypass, max_bins)`: the distinct values
        of `bins`, cut into macro bins of `ItemsPerBin(|bins|, maxBins)`
        values, each counter at zero. */
    constructor(reg: Registry, name: string, bins: seq<int>, goal: int, bypass: bool, maxBins: nat, mapped: bool)
      requires maxBins >= 1 || |bins| == 0
      modifies reg
      ensures Valid() && fresh(counts)
      ensures this.name == name && this.goal == goal && this.bypass == bypass && this.mapped == mapped
      ensures ipb == ItemsPerBin(|bins|, maxBins)
      ensures Partitioned(Distinct(bins), ipb, macroBins, lookup)
      ensures |macroBins| == CeilDiv(|Distinct(bins)|, ipb)
      ensures forall j :: 0 <= j < counts.Length ==> counts[j] == 0
      ensures total == 0
      ensures reg.nets == old(reg.nets) + [Group(this)] && reg.counter == old(reg.counter)
    {
      var d := Distinct(bins);
      var k := ItemsPerBin(|bins|, maxBins);
      var m, l := Partition(d, k);
      PartitionShape(d, k);
      this.name, this.goal, this.bypass, this.mapped := name, goal, bypass, mapped;
      ipb, macroBins, lookup := k, m, l;
      counts := new nat[|m|](_ => 0);
      total := 0;
      new;
      reg.Register(Group(this));
    }

    /** The counters and the total. */
    function Counters(): Tally
      reads this, counts
    {
      Tally(counts[..], total)
    }

    /** Every macro bin reached the goal. */
    predicate Met()
      reads counts
    {
      forall j :: 0 <= j < counts.Length ==> counts[j] >= goal
    }

    /** The macro bin of a known value. */
    function Bin(item: int): (j: nat)
      requires Valid() && item in lookup
      ensures j < counts.Length
    {
      lookup[item] / ipb
    }

    /** Covering `item` now would bring its macro bin closer to the goal. */
    predicate Progress(item: int)
      requires Valid()
      reads counts
    {
      item in lookup && counts[Bin(item)] < goal
    }

    /** `passed` */
    method Passed() returns (r: bool)
      ensures r <==> Met()
    {
      for i := 0 to counts.Length
        invariant forall j :: 0 <= j < i ==> counts[j] >= goal
      {
        if counts[i] < goal {
          return false;
        }
      }
      return true;
    }

    /** `cover(item)` for an already mapped item: a known value raises its
        own macro bin's counter and the total by one and reports whether
        that bin was below the goal; any other value changes nothing. */
    method Cover(item: int) returns (progress: bool)
      requires Valid()
      modifies this, counts
      ensures progress == old(Progress(item))
      ensures item in lookup ==> counts[..] == old(counts[..])[Bin(item) := old(counts[Bin(item)]) + 1]
      ensures item in lookup ==> total == old(total) + 1
      ensures item !in lookup ==> counts[..] == old(counts[..]) && total == old(total)
      ensures Counters() == if item in lookup then Bumped(old(Counters()), Bin(item)) else old(Counters())
      ensures old(Met()) ==> Met()
    {
      progress := item in lookup && counts[lookup[item] / ipb] < goal;
      if item in lookup {
        var j := lookup[item] / ipb;
        counts[j] := counts[j] + 1;
        total := total + 1;
      }
    }

    /** `next(rand)`: an item of a macro bin below the goal, `None` once
        every bin met it, and an error for a group with a mapping. Without
        `rand` it is the first item of the first such bin. */
    method Next(rand: bool) returns (r: Result<Option<int>>)
      requires Valid()
      ensures r.Err? <==> mapped
      ensures r.Ok? ==> (r.value.None? <==> Met())
      ensures r.Ok? && r.value.Some? ==> Progress(r.value.value)
      ensures r.Ok? && r.value.Some? && !rand ==> r.value.value == macroBins[FirstBelow(counts[..], goal)][0]
    {
      if mapped {
        return Err("Cannot map back to original values");
      }
      var available: seq<nat> := [];
      for i := 0 to counts.Length
        invariant forall j :: j in available <==> 0 <= j < i && counts[j] < goal
        invariant available != [] ==> available[0] == FirstBelow(counts[..], goal)
      {
        if counts[i] < goal {
          available := available + [i];
        }
      }
      if available == [] {
        return Ok(None);
      }
      var j := available[0];
      if rand {
        j :| j in available;
      }
      var t := 0;
      if rand {
        t :| 0 <= t < |macroBins[j]|;
      }
      r := Ok(Some(macroBins[j][t]));
    }
  }

  /** `len(range(0, stop, step))` */
  function RangeLen(stop: int, step: nat): nat
    requires step >= 1
  {
    if stop <= 0 then 0 else CeilDiv(stop, step)
  }

  /** `CoverGroup(name, bins, goal, bypass, max_bins)` with its error path:
      `max_bins=0` with a non-empty bin list divides by zero (Python's
      `ZeroDivisionError`) before anything is registered; otherwise the
      group is built and registered last. */
  method NewCoverGroup(reg: Registry, name: string, bins: seq<int>, goal: int, bypass: bool, maxBins: nat, mapped: bool)
    returns (r: Result<CoverGroup>)
    modifies reg
    ensures r.Err? <==> maxBins == 0 && |bins| > 0
    ensures r.Err? ==> reg.nets == old(reg.nets) && reg.counter == old(reg.counter)
    ensures r.Ok? ==> fresh(r.value) && r.value.Valid() && r.value.ipb == ItemsPerBin(|bins|, maxBins)
    ensures r.Ok? ==> reg.nets == old(reg.nets) + [Group(r.value)] && reg.counter == old(reg.counter)
  {
    if maxBins == 0 && |bins| > 0 {
      return Err("division by zero");
    }
    var g := new CoverGroup(reg, name, bins, goal, bypass, maxBins, mapped);
    r := Ok(g);
  }

  /** `CoverRange(name, range(0, stop, step), goal, bypass, max_steps)` with
      its error path: `max_steps=0` on a non-empty range divides by zero
      (Python's `ZeroDivisionError`) before anything is registered;
      otherwise the range is built and registered last, `max_steps=0` on an
      empty range giving no steps at all. */
  method NewCoverRange(reg: Registry, name: string, stop: int, step: nat, goal: int, bypass: bool,
                       maxSteps: Option<nat>, mapped: bool)
    returns (r: Result<CoverRange>)
    requires step >= 1
    modifies reg
    ensures r.Err? <==> maxSteps == Some(0) && RangeLen(stop, step) > 0
    ensures r.Err? ==> reg.nets == old(reg.nets) && reg.counter == old(reg.counter)
    ensures r.Ok? ==> fresh(r.value) && r.value.Valid() && r.value.stop == stop
    ensures r.Ok? && maxSteps == Some(0) ==> r.value.numSteps == 0
    ensures r.Ok? ==> reg.nets == old(reg.nets) + [Range(r.value)] && reg.counter == old(reg.counter)
  {
    if maxSteps == Some(0) && RangeLen(stop, step) > 0 {
      return Err("division by zero");
    }
    var c := new CoverRange(reg, name, stop, step, goal, bypass, maxSteps, mapped);
    r := Ok(c);
  }

  /** `range(0, stop)` cut into steps of `stepSize`, one counter per step. */
  class CoverRange {
    const name: string
    const goal: int
    const bypass: bool
    const mapped: bool
    const start: int
    const stop: int
    const stepSize: nat
    const numSteps: nat
    const counts: array<nat>
    var total: nat

    /** The steps cover the range, one counter per step. */
    ghost predicate Valid() {
      start == 0 && stepSize >= 1 && counts.Length == numSteps && stop <= stepSize * numSteps
    }

    /** `CoverRange(name, range(0, stop, step), goal, bypass, max_steps)`:
        one step per element of the range, unless that exceeds `maxSteps`,
        when `maxSteps` steps of `ceil(stop / maxSteps)` values are used
        instead; each counter at zero. */
    constructor(reg: Registry, name: string, stop: int, step: nat, goal: int, bypass: bool,
                maxSteps: Option<nat>, mapped: bool)
      requires step >= 1 && (maxSteps == Some(0) ==> RangeLen(stop, step) == 0)
      modifies reg
      ensures Valid() && fresh(counts)
      ensures this.name == name && this.goal == goal && this.bypass == bypass && this.mapped == mapped
      ensures start == 0 && this.stop == stop
      ensures maxSteps.Some? && RangeLen(stop, step) > maxSteps.value ==>
        stepSize == CeilDiv(stop, maxSteps.value) && numSteps == maxSteps.value
      ensures !(maxSteps.Some? && RangeLen(stop, step) > maxSteps.value) ==>
        stepSize == step && numSteps == RangeLen(stop, step)
      ensures forall j :: 0 <= j < counts.Length ==> counts[j] == 0
      ensures total == 0
      ensures reg.nets == old(reg.nets) + [Range(this)] && reg.counter == old(reg.counter)
    {
      var len := RangeLen(stop, step);
      var size, n := step, len;
      if maxSteps.Some? && len > maxSteps.value {
        size, n := CeilDiv(stop, maxSteps.value), maxSteps.value;
      }
      this.name, this.goal, this.bypass, this.mapped := name, goal, bypass, mapped;
      start, this.stop, stepSize, numSteps := 0, stop, size, n;
      counts := new nat[n](_ => 0);
      total := 0;
      new;
      reg.Register(Range(this));
    }

    /** `_is_possible_value`: the item lies in the range. */
    predicate Legal(item: int) {
      start <= item < stop
    }

    /** The step of a value in the range. */
    function Bin(item: int): (j: nat)
      requires Valid() && Legal(item)
      ensures j < counts.Length
    {
      BinBelow(item, stepSize, numSteps);
      item / stepSize
    }

    /** Covering `item` now would bring its step closer to the goal. */
    predicate Progress(item: int)
      requires Valid()
      reads counts
    {
      Legal(item) && counts[Bin(item)] < goal
    }

    /** The counters and the total. */
    function Counters(): Tally
      reads this, counts
    {
      Tally(counts[..], total)
    }

    /** Every step reached the goal. */
    predicate Met()
      reads counts
    {
      forall j :: 0 <= j < counts.Length ==> counts[j] >= goal
    }

    /** `passed` */
    method Passed() returns (r: bool)
      ensures r <==> Met()
    {
      for i := 0 to counts.Length
        invariant forall j :: 0 <= j < i ==> counts[j] >= goal
      {
        if counts[i] < goal {
          return false;
        }
      }
      return true;
    }

    /** `cover(item)` for an already mapped item: a value in the range
        raises its own step's counter and the total by one and reports
        whether that step was below the goal; any other value changes
        nothing. */
    method Cover(item: int) returns (progress: bool)
      requires Valid()
      modifies this, counts
      ensures progress == old(Progress(item))
      ensures Legal(item) ==> counts[..] == old(counts[..])[Bin(item) := old(counts[Bin(item)]) + 1]
      ensures Legal(item) ==> total == old(total) + 1
      ensures !Legal(item) ==> counts[..] == old(counts[..]) && total == old(total)
      ensures Counters() == if Legal(item) then Bumped(old(Counters()), Bin(item)) else old(Counters())
      ensures old(Met()) ==> Met()
    {
      progress := Legal(item) && counts[Bin(item)] < goal;
      if Legal(item) {
        var index := item / stepSize;
        counts[index] := counts[index] + 1;
        total := total + 1;
      }
    }

    /** `next(rand)`: a value of a step below the goal, `None` once every
        step met it, and an error for a range with a mapping. Without `rand`
        it is the first value of the first such step. The value need not lie
        in the range: see `CompressedStepPastStop`. */
    method Next(rand: bool) returns (r: Result<Option<int>>)
      requires Valid()
      ensures r.Err? <==> mapped
      ensures r.Ok? ==> (r.value.None? <==> Met())
      ensures r.Ok? && r.value.Some? ==>
        r.value.value >= 0 && r.value.value / stepSize < counts.Length && counts[r.value.value / stepSize] < goal
      ensures r.Ok? && r.value.Some? && !rand ==> r.value.value == FirstBelow(counts[..], goal) * stepSize
    {
      if mapped {
        return Err("Cannot map back to original values");
      }
      var available: seq<nat> := [];
      for i := 0 to counts.Length
        invariant forall j :: j in available <==> 0 <= j < i && counts[j] < goal
        invariant available != [] ==> available[0] == FirstBelow(counts[..], goal)
      {
        if counts[i] < goal {
          available := available + [i];
        }
      }
      if available == [] {
        return Ok(None);
      }
      var j := available[0];
      var x := 0;
      if rand {
        j :| j in available;
        x :| 0 <= x < stepSize;
      }
      BinOfOffset(j, stepSize, x);
      r := Ok(Some(j * stepSize + x));
    }
  }

  /** Without compression the first value of every step lies in the range. */
  lemma StepStartsInRange(stop: int, step: nat, j: nat)
    requires step >= 1 && j < RangeLen(stop, step)
    ensures j * step < stop
  {
    MulMono(step, j, CeilDiv(stop, step) - 1);
  }

  /** With compression it need not: `range(0, 9)` in at most 4 steps has
      steps of 3, and the last step starts at 9. */
  lemma CompressedStepPastStop()
    ensures RangeLen(9, 1) > 4 && CeilDiv(9, 4) == 3 && (4 - 1) * CeilDiv(9, 4) == 9
  {
  }

  /** The step counts of the crossed ranges. */
  function Steps(nets: seq<CoverRange>): (r: seq<nat>)
    ensures |r| == |nets| && forall k :: 0 <= k < |nets| ==> r[k] == nets[k].numSteps
  {
    seq(|nets|, k requires 0 <= k < |nets| => nets[k].numSteps)
  }

  /** The step index of each component of a tuple in its range. */
  function Digits(nets: seq<CoverRange>, pair: seq<int>): (r: seq<nat>)
    requires |pair| == |nets| && forall k :: 0 <= k < |nets| ==> nets[k].stepSize >= 1
    ensures |r| == |pair|
    ensures forall k :: 0 <= k < |pair| && pair[k] >= 0 ==> r[k] == pair[k] / nets[k].stepSize
  {
    seq(|pair|, k requires 0 <= k < |pair| => if pair[k] >= 0 then pair[k] / nets[k].stepSize else 0)
  }

  /** A tuple inside every range flattens below the product of the step
      counts. */
  lemma FlatBound(nets: seq<CoverRange>, pair: seq<int>)
    requires |pair| == |nets|
    requires forall k :: 0 <= k < |nets| ==> nets[k].Valid() && nets[k].stepSize >= 1 && nets[k].Legal(pair[k])
    ensures MixedRadix(Digits(nets, pair), Steps(nets)) < Prod(Steps(nets))
  {
    var d, st := Digits(nets, pair), Steps(nets);
    forall k | 0 <= k < |nets|
      ensures d[k] < st[k]
    {
      BinBelow(pair[k], nets[k].stepSize, nets[k].numSteps);
    }
    MixedRadixBound(d, st);
  }

  /** The cross product of ranges, flattened into one inner range. */
  class CoverCross {
    const name: string
    const bypass: bool
    const nets: seq<CoverRange>
    const inner: CoverRange

    /** The inner range has one unit step per combination of steps. */
    ghost predicate Valid() {
      (forall k :: 0 <= k < |nets| ==> nets[k].Valid()) &&
      inner.Valid() && !inner.mapped && inner.stepSize == 1 &&
      inner.stop == Prod(Steps(nets)) && inner.numSteps == Prod(Steps(nets))
    }

    /** `CoverCross(name, nets, goal, bypass)`: an inner range over
        `range(product of the step counts)`, which replaces itself in the
        registry by the cross. */
    constructor(reg: Registry, name: string, nets: seq<CoverRange>, goal: int, bypass: bool)
      requires forall k :: 0 <= k < |nets| ==> nets[k].Valid()
      modifies reg
      ensures Valid() && fresh(inner) && fresh(inner.counts)
      ensures this.name == name && this.bypass == bypass && this.nets == nets
      ensures inner.goal == goal && inner.bypass == bypass
      ensures forall j :: 0 <= j < inner.counts.Length ==> inner.counts[j] == 0
      ensures reg.nets == old(reg.nets) + [Cross(this)] && reg.counter == old(reg.counter)
    {
      ghost var before := reg.nets;
      var combinations: nat := 1;
      for i := 0 to |nets|
        invariant combinations == Prod(Steps(nets)[..i])
        invariant reg.nets == before && reg.counter == old(reg.counter)
      {
        assert Steps(nets)[..i + 1] == Steps(nets)[..i] + [nets[i].numSteps];
        ProdSnoc(Steps(nets)[..i], nets[i].numSteps);
        combinations := combinations * nets[i].numSteps;
      }
      assert Steps(nets)[..|nets|] == Steps(nets);
      this.name, this.bypass, this.nets := name, bypass, nets;
      inner := new CoverRange(reg, name, combinations, 1, goal, bypass, None, false);
      reg.Pop();
      assert reg.nets == before;
      new;
      reg.Register(Cross(this));
    }

    /** Every component lies in its range. */
    predicate Legal(pair: seq<int>) {
      |pair| == |nets| && forall k :: 0 <= k < |nets| ==> nets[k].Legal(pair[k])
    }

    /** The product of the step counts of the ranges before the `k`-th,
        gathered from the `k-1`-th down as `_flatten` does. */
    method Weight(k: nat) returns (acc: nat)
      requires k <= |nets|
      ensures acc == Prod(Steps(nets)[..k])
    {
      ghost var st := Steps(nets);
      acc := 1;
      for j := 0 to k
        invariant acc == Prod(st[k - j..k])
      {
        assert st[k - 1 - j..k][1..] == st[k - j..k];
        acc := acc * nets[k - 1 - j].numSteps;
      }
      assert st[0..k] == st[..k];
    }

    /** `_flatten(pair)`: an error when the arity is wrong, `None` when a
        component lies outside its range, and otherwise the mixed-radix
        number of the components' step indices, the first component least
        significant, which is below the number of combinations. */
    method Flatten(pair: seq<int>) returns (r: Result<Option<nat>>)
      requires Valid()
      ensures r.Err? <==> |pair| != |nets|
      ensures r.Ok? ==> (r.value.Some? <==> Legal(pair))
      ensures r.Ok? && r.value.Some? ==>
        r.value.value == MixedRadix(Digits(nets, pair), Steps(nets)) && r.value.value < Prod(Steps(nets))
    {
      var n := |nets|;
      if |pair| != n {
        return Err("Expects " + IntToStr(n) + " values in pair");
      }
      ghost var d, st := Digits(nets, pair), Steps(nets);
      var index: nat := 0;
      for i := 0 to n
        invariant forall m :: n - i <= m < n ==> nets[m].Legal(pair[m])
        invariant index == Prod(st[..n - i]) * MixedRadix(d[n - i..], st[n - i..])
      {
        var k := n - 1 - i;
        if !nets[k].Legal(pair[k]) {
          return Ok(None);
        }
        var acc := Weight(k);
        var digit := pair[k] / nets[k].stepSize;
        assert digit == d[k];
        MixedRadixStep(d, st, k);
        ProductNat(acc, d[k]);
        index := index + acc * digit;
      }
      assert st[..0] == [] && d[0..] == d && st[0..] == st;
      FlatBound(nets, pair);
      r := Ok(Some(index));
    }

    /** `cover(pair)`: a tuple inside every range raises the inner counter of
        its flattened index; any other tuple changes nothing and reports no
        progress. */
    method Cover(pair: seq<int>) returns (r: Result<bool>)
      requires Valid()
      modifies inner, inner.counts
      ensures r.Err? <==> |pair| != |nets|
      ensures Legal(pair) ==> var i := MixedRadix(Digits(nets, pair), Steps(nets));
        i < inner.counts.Length &&
        inner.counts[..] == old(inner.counts[..])[i := old(inner.counts[i]) + 1] &&
        r == Ok(old(inner.counts[i]) < inner.goal)
      ensures Legal(pair) ==> inner.total == old(inner.total) + 1
      ensures !Legal(pair) ==> inner.counts[..] == old(inner.counts[..]) && inner.total == old(inner.total)
      ensures !Legal(pair) && r.Ok? ==> !r.value
      ensures old(Met()) ==> Met()
    {
      var index := Flatten(pair);
      if index.Err? {
        return Err(index.msg);
      }
      if index.value.None? {
        return Ok(false);
      }
      var progress := inner.Cover(index.value.value);
      r := Ok(progress);
    }

    /** The inner range met its goal. */
    predicate Met()
      reads inner.counts
    {
      inner.Met()
    }

    /** `passed` */
    method Passed() returns (r: bool)
      ensures r <==> Met()
    {
      r := inner.Passed();
    }
  }

  /** The objects whose state decides whether a coverage net passed. */
  function Repr(n: Net): set<object> {
    match n
    case Point(p) => {p}
    case Group(g) => {g.counts}
    case Range(r) => {r.counts}
    case Cross(c) => {c.inner.counts}
  }

  /** `skipped`: the net may be bypassed. */
  function Skipped(n: Net): bool {
    match n
    case Point(p) => p.bypass
    case Group(g) => g.bypass
    case Range(r) => r.bypass
    case Cross(c) => c.bypass
  }

  /** The net met its goal. */
  predicate NetMet(n: Net)
    reads Repr(n)
  {
    match n
    case Point(p) => p.Met()
    case Group(g) => g.Met()
    case Range(r) => r.Met()
    case Cross(c) => c.Met()
  }

  /** `passed`, dispatched on the kind of net. */
  method NetPassed(n: Net) returns (r: bool)
    ensures r <==> NetMet(n)
  {
    match n
    case Point(p) => r := p.count >= p.goal;
    case Group(g) => r := g.Passed();
    case Range(rg) => r := rg.Passed();
    case Cross(c) => r := c.Passed();
  }

  /** `status`: a bypassed net is skipped whether or not it met its goal; any
      other net passed exactly when it met its goal. */
  method NetStatus(n: Net) returns (s: Status)
    ensures s == SKIPPED <==> Skipped(n)
    ensures s == PASSED <==> !Skipped(n) && NetMet(n)
    ensures s == FAILED <==> !Skipped(n) && !NetMet(n)
  {
    if Skipped(n) {
      return SKIPPED;
    }
    var met := NetPassed(n);
    s := if met then PASSED else FAILED;
  }

  /** The objects whose state decides whether the nets passed. */
  ghost function Footprint(ns: seq<Net>): set<object> {
    set k, o | 0 <= k < |ns| && o in Repr(ns[k]) :: o
  }

  /** Every net is skipped or met its goal. */
  predicate AllMet(ns: seq<Net>)
    reads Footprint(ns)
  {
    forall k :: 0 <= k < |ns| ==> Skipped(ns[k]) || NetMet(ns[k])
  }

  /** The number of nets that are not skipped. */
  function Counted(ns: seq<Net>): (c: nat)
    ensures c <= |ns|
  {
    if ns == [] then 0 else Counted(ns[..|ns| - 1]) + if Skipped(ns[|ns| - 1]) then 0 else 1
  }

  /** The number of nets that are not skipped and met their goal. */
  function PassedCount(ns: seq<Net>): nat
    reads Footprint(ns)
  {
    if ns == [] then 0
    else
      assert Footprint(ns[..|ns| - 1]) <= Footprint(ns);
      PassedCount(ns[..|ns| - 1]) + if !Skipped(ns[|ns| - 1]) && NetMet(ns[|ns| - 1]) then 1 else 0
  }

  /** No more nets passed than were counted. */
  lemma {:induction false} PassedCountBound(ns: seq<Net>)
    ensures PassedCount(ns) <= Counted(ns)
  {
    if ns != [] {
      PassedCountBound(ns[..|ns| - 1]);
    }
  }

  /** The score is full exactly when every net is skipped or met its goal. */
  lemma {:induction false} FullScore(ns: seq<Net>)
    ensures PassedCount(ns) == Counted(ns) <==> AllMet(ns)
  {
    if ns != [] {
      var init, last := ns[..|ns| - 1], ns[|ns| - 1];
      FullScore(init);
      PassedCountBound(init);
      assert AllMet(ns) <==> AllMet(init) && (Skipped(last) || NetMet(last)) by {
        assert forall k :: 0 <= k < |init| ==> init[k] == ns[k];
      }
    }
  }
}
