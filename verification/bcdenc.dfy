/** The reference model of tests/t4/bcd_enc_tb.py: a binary word split into
    decimal digits, fitted to `DIGITS` digits (the lost leading digits raise
    the overflow flag), and packed as four-bit binary-coded decimal. */
module BcdBench {
  import opened Wrappers
  import opened Text
  import opened BitCodec
  import opened SignalModel
  import opened CoverNets

  // ---------------------------------------------------------------------------
  // Decimal digits
  // ---------------------------------------------------------------------------

  function Pow10(n: nat): (r: nat)
    ensures r >= 1
  {
    if n == 0 then 1 else 10 * Pow10(n - 1)
  }

  /** Every entry is a decimal digit. */
  predicate IsDecimal(ds: seq<int>) {
    forall i :: 0 <= i < |ds| ==> 0 <= ds[i] <= 9
  }

  /** The digits read most significant first in base 10. */
  function Decimal(ds: seq<int>): int {
    if ds == [] then 0 else 10 * Decimal(ds[..|ds| - 1]) + ds[|ds| - 1]
  }

  /** The decimal digits of `n`, most significant first, without leading
      zeros (zero itself is one digit). */
  function DecimalDigits(n: nat): (ds: seq<int>)
    ensures |ds| >= 1 && IsDecimal(ds)
  {
    if n < 10 then [n] else DecimalDigits(n / 10) + [n % 10]
  }

  lemma {:induction false} DecimalDigitsValue(n: nat)
    ensures Decimal(DecimalDigits(n)) == n
  {
    if n >= 10 {
      var ds := DecimalDigits(n);
      assert ds[..|ds| - 1] == DecimalDigits(n / 10);
      DecimalDigitsValue(n / 10);
    }
  }

  /** `n` has more than `d` decimal digits exactly when it reaches `10^d`. */
  lemma {:induction false} DecimalDigitsCount(n: nat, d: nat)
    requires d >= 1
    ensures |DecimalDigits(n)| > d <==> n >= Pow10(d)
  {
    if n >= 10 {
      if d > 1 {
        DecimalDigitsCount(n / 10, d - 1);
      } else {
        assert Pow10(1) == 10;
      }
    } else {
      Pow10AtLeastTen(d);
    }
  }

  lemma {:induction false} Pow10AtLeastTen(d: nat)
    requires d >= 1
    ensures Pow10(d) >= 10
  {
    if d > 1 {
      Pow10AtLeastTen(d - 1);
    }
  }

  /** Decimal digits read below `10` to the power of their count. */
  lemma {:induction false} DecimalBound(ds: seq<int>)
    requires IsDecimal(ds)
    ensures 0 <= Decimal(ds) < Pow10(|ds|)
  {
    if ds != [] {
      DecimalBound(ds[..|ds| - 1]);
    }
  }

  /** Digits in front and digits behind: the front part is weighted by the
      count of the rest. */
  lemma {:induction false} DecimalConcat(a: seq<int>, b: seq<int>)
    ensures Decimal(a + b) == Decimal(a) * Pow10(|b|) + Decimal(b)
    decreases |b|
  {
    if b == [] {
      assert a + b == a;
    } else {
      var b' := b[..|b| - 1];
      assert (a + b)[..|a + b| - 1] == a + b' && (a + b)[|a + b| - 1] == b[|b| - 1];
      DecimalConcat(a, b');
      ShiftInDigit(Decimal(a), Pow10(|b'|), Decimal(b'), b[|b| - 1]);
    }
  }

  lemma ShiftInDigit(u: int, p: int, v: int, d: int)
    ensures 10 * (u * p + v) + d == u * (10 * p) + (10 * v + d)
  {
  }

  /** Leading zeros do not change the value. */
  lemma {:induction false} LeadingZeros(k: nat, ds: seq<int>)
    ensures Decimal(Repeat(0, k) + ds) == Decimal(ds)
  {
    DecimalConcat(Repeat(0, k), ds);
    ZerosValue(k);
  }

  lemma {:induction false} ZerosValue(k: nat)
    ensures Decimal(Repeat(0, k)) == 0
  {
    if k > 0 {
      var z := Repeat(0, k);
      assert z[..k - 1] == Repeat(0, k - 1);
      ZerosValue(k - 1);
    }
  }

  /** The last `d` digits read `Decimal(ds)` modulo `10^d`. */
  lemma LowDigits(ds: seq<int>, d: nat)
    requires IsDecimal(ds) && d <= |ds|
    ensures Decimal(ds[|ds| - d..]) == Decimal(ds) % Pow10(d)
  {
    var hi, lo := ds[..|ds| - d], ds[|ds| - d..];
    assert ds == hi + lo;
    DecimalConcat(hi, lo);
    DecimalBound(lo);
    ModOfSplit(Decimal(ds), Decimal(hi), Decimal(lo), Pow10(d));
  }

  /** The digit list after `model`'s trim or padding: the last `d` digits
      when there are more, zeros in front when there are fewer. */
  function Fitted(ds: seq<int>, d: nat): seq<int> {
    if |ds| > d then ds[|ds| - d..] else Repeat(0, d - |ds|) + ds
  }

  /** The fitted digits of `n` are exactly `d` decimal digits that read `n`
      modulo `10^d`. */
  lemma FittedDigits(n: nat, d: nat)
    ensures var f := Fitted(DecimalDigits(n), d);
      |f| == d && IsDecimal(f) && Decimal(f) == n % Pow10(d)
  {
    var ds := DecimalDigits(n);
    DecimalDigitsValue(n);
    if |ds| > d {
      TrimmedDigits(ds, d);
    } else {
      PaddedDigits(ds, d);
    }
  }

  /** Keeping the last `d` digits keeps the value modulo `10^d`. */
  lemma TrimmedDigits(ds: seq<int>, d: nat)
    requires IsDecimal(ds) && |ds| > d
    ensures var f := ds[|ds| - d..];
      IsDecimal(f) && Decimal(f) == Decimal(ds) % Pow10(d)
  {
    var f := ds[|ds| - d..];
    forall i | 0 <= i < |f|
      ensures 0 <= f[i] <= 9
    {
      assert f[i] == ds[|ds| - d + i];
    }
    LowDigits(ds, d);
  }

  /** Padding with zeros to `d` digits keeps the value, which is below `10^d`. */
  lemma PaddedDigits(ds: seq<int>, d: nat)
    requires IsDecimal(ds) && |ds| <= d
    ensures var f := Repeat(0, d - |ds|) + ds;
      |f| == d && IsDecimal(f) && Decimal(f) == Decimal(ds) % Pow10(d)
  {
    var z := Repeat(0, d - |ds|);
    var f := z + ds;
    forall i | 0 <= i < |f|
      ensures 0 <= f[i] <= 9
    {
      if i < |z| {
        assert f[i] == z[i];
      } else {
        assert f[i] == ds[i - |z|];
      }
    }
    LeadingZeros(d - |ds|, ds);
    DecimalBound(ds);
    Pow10Monotonic(|ds|, d);
    ModOfSplit(Decimal(ds), 0, Decimal(ds), Pow10(d));
  }

  lemma {:induction false} Pow10Monotonic(a: nat, b: nat)
    requires a <= b
    ensures Pow10(a) <= Pow10(b)
  {
    if a < b {
      Pow10Monotonic(a, b - 1);
    }
  }

  // ---------------------------------------------------------------------------
  // Binary-coded decimal
  // ---------------------------------------------------------------------------

  /** The four-bit codes of the ten digits, most significant bit first. */
  const NIBBLES: seq<string> := ["0000", "0001", "0010", "0011", "0100", "0101", "0110", "0111", "1000", "1001"]

  /** `to_logic(d, 4)`: a digit as four bits, most significant first (see
      `NibbleIsToLogic`). */
  function Nibble(d: int): (r: string)
    requires 0 <= d <= 9
    ensures |r| == 4 && IsBits(r) && Unsigned(r) == d
  {
    NibbleCodes(d);
    NIBBLES[d]
  }

  /** The value of a four-character bit string, bit by bit. */
  lemma Unsigned4(s: string)
    requires |s| == 4
    ensures Unsigned(s) == 8 * Digit(s[0]) + 4 * Digit(s[1]) + 2 * Digit(s[2]) + Digit(s[3])
  {
    var a, b, c := s[..3], s[..2], s[..1];
    assert a[..2] == b && b[..1] == c && c[..0] == [];
    assert Unsigned(c) == Digit(s[0]);
    assert Unsigned(b) == 2 * Digit(s[0]) + Digit(s[1]);
    assert Unsigned(a) == 2 * Unsigned(b) + Digit(s[2]);
  }

  lemma NibbleCodes(d: int)
    requires 0 <= d <= 9
    ensures |NIBBLES[d]| == 4 && IsBits(NIBBLES[d]) && Unsigned(NIBBLES[d]) == d
  {
    var s := NIBBLES[d];
    Unsigned4(s);
    if d == 0 {} else if d == 1 {} else if d == 2 {} else if d == 3 {} else if d == 4 {}
    else if d == 5 {} else if d == 6 {} else if d == 7 {} else if d == 8 {} else {}
  }

  /** The table agrees with `to_logic(d, 4)`. */
  lemma NibbleIsToLogic(d: int)
    requires 0 <= d <= 9
    ensures Nibble(d) == ToLogic(Int(d), Some(4), true, true)
  {
    ModOfSplit(d, 0, d, Pow2(4));
    EncodingIsUnique(d, 4, Nibble(d));
  }

  /** The digits' nibbles, concatenated in order. */
  function Nibbles(ds: seq<int>): string
    requires IsDecimal(ds)
  {
    if ds == [] then "" else Nibbles(ds[..|ds| - 1]) + Nibble(ds[|ds| - 1])
  }

  /** The digits read most significant first in base 16: the value of the
      packed nibbles. */
  function Hex(ds: seq<int>): int {
    if ds == [] then 0 else 16 * Hex(ds[..|ds| - 1]) + ds[|ds| - 1]
  }

  /** The packed string has four bits per digit. */
  lemma {:induction false} NibblesLength(ds: seq<int>)
    requires IsDecimal(ds)
    ensures |Nibbles(ds)| == 4 * |ds| && IsBits(Nibbles(ds))
  {
    if ds != [] {
      var p, q := Nibbles(ds[..|ds| - 1]), Nibble(ds[|ds| - 1]);
      NibblesLength(ds[..|ds| - 1]);
      assert Nibbles(ds) == p + q;
      assert IsBits(p + q) by {
        forall i | 0 <= i < |p + q|
          ensures IsBit((p + q)[i])
        {
          if i < |p| {
            assert (p + q)[i] == p[i];
          } else {
            assert (p + q)[i] == q[i - |p|];
          }
        }
      }
    }
  }

  /** The packed string holds the digits in base 16. */
  lemma {:induction false} NibblesValue(ds: seq<int>)
    requires IsDecimal(ds)
    ensures Unsigned(Nibbles(ds)) == Hex(ds)
  {
    if ds != [] {
      var front, d := ds[..|ds| - 1], ds[|ds| - 1];
      var p, q := Nibbles(front), Nibble(d);
      NibblesValue(front);
      assert Nibbles(ds) == p + q;
      UnsignedConcat(p, q);
      assert Pow2(|q|) == 16;
      assert Unsigned(p + q) == Hex(front) * 16 + d;
      assert Hex(ds) == 16 * Hex(front) + d;
    }
  }

  /** The `k`-th four-bit slice of the packed string is the `k`-th digit. */
  lemma {:induction false} NibbleAt(ds: seq<int>, k: nat)
    requires IsDecimal(ds) && k < |ds|
    ensures |Nibbles(ds)| == 4 * |ds| && Nibbles(ds)[4 * k..4 * k + 4] == Nibble(ds[k])
    ensures Unsigned(Nibbles(ds)[4 * k..4 * k + 4]) == ds[k]
  {
    NibblesLength(ds);
    var front, d := ds[..|ds| - 1], ds[|ds| - 1];
    var p, q := Nibbles(front), Nibble(d);
    NibblesLength(front);
    assert Nibbles(ds) == p + q;
    if k < |ds| - 1 {
      assert front[k] == ds[k];
      NibbleAt(front, k);
      assert (p + q)[4 * k..4 * k + 4] == p[4 * k..4 * k + 4];
    } else {
      assert (p + q)[|p|..|p + q|] == q;
    }
  }

  // ---------------------------------------------------------------------------
  // The bus-functional model
  // ---------------------------------------------------------------------------

  /** `Bfm`: the encoder's ports for `digits` decimal digits of a `width`-bit
      input. */
  class Bfm {
    const digits: nat
    const go: Signal
    const bin: Signal
    const bcd: Signal
    const ovfl: Signal
    const done: Signal

    ghost predicate Valid()
      reads go, bin, bcd, ovfl, done
    {
      go.Valid() && bin.Valid() && bcd.Valid() && ovfl.Valid() && done.Valid() &&
      bcd.width == (if digits >= 1 then 4 * digits else 1) && bcd.bigEndian && ovfl.width == 1 && done.width == 1 &&
      bcd != ovfl && bcd != done && ovfl != done && bin != bcd && bin != ovfl && bin != done
    }

    /** `Bfm()`: `go` and `bin` inputs, a `4 * digits`-bit `bcd` output and
        the `ovfl` and `done` flags, all at zero. */
    constructor(digits: nat, width: nat)
      ensures Valid() && this.digits == digits && bin.width == if width > 0 then width else 1
      ensures go.value == 0 && bin.value == 0 && bcd.value == 0 && ovfl.value == 0 && done.value == 0
    {
      this.digits := digits;
      go := new Signal(None, IN, 0, true, None);
      bin := new Signal(Some(width), IN, 0, true, None);
      bcd := new Signal(Some(4 * digits), OUT, 0, true, None);
      ovfl := new Signal(None, OUT, 0, true, None);
      done := new Signal(None, OUT, 0, true, None);
      ModOfSplit(0, 0, 0, Pow2(1));
      ModOfSplit(0, 0, 0, Pow2(width));
      ModOfSplit(0, 0, 0, Pow2(4 * digits));
    }

    /** `model()`: the overflow flag is raised exactly when `bin` needs more
        than `digits` decimal digits, which for `digits >= 1` is exactly
        when it reaches `10^digits`; the overflow cover group sees the flag
        and the overflow cover point counts a raised flag. Then `bcd` takes
        the fitted digits as nibbles and `done` goes to 1, except with no
        digits at all: writing the empty string into `bcd` raises (`ok` is
        false), leaving `bcd` and `done` as they were. */
    method Model(cgOverflow: CoverGroup, cpOverflow: CoverPoint) returns (ok: bool)
      requires Valid() && bin.value >= 0 && cgOverflow.Valid()
      modifies bcd, ovfl, done, cgOverflow, cgOverflow.counts, cpOverflow
      ensures Valid() && bin.value == old(bin.value)
      ensures ovfl.value == if |DecimalDigits(bin.value)| > digits then 1 else 0
      ensures digits >= 1 ==> (ovfl.value == 1 <==> bin.value >= Pow10(digits))
      ensures cgOverflow.Counters() ==
        if ovfl.value in cgOverflow.lookup then Bumped(old(cgOverflow.Counters()), cgOverflow.Bin(ovfl.value))
        else old(cgOverflow.Counters())
      ensures cpOverflow.count == old(cpOverflow.count) + ovfl.value
      ensures ok <==> digits >= 1
      ensures ok ==> bcd.AsLogic() == Nibbles(Fitted(DecimalDigits(bin.value), digits)) && done.value == 1
      ensures !ok ==> bcd.value == old(bcd.value) && done.value == old(done.value)
    {
      var ds := SplitDigits(bin.value);
      var fitted, over := FitDigits(ds, digits);
      FittedDigits(bin.value, digits);
      NibblesLength(fitted);
      if digits >= 1 {
        DecimalDigitsCount(bin.value, digits);
      }
      SetOverflow(over);
      var progress := cgOverflow.Cover(ovfl.value);
      var cond := cpOverflow.Cover(if ovfl.value == 1 then 1 else 0);
      var s := PackDigits(fitted);
      ok := WriteBcd(s);
      if ok {
        SetDone();
      }
    }

    /** `ovfl.set(0)`, then `ovfl.set(1)` when digits were cut off. */
    method SetOverflow(over: bool)
      requires Valid()
      modifies ovfl
      ensures Valid() && ovfl.value == if over then 1 else 0
    {
      ModOfSplit(0, 0, 0, Pow2(1));
      ModOfSplit(1, 0, 1, Pow2(1));
      ovfl.SetInt(0);
      if over {
        ovfl.SetInt(1);
      }
    }

    /** `done.set(1)`. */
    method SetDone()
      requires Valid()
      modifies done
      ensures Valid() && done.value == 1
    {
      ModOfSplit(1, 0, 1, Pow2(1));
      done.SetInt(1);
    }

    /** `bcd.set(bin_digits)` with `4 * digits` bits: `as_logic()` gives
        them back; with no digits the empty string raises (`ok` is false)
        and `bcd` keeps its value. */
    method WriteBcd(s: string) returns (ok: bool)
      requires Valid() && |s| == 4 * digits && IsBits(s)
      modifies bcd
      ensures Valid()
      ensures ok <==> digits >= 1
      ensures ok ==> bcd.AsLogic() == s
      ensures !ok ==> bcd.value == old(bcd.value)
    {
      if digits >= 1 {
        bcd.KeptFullWidth(s);
      }
      ok := bcd.SetStr(s, false);
    }
  }

  /** The trim or the padding of `model`: the digits fitted to `d` places,
      and whether leading digits were cut off. */
  method FitDigits(ds: seq<int>, d: nat) returns (fitted: seq<int>, over: bool)
    ensures fitted == Fitted(ds, d) && over == (|ds| > d)
  {
    fitted := ds;
    over := false;
    var diff := d - |ds|;
    if diff < 0 {
      over := true;
      fitted := ds[-diff..];
    } else if diff > 0 {
      fitted := PadDigits(ds, diff);
    } else {
      assert Repeat(0, 0) + ds == ds;
    }
  }

  /** The `while word >= 10` loop: digits taken off the low end with `% 10`
      and `int(word / 10)`, each inserted at the front. */
  method SplitDigits(n: nat) returns (ds: seq<int>)
    ensures ds == DecimalDigits(n)
  {
    ds := [];
    var word := n;
    while word >= 10
      invariant 0 <= word && DecimalDigits(word) + ds == DecimalDigits(n)
      decreases word
    {
      assert DecimalDigits(word) == DecimalDigits(word / 10) + [word % 10];
      ds := [word % 10] + ds;
      word := word / 10;
    }
    ds := [word] + ds;
  }

  /** The padding loop: `diff` zeros inserted at the front. */
  method PadDigits(ds: seq<int>, diff: nat) returns (r: seq<int>)
    ensures r == Repeat(0, diff) + ds
  {
    r := ds;
    for i := 0 to diff
      invariant r == Repeat(0, i) + ds
    {
      assert [0] + Repeat(0, i) == Repeat(0, i + 1);
      r := [0] + r;
    }
  }

  /** The `bin_digits` loop: the nibbles of the digits appended in order. */
  method PackDigits(ds: seq<int>) returns (s: string)
    requires IsDecimal(ds)
    ensures s == Nibbles(ds)
  {
    s := "";
    for k := 0 to |ds|
      invariant s == Nibbles(ds[..k])
    {
      assert ds[..k + 1][..k] == ds[..k];
      s := s + Nibble(ds[k]);
    }
    assert ds[..|ds|] == ds;
  }

  /** The overflow nets' `bypass`: when every `width`-bit input has at most
      `digits` decimal digits, `model` neither trims a digit nor raises
      `ovfl`. */
  lemma BypassMeansNoOverflow(width: nat, digits: nat, n: nat)
    requires digits >= 1 && Pow2m1(width) < Pow10(digits) && n <= Pow2m1(width)
    ensures |DecimalDigits(n)| <= digits && n < Pow10(digits)
  {
    DecimalDigitsCount(n, digits);
  }
}
