/** Conversions between integers, bit lists and fixed-width binary strings,
    as in sw-drivers/python/src/veriti/lib.py. A "logic" string holds the
    characters '0' and '1'; it is most-significant-bit first ("big-endian")
    unless it has been reversed for little-endian storage. */
module BitCodec {
  import opened Wrappers
  import opened Text

  /** An element of a bit list: Python `0` or `1`. */
  type BitValue = b: int | 0 <= b <= 1

  // ---------------------------------------------------------------------------
  // Powers

  function Pow2(n: nat): (r: nat)
    ensures r >= 1
  {
    if n == 0 then 1 else 2 * Pow2(n - 1)
  }

  lemma Pow2Monotonic(a: nat, b: nat)
    requires a <= b
    ensures Pow2(a) <= Pow2(b)
  {
  }

  lemma Pow2Add(a: nat, b: nat)
    ensures Pow2(a + b) == Pow2(a) * Pow2(b)
  {
    if a > 0 {
      Pow2Add(a - 1, b);
    }
  }

  /** `pow(base, exp)`, i.e. `base ** exp`, for a non-negative exponent. */
  function Pow(base: int, exp: nat): int
  {
    if exp == 0 then 1 else base * Pow(base, exp - 1)
  }

  lemma {:induction false} PowAdd(base: int, m: nat, n: nat)
    ensures Pow(base, m + n) == Pow(base, m) * Pow(base, n)
  {
    if m > 0 {
      PowAdd(base, m - 1, n);
      assert Pow(base, m + n) == base * Pow(base, m - 1 + n);
    }
  }

  lemma {:induction false} PowOfTwo(n: nat)
    ensures Pow(2, n) == Pow2(n)
  {
    if n > 0 {
      PowOfTwo(n - 1);
    }
  }

  lemma PowPositive(base: int, exp: nat)
    requires base >= 1
    ensures Pow(base, exp) >= 1
  {
  }

  /** `pow2m1(width)`: `2^width - 1`. */
  function Pow2m1(width: nat): nat
  {
    Pow2(width) - 1
  }

  // ---------------------------------------------------------------------------
  // Bit strings and their unsigned value

  predicate IsBit(c: char) {
    c == '0' || c == '1'
  }

  predicate IsBits(s: string) {
    forall i :: 0 <= i < |s| ==> IsBit(s[i])
  }

  function Digit(c: char): nat {
    if c == '1' then 1 else 0
  }

  /** `str(bit)` for a bit (any value other than 1 prints as '0' here). */
  function BitChar(b: int): char {
    if b == 1 then '1' else '0'
  }

  /** `int('0b' + s, base=2)`: the base-2 value, most significant first. */
  function Unsigned(s: string): nat
  {
    if s == [] then 0 else 2 * Unsigned(s[..|s| - 1]) + Digit(s[|s| - 1])
  }

  /** Shifting in one more bit doubles the weight of the leading part. */
  lemma ShiftIn(u: int, p: int, v: int, d: int)
    ensures 2 * (u * p + v) + d == u * (2 * p) + (2 * v + d)
  {
  }

  lemma {:induction false} UnsignedConcat(a: string, b: string)
    ensures Unsigned(a + b) == Unsigned(a) * Pow2(|b|) + Unsigned(b)
    decreases |b|
  {
    if b == [] {
      assert a + b == a;
    } else {
      var b' := b[..|b| - 1];
      var d := Digit(b[|b| - 1]);
      assert (a + b)[..|a + b| - 1] == a + b' && (a + b)[|a + b| - 1] == b[|b| - 1];
      assert Unsigned(a + b) == 2 * Unsigned(a + b') + d;
      UnsignedConcat(a, b');
      ShiftIn(Unsigned(a), Pow2(|b'|), Unsigned(b'), d);
    }
  }

  lemma {:induction false} UnsignedBound(s: string)
    ensures Unsigned(s) < Pow2(|s|)
  {
    if s != [] {
      UnsignedBound(s[..|s| - 1]);
    }
  }

  /** The value of a string is its first bit's weight plus the value of the rest. */
  lemma UnsignedLead(s: string)
    requires |s| >= 1
    ensures Unsigned(s) == Digit(s[0]) * Pow2(|s| - 1) + Unsigned(s[1..])
  {
    var head, tail := [s[0]], s[1..];
    assert s == head + tail;
    UnsignedConcat(head, tail);
    UnsignedSingle(s[0]);
  }

  lemma UnsignedSingle(c: char)
    ensures Unsigned([c]) == Digit(c)
  {
    assert [c][..0] == [];
  }

  /** The first bit of a bit string is '1' exactly when its value reaches half the range. */
  lemma LeadingBit(s: string)
    requires |s| >= 1 && IsBits(s)
    ensures s[0] == '1' <==> Unsigned(s) >= Pow2(|s| - 1)
  {
    UnsignedLead(s);
    UnsignedBound(s[1..]);
  }

  lemma {:induction false} UnsignedZeros(n: int)
    ensures Unsigned(Repeat('0', n)) == 0
    decreases if n > 0 then n else 0
  {
    if n > 0 {
      var z := Repeat('0', n);
      assert z[..|z| - 1] == Repeat('0', n - 1);
      UnsignedZeros(n - 1);
    }
  }

  /** `pow2m1(w)` is the value of `w` ones, the largest value of any `w`-bit string. */
  lemma {:induction false} Pow2m1IsAllOnes(w: nat)
    ensures Unsigned(Repeat('1', w)) == Pow2m1(w)
    ensures forall s: string :: |s| == w ==> Unsigned(s) <= Pow2m1(w)
  {
    if w > 0 {
      var o := Repeat('1', w);
      assert o[..|o| - 1] == Repeat('1', w - 1);
      Pow2m1IsAllOnes(w - 1);
    }
    forall s: string | |s| == w
      ensures Unsigned(s) <= Pow2m1(w)
    {
      UnsignedBound(s);
    }
  }

  lemma Pow2m1Examples()
    ensures Pow2m1(0) == 0 && Pow2m1(1) == 1 && Pow2m1(3) == 7
    ensures Pow2m1(4) == 15 && Pow2m1(8) == 255
    ensures Pow(3, 4) == 81
  {
  }

  // ---------------------------------------------------------------------------
  // Bits of a number (bit 0 is the least significant)

  function Bit(x: nat, i: nat): nat
  {
    if i == 0 then x % 2 else Bit(x / 2, i - 1)
  }

  /** Bit `i` of a string's value is the character `i` places from the right. */
  lemma {:induction false} BitOfUnsigned(s: string, i: nat)
    requires IsBits(s) && i < |s|
    ensures Bit(Unsigned(s), i) == Digit(s[|s| - 1 - i])
  {
    var s' := s[..|s| - 1];
    assert Unsigned(s) / 2 == Unsigned(s');
    if i > 0 {
      BitOfUnsigned(s', i - 1);
    }
  }

  /** Two `w`-bit numbers with the same bits are equal. */
  lemma {:induction false} BitsDetermine(a: nat, b: nat, w: nat)
    requires a < Pow2(w) && b < Pow2(w)
    requires forall i :: 0 <= i < w ==> Bit(a, i) == Bit(b, i)
    ensures a == b
  {
    if w > 0 {
      forall i | 0 <= i < w - 1
        ensures Bit(a / 2, i) == Bit(b / 2, i)
      {
        assert Bit(a, i + 1) == Bit(b, i + 1);
      }
      BitsDetermine(a / 2, b / 2, w - 1);
      assert Bit(a, 0) == Bit(b, 0);
    }
  }

  /** Two bit strings of equal length with equal value are the same string. */
  lemma {:induction false} UnsignedInjective(a: string, b: string)
    requires IsBits(a) && IsBits(b) && |a| == |b|
    requires Unsigned(a) == Unsigned(b)
    ensures a == b
  {
    if a != [] {
      var a', b' := a[..|a| - 1], b[..|b| - 1];
      assert Digit(a[|a| - 1]) == Digit(b[|b| - 1]);
      UnsignedInjective(a', b');
      assert a == a' + [a[|a| - 1]] && b == b' + [b[|b| - 1]];
    }
  }

  // ---------------------------------------------------------------------------
  // from_logic

  /** Each character of `s` inverted, built left to right. */
  function Flip(s: string): string
  {
    if s == [] then [] else Flip(s[..|s| - 1]) + [if s[|s| - 1] == '1' then '0' else '1']
  }

  lemma {:induction false} FlipComplement(s: string)
    requires IsBits(s)
    ensures |Flip(s)| == |s|
    ensures Unsigned(Flip(s)) + Unsigned(s) == Pow2(|s|) - 1
  {
    if s != [] {
      var s' := s[..|s| - 1];
      FlipComplement(s');
      assert Flip(s)[..|Flip(s)| - 1] == Flip(s');
    }
  }

  /** `from_logic(b, signed)`: the plain base-2 value, or, when `signed` and the
      first bit is '1', minus one more than the value of the inverted bits.
      Python raises on an empty string and on most other non-binary text,
      but its `int('0b' + b, 2)` also reads '_' between digits and trailing
      whitespace; those strings are outside this function's domain. */
  function FromLogic(b: string, signed: bool): (r: int)
    requires |b| >= 1 && IsBits(b)
    ensures r == if signed && b[0] == '1' then Unsigned(b) - Pow2(|b|) else Unsigned(b)
    ensures signed ==> r + Pow2(|b| - 1) >= 0 && r < Pow2(|b| - 1)
    ensures !signed ==> 0 <= r < Pow2(|b|)
  {
    FlipComplement(b);
    LeadingBit(b);
    UnsignedBound(b);
    if signed && b[0] == '1' then -(Unsigned(Flip(b)) + 1) else Unsigned(b)
  }

  // ---------------------------------------------------------------------------
  // to_logic

  /** The number of binary digits of `m` (0 for 0). */
  function BitLength(m: nat): nat
  {
    if m == 0 then 0 else 1 + BitLength(m / 2)
  }

  lemma {:induction false} BitLengthBounds(m: nat)
    ensures m < Pow2(BitLength(m))
    ensures m >= 1 ==> Pow2(BitLength(m) - 1) <= m
  {
    if m > 0 {
      BitLengthBounds(m / 2);
    }
  }

  lemma BitLengthExact(m: nat, k: nat)
    requires k >= 1 && Pow2(k - 1) <= m < Pow2(k)
    ensures BitLength(m) == k
  {
    BitLengthBounds(m);
    var b := BitLength(m);
    if b < k {
      Pow2Monotonic(b, k - 1);
    } else if b > k {
      Pow2Monotonic(k, b - 1);
    }
  }

  /** `bin(m)[2:]` for `m >= 0`: the binary digits without leading zeros ("0" for 0). */
  function Binary(m: nat): (r: string)
    ensures IsBits(r) && Unsigned(r) == m
    ensures |r| == if m == 0 then 1 else BitLength(m)
  {
    if m < 2 then [BitChar(m)]
    else
      var r := Binary(m / 2) + [BitChar(m % 2)];
      assert r[..|r| - 1] == Binary(m / 2);
      r
  }

  /** The width `to_logic` chooses when none is given: `ceil(log2(|n| + 0.5))`,
      which for `n != 0` is the bit length of `|n|`, plus a sign bit for
      negatives. It is always enough to hold `n` (as a signed value when
      `n < 0`). */
  function AutoWidth(n: int): (w: nat)
    ensures w >= 1
    ensures n < 0 ==> n + Pow2(w - 1) >= 0 && n + Pow2(w) >= 0
    ensures n >= 0 ==> n < Pow2(w)
  {
    var a: nat := if n < 0 then -n else n;
    BitLengthBounds(a);
    if n == 0 then 1 else BitLength(a) + (if n < 0 then 1 else 0)
  }

  /** What `bin` yields after the two's-complement adjustment for a negative `n`. */
  function IntDigits(n: int, w: nat): string
    requires n + Pow2(w) >= 0
  {
    if n < 0 then Binary(Pow2(w) + n) else Binary(n)
  }

  /** `s.zfill(w)` for a string without a sign. */
  function ZFill(s: string, w: nat): (r: string)
    ensures |r| == if |s| < w then w else |s|
  {
    if |s| < w then Repeat('0', w - |s|) + s else s
  }

  lemma ZFillValue(s: string, w: nat)
    requires IsBits(s)
    ensures IsBits(ZFill(s, w)) && Unsigned(ZFill(s, w)) == Unsigned(s)
  {
    if |s| < w {
      UnsignedConcat(Repeat('0', w - |s|), s);
      UnsignedZeros(w - |s|);
    }
  }

  /** The argument of `to_logic`: an integer or a list of bits. */
  datatype Operand = Int(n: int) | List(bits: seq<BitValue>)

  /** `str(bit)` for each element of the list, concatenated in list order. */
  function ListChars(bits: seq<BitValue>): (r: string)
    ensures |r| == |bits| && forall i :: 0 <= i < |bits| ==> r[i] == BitChar(bits[i])
  {
    seq(|bits|, i requires 0 <= i < |bits| => BitChar(bits[i]))
  }

  /** The width `to_logic` works with. */
  function OperandWidth(x: Operand, width: Option<nat>): nat
  {
    if width.Some? then width.value
    else match x
      case List(bits) => |bits|
      case Int(n) => AutoWidth(n)
  }

  /** The digits `to_logic` has before padding and truncation. */
  function RawDigits(x: Operand, width: Option<nat>): string
    requires x.Int? && width.Some? ==> x.n + Pow2(width.value) >= 0
  {
    match x
    case List(bits) => Reverse(ListChars(bits))
    case Int(n) => IntDigits(n, OperandWidth(x, width))
  }

  /** `to_logic(n, width, trunc, big_endian)`: zero-pad the digits to `width`,
      keep only the low `width` digits when `trunc`, and reverse the result
      for little-endian storage. A negative `n` below `-2^width` makes Python
      produce a non-binary string; the model excludes it. */
  function ToLogic(x: Operand, width: Option<nat>, trunc: bool, bigEndian: bool): string
    requires x.Int? && width.Some? ==> x.n + Pow2(width.value) >= 0
  {
    var w := OperandWidth(x, width);
    var padded := ZFill(RawDigits(x, width), w);
    var cut := if trunc then Truncate(padded, w) else padded;
    if bigEndian then cut else Reverse(cut)
  }

  /** `s[len(s) - w:]` where `w < len(s)`: the last `w` characters. */
  function Truncate(s: string, w: nat): string {
    if w < |s| then s[|s| - w..] else s
  }

  /** Keeping the last `w` bits of a string leaves its value modulo `2^w`. */
  lemma LowBits(s: string, w: nat)
    requires w <= |s|
    ensures Unsigned(s[|s| - w..]) == Unsigned(s) % Pow2(w)
  {
    var hi, lo := s[..|s| - w], s[|s| - w..];
    assert s == hi + lo;
    UnsignedConcat(hi, lo);
    UnsignedBound(lo);
    ModOfSplit(Unsigned(s), Unsigned(hi), Unsigned(lo), Pow2(w));
  }

  lemma MulAtLeast(a: int, p: int)
    requires a >= 1 && p > 0
    ensures a * p >= p
  {
    assert a * p == (a - 1) * p + p;
  }

  /** A multiple of `p` strictly between `-p` and `p` is zero. */
  lemma SmallMultiple(e: int, p: int)
    requires p > 0 && -p < e * p < p
    ensures e == 0
  {
    if e >= 1 {
      MulAtLeast(e, p);
    } else if e <= -1 {
      MulAtLeast(-e, p);
    }
  }

  lemma ModOfSplit(x: int, q: int, r: int, p: int)
    requires p > 0 && 0 <= r < p && x == q * p + r
    ensures x % p == r
  {
    var d, m := x / p, x % p;
    assert x == d * p + m;
    assert (q - d) * p == q * p - d * p;
    SmallMultiple(q - d, p);
  }

  /** Quotient and remainder of `x = q * p + r` with `0 <= r < p`. */
  lemma SplitDivMod(x: int, q: int, r: int, p: int)
    requires p > 0 && 0 <= r < p && x == q * p + r
    ensures x % p == r && x / p == q
  {
    ModOfSplit(x, q, r, p);
    assert (x / p - q) * p == 0;
  }

  /** `big_endian=False` yields exactly the reverse of `big_endian=True`. */
  lemma LittleEndianIsReverse(x: Operand, width: Option<nat>, trunc: bool)
    requires x.Int? && width.Some? ==> x.n + Pow2(width.value) >= 0
    ensures ToLogic(x, width, trunc, false) == Reverse(ToLogic(x, width, trunc, true))
  {
  }

  /** `to_logic` on an integer with an explicit width and truncation, unfolded. */
  lemma ToLogicInt(n: int, w: nat)
    requires n + Pow2(w) >= 0
    ensures ToLogic(Int(n), Some(w), true, true) == Truncate(ZFill(IntDigits(n, w), w), w)
  {
    var x := Int(n);
    assert OperandWidth(x, Some(w)) == w;
    assert RawDigits(x, Some(w)) == IntDigits(n, w);
  }

  /** With an explicit width and truncation, an integer becomes exactly `w`
      binary characters whose value is `n mod 2^w` (two's complement for
      negatives, low bits kept for over-wide values). */
  lemma {:induction false} ToLogicFixedWidth(n: int, w: nat, bigEndian: bool)
    requires n + Pow2(w) >= 0
    ensures |ToLogic(Int(n), Some(w), true, bigEndian)| == w
    ensures IsBits(ToLogic(Int(n), Some(w), true, bigEndian))
    ensures Unsigned(ToLogic(Int(n), Some(w), true, true)) == n % Pow2(w)
  {
    var big := ToLogic(Int(n), Some(w), true, true);
    FixedWidthValue(n, w);
    LittleEndianIsReverse(Int(n), Some(w), true);
    assert ToLogic(Int(n), Some(w), true, bigEndian) == if bigEndian then big else Reverse(big);
  }

  lemma FixedWidthValue(n: int, w: nat)
    requires n + Pow2(w) >= 0
    ensures |ToLogic(Int(n), Some(w), true, true)| == w
    ensures IsBits(ToLogic(Int(n), Some(w), true, true))
    ensures Unsigned(ToLogic(Int(n), Some(w), true, true)) == n % Pow2(w)
  {
    ToLogicInt(n, w);
    CutDigits(n, w);
  }

  /** The zero-padded, truncated digits of `n` are `w` bits worth `n mod 2^w`. */
  lemma CutDigits(n: int, w: nat)
    requires n + Pow2(w) >= 0
    ensures var big := Truncate(ZFill(IntDigits(n, w), w), w);
      |big| == w && IsBits(big) && Unsigned(big) == n % Pow2(w)
  {
    var p := Pow2(w);
    var m: nat := if n < 0 then p + n else n;
    var b := Binary(m);
    assert IntDigits(n, w) == b;
    ZFillValue(b, w);
    LowCut(ZFill(b, w), w);
    if n < 0 {
      NegativeMod(n, p);
    }
  }

  /** Keeping at most the last `w` characters of a string at least `w` long
      leaves `w` bits worth its value modulo `2^w`. */
  lemma LowCut(padded: string, w: nat)
    requires IsBits(padded) && |padded| >= w
    ensures var big := Truncate(padded, w);
      |big| == w && IsBits(big) && Unsigned(big) == Unsigned(padded) % Pow2(w)
  {
    if w < |padded| {
      LowBits(padded, w);
    } else {
      UnsignedBound(padded);
      ModOfSplit(Unsigned(padded), 0, Unsigned(padded), Pow2(w));
    }
  }

  /** Adding the modulus to a value in `[-p, 0)` gives its remainder. */
  lemma NegativeMod(n: int, p: int)
    requires p > 0 && n < 0 && n + p >= 0
    ensures n % p == (n + p) % p == n + p
  {
    ModOfSplit(n, -1, n + p, p);
    ModOfSplit(n + p, 0, n + p, p);
  }

  /** Without truncation the width only pads: a non-negative `n` keeps its value
      and the string is at least `w` characters long. */
  lemma ToLogicNeverTruncatesUnasked(n: nat, w: nat)
    ensures |ToLogic(Int(n), Some(w), false, true)| >= w
    ensures IsBits(ToLogic(Int(n), Some(w), false, true))
    ensures Unsigned(ToLogic(Int(n), Some(w), false, true)) == n
  {
    ZFillValue(Binary(n), w);
  }

  /** `from_logic(to_logic(n, w)) == n` for every unsigned `w`-bit value. */
  lemma RoundTripUnsigned(n: int, w: nat)
    requires w >= 1 && 0 <= n < Pow2(w)
    ensures FromLogic(ToLogic(Int(n), Some(w), true, true), false) == n
  {
    ToLogicFixedWidth(n, w, true);
    ModOfSplit(n, 0, n, Pow2(w));
  }

  /** `from_logic(to_logic(n, w), signed=True) == n` for every signed `w`-bit value. */
  lemma RoundTripSigned(n: int, w: nat)
    requires w >= 1 && n + Pow2(w - 1) >= 0 && n < Pow2(w - 1)
    ensures FromLogic(ToLogic(Int(n), Some(w), true, true), true) == n
  {
    assert Pow2(w) == 2 * Pow2(w - 1);
    ToLogicFixedWidth(n, w, true);
    SignedValue(ToLogic(Int(n), Some(w), true, true), n, w);
  }

  /** A bit string whose value is `n mod 2^w`, for `n` in the signed range,
      decodes as signed to `n`. */
  lemma SignedValue(s: string, n: int, w: nat)
    requires |s| == w >= 1 && IsBits(s)
    requires n + Pow2(w - 1) >= 0 && n < Pow2(w - 1)
    requires Unsigned(s) == n % Pow2(w)
    ensures FromLogic(s, true) == n
  {
    var p, h := Pow2(w), Pow2(w - 1);
    assert p == 2 * h;
    LeadingBit(s);
    if n < 0 {
      ModOfSplit(n, -1, p + n, p);
      assert Unsigned(s) >= h;
    } else {
      ModOfSplit(n, 0, n, p);
      assert Unsigned(s) < h;
    }
  }

  /** Omitting the width is the same as passing the automatic width: the digits
      already fit, so neither padding nor truncation changes them. */
  lemma AutoWidthIsFixedWidth(n: int, trunc: bool, bigEndian: bool)
    ensures ToLogic(Int(n), None, trunc, bigEndian) == ToLogic(Int(n), Some(AutoWidth(n)), true, bigEndian)
  {
    var w := AutoWidth(n);
    IntDigitsWidth(n);
    assert OperandWidth(Int(n), None) == w;
    assert RawDigits(Int(n), None) == IntDigits(n, w) == RawDigits(Int(n), Some(w));
  }

  /** In the automatic width the digits of `n` need no padding. */
  lemma IntDigitsWidth(n: int)
    ensures |IntDigits(n, AutoWidth(n))| == AutoWidth(n)
  {
    var w := AutoWidth(n);
    if n < 0 {
      var m := Pow2(w) + n;
      assert Pow2(w) == 2 * Pow2(w - 1);
      BitLengthExact(m, w);
    } else if n > 0 {
      BitLengthBounds(n);
    }
  }

  /** The automatic width is the bit length of `|n|` (1 for 0), plus one for a
      negative `n`, and decoding with `signed = n < 0` gives `n` back. */
  lemma AutoWidthRoundTrip(n: int, trunc: bool, bigEndian: bool)
    ensures |ToLogic(Int(n), None, trunc, bigEndian)| == AutoWidth(n)
    ensures FromLogic(ToLogic(Int(n), None, true, true), n < 0) == n
  {
    AutoWidthLength(n, trunc, bigEndian);
    AutoWidthDecodes(n);
  }

  lemma AutoWidthLength(n: int, trunc: bool, bigEndian: bool)
    ensures |ToLogic(Int(n), None, trunc, bigEndian)| == AutoWidth(n)
  {
    AutoWidthIsFixedWidth(n, trunc, bigEndian);
    ToLogicFixedWidth(n, AutoWidth(n), bigEndian);
  }

  lemma AutoWidthDecodes(n: int)
    ensures |ToLogic(Int(n), None, true, true)| >= 1 && IsBits(ToLogic(Int(n), None, true, true))
    ensures FromLogic(ToLogic(Int(n), None, true, true), n < 0) == n
  {
    var w := AutoWidth(n);
    FixedWidthValue(n, w);
    if n < 0 {
      RoundTripSigned(n, w);
    } else {
      RoundTripUnsigned(n, w);
    }
    AutoWidthIsFixedWidth(n, true, true);
    ToLogicFixedWidth(n, w, true);
  }

  /** A bit string of width `|s|` is reproduced by encoding its own value. */
  lemma ToLogicOfUnsigned(s: string)
    requires IsBits(s)
    ensures ToLogic(Int(Unsigned(s)), Some(|s|), true, true) == s
  {
    var n := Unsigned(s);
    UnsignedBound(s);
    ToLogicFixedWidth(n, |s|, true);
    ModOfSplit(n, 0, n, Pow2(|s|));
    UnsignedInjective(ToLogic(Int(n), Some(|s|), true, true), s);
  }

  /** Bit `i` of an encoded value sits `i` places from the right of the
      big-endian string. */
  lemma ToLogicBit(n: int, w: nat, i: nat)
    requires n + Pow2(w) >= 0 && i < w
    ensures ToLogic(Int(n), Some(w), true, true)[w - 1 - i] == BitChar(Bit(n % Pow2(w), i))
  {
    var s := ToLogic(Int(n), Some(w), true, true);
    ToLogicFixedWidth(n, w, true);
    BitOfUnsigned(s, i);
  }

  /** The little-endian value of a bit list: element 0 is the least significant bit. */
  function LsbValue(bits: seq<BitValue>): nat
  {
    if bits == [] then 0 else bits[0] + 2 * LsbValue(bits[1..])
  }

  /** A list becomes the reverse of its elements, so element 0 is the last
      (least significant) character, and the default width is the list length. */
  lemma ListToLogic(bits: seq<BitValue>, trunc: bool)
    ensures |ToLogic(List(bits), None, trunc, true)| == |bits|
    ensures forall k :: 0 <= k < |bits| ==>
      ToLogic(List(bits), None, trunc, true)[k] == BitChar(bits[|bits| - 1 - k])
    ensures ToLogic(List(bits), None, trunc, false) == ListChars(bits)
  {
    var r := Reverse(ListChars(bits));
    ReverseReverse(ListChars(bits));
    assert ZFill(r, |bits|) == r;
  }

  /** With an explicit width below the list length, truncation keeps the last
      `w` characters of the default-width string. */
  lemma ListTruncation(bits: seq<BitValue>, w: nat)
    requires w < |bits|
    ensures ToLogic(List(bits), Some(w), true, true) ==
            ToLogic(List(bits), None, true, true)[|bits| - w..]
  {
    var r := Reverse(ListChars(bits));
    assert ZFill(r, w) == r && ZFill(r, |bits|) == r;
  }

  lemma {:induction false} ReversedListValue(bits: seq<BitValue>)
    ensures IsBits(Reverse(ListChars(bits)))
    ensures Unsigned(Reverse(ListChars(bits))) == LsbValue(bits)
  {
    var r := Reverse(ListChars(bits));
    if bits != [] {
      ReversedListValue(bits[1..]);
      assert r[..|r| - 1] == Reverse(ListChars(bits[1..]));
    }
  }

  /** Decoding the default encoding of a list gives its little-endian value. */
  lemma ListRoundTrip(bits: seq<BitValue>)
    requires |bits| >= 1
    ensures FromLogic(ToLogic(List(bits), None, true, true), false) == LsbValue(bits)
  {
    ReversedListValue(bits);
    var r := Reverse(ListChars(bits));
    assert ZFill(r, |bits|) == r;
    assert ToLogic(List(bits), None, true, true) == r;
  }

  /** The fixed-width encoding of `n` is the unique `w`-character bit string
      whose value is `n mod 2^w`. */
  lemma EncodingIsUnique(n: int, w: nat, s: string)
    requires n + Pow2(w) >= 0
    requires IsBits(s) && |s| == w && Unsigned(s) == n % Pow2(w)
    ensures ToLogic(Int(n), Some(w), true, true) == s
  {
    ToLogicFixedWidth(n, w, true);
    UnsignedInjective(ToLogic(Int(n), Some(w), true, true), s);
  }

  /** Non-negative integer cases checked by lib.py's own tests. */
  lemma UnsignedExamples()
    ensures ToLogic(Int(1), Some(3), true, true) == "001"
    ensures ToLogic(Int(2), None, true, true) == "10"
    ensures ToLogic(Int(5), None, true, true) == "101"
    ensures ToLogic(Int(0), None, true, true) == "0"
  {
    assert "001"[..2] == "00" && "00"[..1] == "0" && "0"[..0] == [];
    EncodingIsUnique(1, 3, "001");
    BitLengthExact(2, 2);
    AutoWidthIsFixedWidth(2, true, true);
    EncodingIsUnique(2, 2, "10");
    BitLengthExact(5, 3);
    AutoWidthIsFixedWidth(5, true, true);
    assert "101"[..2] == "10" && "10"[..1] == "1" && "1"[..0] == [];
    EncodingIsUnique(5, 3, "101");
    AutoWidthIsFixedWidth(0, true, true);
    EncodingIsUnique(0, 1, "0");
  }

  /** Negative integer cases checked by lib.py's own tests: the automatic
      width adds a sign bit to the two's complement. */
  lemma SignedExamples()
    ensures ToLogic(Int(-5), None, true, true) == "1011"
    ensures ToLogic(Int(-1), None, true, true) == "11"
  {
    MinusFive();
    MinusOne();
  }

  lemma MinusOne()
    ensures ToLogic(Int(-1), None, true, true) == "11"
  {
    BitLengthExact(1, 1);
    assert AutoWidth(-1) == 2;
    AutoWidthIsFixedWidth(-1, true, true);
    assert Unsigned("1") == 1 by { assert "1"[..0] == []; }
    assert Unsigned("11") == 3 by { assert "11"[..1] == "1"; }
    NegativeMod(-1, 4);
    EncodingIsUnique(-1, 2, "11");
  }

  lemma MinusFive()
    ensures ToLogic(Int(-5), None, true, true) == "1011"
  {
    BitLengthExact(5, 3);
    Eleven();
    assert Pow2(4) == 16;
    NegativeAutoWidth(-5, 4, "1011");
  }

  /** A negative integer without a width is its two's complement in its
      automatic width. */
  lemma NegativeAutoWidth(n: int, w: nat, s: string)
    requires n < 0 && AutoWidth(n) == w && IsBits(s) && |s| == w && Unsigned(s) == n + Pow2(w)
    ensures ToLogic(Int(n), None, true, true) == s
  {
    AutoWidthIsFixedWidth(n, true, true);
    NegativeMod(n, Pow2(w));
    EncodingIsUnique(n, w, s);
  }

  lemma Eleven()
    ensures Unsigned("1011") == 11
  {
    assert Unsigned("1") == 1 by { assert "1"[..0] == []; }
    assert Unsigned("10") == 2 by { assert "10"[..1] == "1"; }
    assert Unsigned("101") == 5 by { assert "101"[..2] == "10"; }
    assert "1011"[..3] == "101";
  }

  /** Truncated integer cases checked by lib.py's own tests. */
  lemma TruncationExamples()
    ensures ToLogic(Int(15), Some(5), true, true) == "01111"
    ensures ToLogic(Int(15), Some(2), true, true) == "11"
  {
    assert "01111"[..4] == "0111" && "0111"[..3] == "011" && "011"[..2] == "01" && "01"[..1] == "0";
    EncodingIsUnique(15, 5, "01111");
    EncodingIsUnique(15, 2, "11");
  }

  /** Little-endian integer cases checked by lib.py's own tests. */
  lemma EndianExamples()
    ensures ToLogic(Int(6), None, true, false) == "011"
    ensures ToLogic(Int(6), Some(2), true, false) == "01"
  {
    BitLengthExact(6, 3);
    AutoWidthIsFixedWidth(6, true, false);
    EncodingIsUnique(6, 3, "110");
    EncodingIsUnique(6, 2, "10");
    LittleEndianIsReverse(Int(6), Some(3), true);
    LittleEndianIsReverse(Int(6), Some(2), true);
    assert Reverse("110") == "011" && Reverse("10") == "01";
  }

  /** The remaining integer cases checked by lib.py's own tests: the default
      big-endian order, the two leading padding bits of a wide value, and a
      value beyond 32 bits. */
  lemma WideExamples()
    ensures ToLogic(Int(6), None, true, true) == "110"
    ensures ToLogic(Int(3), Some(4), true, true)[..2] == "00"
    ensures ToLogic(Int(Pow2(32)), None, true, true) == "1" + Repeat('0', 32)
  {
    SixBig();
    ThreeInFour();
    TwoToThe32();
  }

  lemma SixBig()
    ensures ToLogic(Int(6), None, true, true) == "110"
  {
    BitLengthExact(6, 3);
    AutoWidthIsFixedWidth(6, true, true);
    assert Unsigned("110") == 6 by {
      assert "110"[..2] == "11" && "11"[..1] == "1" && "1"[..0] == [];
    }
    EncodingIsUnique(6, 3, "110");
  }

  lemma ThreeInFour()
    ensures ToLogic(Int(3), Some(4), true, true)[..2] == "00"
  {
    assert Unsigned("0011") == 3 by {
      assert "0011"[..3] == "001" && "001"[..2] == "00" && "00"[..1] == "0" && "0"[..0] == [];
    }
    EncodingIsUnique(3, 4, "0011");
  }

  lemma TwoToThe32()
    ensures ToLogic(Int(Pow2(32)), None, true, true) == "1" + Repeat('0', 32)
  {
    PowerOfTwoEncoding(32);
  }

  /** `2^k` is written as a one followed by `k` zeros. */
  lemma PowerOfTwoEncoding(k: nat)
    ensures ToLogic(Int(Pow2(k)), None, true, true) == "1" + Repeat('0', k)
  {
    var n, s := Pow2(k), "1" + Repeat('0', k);
    var p := Pow2(k + 1);
    assert p == 2 * n;
    BitLengthExact(n, k + 1);
    AutoWidthIsFixedWidth(n, true, true);
    OneThenZeros(k);
    ModOfSplit(n, 0, n, p);
    EncodingIsUnique(n, k + 1, s);
  }

  lemma OneThenZeros(k: nat)
    ensures var s := "1" + Repeat('0', k); IsBits(s) && |s| == k + 1 && Unsigned(s) == Pow2(k)
  {
    var z := Repeat('0', k);
    UnsignedConcat("1", z);
    UnsignedZeros(k);
    assert Unsigned("1") == 1 by { assert "1"[..0] == []; }
    assert Unsigned("1" + z) == Pow2(k);
  }

  /** List cases checked by lib.py's own tests. */
  lemma ListExamples()
    ensures ToLogic(List([0, 1, 1, 0]), None, true, true) == "0110"
    ensures ToLogic(List([1, 1, 1, 0, 0, 0]), None, true, true) == "000111"
    ensures ToLogic(List([1, 1, 1, 0, 0, 0]), None, true, false) == "111000"
  {
    ListFour();
    ListSix();
  }

  lemma ListFour()
    ensures ToLogic(List([0, 1, 1, 0]), None, true, true) == "0110"
  {
    var a := [0, 1, 1, 0];
    forall k | 0 <= k < 4
      ensures "0110"[k] == BitChar(a[3 - k])
    {
      if k == 0 {} else if k == 1 {} else if k == 2 {} else {}
    }
    ListDefault(a, "0110");
  }

  lemma ListSix()
    ensures ToLogic(List([1, 1, 1, 0, 0, 0]), None, true, true) == "000111"
    ensures ToLogic(List([1, 1, 1, 0, 0, 0]), None, true, false) == "111000"
  {
    var b := [1, 1, 1, 0, 0, 0];
    forall k | 0 <= k < 6
      ensures "000111"[k] == BitChar(b[5 - k]) && "111000"[k] == BitChar(b[k])
    {
      if k == 0 {} else if k == 1 {} else if k == 2 {} else if k == 3 {} else if k == 4 {} else {}
    }
    ListDefault(b, "000111");
    ListLittle(b, "111000");
  }

  /** A list's default encoding, character by character. */
  lemma ListDefault(bits: seq<BitValue>, s: string)
    requires |s| == |bits|
    requires forall k :: 0 <= k < |bits| ==> s[k] == BitChar(bits[|bits| - 1 - k])
    ensures ToLogic(List(bits), None, true, true) == s
  {
    ListToLogic(bits, true);
  }

  /** A list's default little-endian encoding, character by character. */
  lemma ListLittle(bits: seq<BitValue>, s: string)
    requires |s| == |bits|
    requires forall k :: 0 <= k < |bits| ==> s[k] == BitChar(bits[k])
    ensures ToLogic(List(bits), None, true, false) == s
  {
    ListToLogic(bits, true);
  }

  /** Truncated list cases checked by lib.py's own tests. */
  lemma ListTruncationExamples()
    ensures ToLogic(List([1, 0, 1, 0]), Some(3), true, true) == "101"
    ensures ToLogic(List([1, 1, 0, 0, 1]), Some(2), true, false) == "11"
  {
    TruncatedFour();
    TruncatedFive();
  }

  lemma TruncatedFour()
    ensures ToLogic(List([1, 0, 1, 0]), Some(3), true, true) == "101"
  {
    var a := [1, 0, 1, 0];
    forall k | 0 <= k < 4
      ensures "0101"[k] == BitChar(a[3 - k])
    {
      if k == 0 {} else if k == 1 {} else if k == 2 {} else {}
    }
    ListDefault(a, "0101");
    ListTruncation(a, 3);
    assert "0101"[1..] == "101";
  }

  lemma TruncatedFive()
    ensures ToLogic(List([1, 1, 0, 0, 1]), Some(2), true, false) == "11"
  {
    var b := [1, 1, 0, 0, 1];
    forall k | 0 <= k < 5
      ensures "10011"[k] == BitChar(b[4 - k])
    {
      if k == 0 {} else if k == 1 {} else if k == 2 {} else if k == 3 {} else {}
    }
    ListDefault(b, "10011");
    ListTruncation(b, 2);
    assert "10011"[3..] == "11";
    LittleEndianIsReverse(List(b), Some(2), true);
    assert Reverse("11") == "11";
  }

  lemma FromLogicExamples()
    ensures FromLogic("1010", false) == 10 && FromLogic("1010", true) == -6
    ensures FromLogic("00000101", false) == 5
  {
    assert "1010"[..3] == "101" && "101"[..2] == "10" && "10"[..1] == "1" && "1"[..0] == [];
    assert "00000101" == "00000" + "101";
    UnsignedConcat("00000", "101");
    assert Unsigned("00000") == 0 by {
      UnsignedZeros(5);
      assert Repeat('0', 5) == "00000";
    }
  }
}
