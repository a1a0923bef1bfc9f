/** The functional-model side of sw-drivers/python/src/veriti/model.py: port
    modes, the width-bounded `Signal` register built on the bit codec, and the
    collection of a model's ports by mode. A model's attributes are passed as
    a sequence of (attribute name, signal) pairs and the design interface as
    its port list. */
module SignalModel {
  import opened Wrappers
  import opened Text
  import opened BitCodec
  import opened Configuration

  /** The direction of a port; `INFER` defers to the design interface. */
  datatype Mode = IN | OUT | INOUT | LOCAL | INFER

  /** The lower-case spelling of each mode. */
  function ModeName(m: Mode): string {
    match m
    case IN => "in"
    case OUT => "out"
    case INOUT => "inout"
    case LOCAL => "local"
    case INFER => "infer"
  }

  /** `Mode.from_str`: the four port directions, ignoring case; `Err` where
      Python raises, which includes "infer". */
  function ModeFromStr(s: string): (r: Result<Mode>)
    ensures r.Ok? <==> Lower(s) in {"in", "out", "inout", "local"}
    ensures r.Ok? ==> r.value != INFER && ModeName(r.value) == Lower(s)
  {
    var t := Lower(s);
    if t == "in" then Ok(IN)
    else if t == "out" then Ok(OUT)
    else if t == "inout" then Ok(INOUT)
    else if t == "local" then Ok(LOCAL)
    else Err("Failed to convert str " + t + " to type Mode")
  }

  /** Every direction is read back from its name in either case; "infer" is refused. */
  lemma ModeNameRoundTrip(m: Mode)
    ensures m != INFER ==> ModeFromStr(ModeName(m)) == Ok(m)
    ensures m != INFER ==> ModeFromStr(Upper(ModeName(m))) == Ok(m)
    ensures ModeFromStr(ModeName(INFER)).Err?
  {
    if m != INFER {
      ModeReadsBack(m);
    }
    InferRefused();
  }

  lemma ModeReadsBack(m: Mode)
    requires m != INFER
    ensures ModeFromStr(ModeName(m)) == Ok(m) && ModeFromStr(Upper(ModeName(m))) == Ok(m)
  {
    var n := ModeName(m);
    ModeNameSmall(m);
    LowerOfSmall(n);
  }

  lemma InferRefused()
    ensures ModeFromStr(ModeName(INFER)).Err?
  {
    ModeNameSmall(INFER);
    LowerOfSmall(ModeName(INFER));
  }

  lemma ModeNameSmall(m: Mode)
    ensures forall i :: 0 <= i < |ModeName(m)| ==> 'a' <= ModeName(m)[i] <= 'z'
  {
  }

  /** Bit `i` of the least-significant-first view of `w`-bit `n` in either
      endianness. */
  lemma LsbView(n: int, w: nat, i: nat, bigEndian: bool)
    requires n + Pow2(w) >= 0 && i < w
    ensures var s := ToLogic(Int(n), Some(w), true, bigEndian);
      (if bigEndian then Reverse(s) else s)[i] == BitChar(Bit(n % Pow2(w), i))
  {
    var big := ToLogic(Int(n), Some(w), true, true);
    ToLogicBit(n, w, i);
    ToLogicFixedWidth(n, w, true);
    LittleEndianIsReverse(Int(n), Some(w), true);
    assert Reverse(big)[i] == big[w - 1 - i];
  }

  /** A `w`-bit string read back (most significant first, `k`) as `n` is
      printed again as the same string in its own bit order. */
  lemma StringReadsBack(s: string, k: string, n: int, w: nat, bigEndian: bool, signed: bool)
    requires w >= 1 && |s| == w && k == (if bigEndian then s else Reverse(s))
    requires IsBits(k) && n == FromLogic(k, signed)
    ensures n + Pow2(w - 1) >= 0 && n < Pow2(w)
    ensures ToLogic(Int(n), Some(w), true, bigEndian) == s
  {
    Pow2Monotonic(w - 1, w);
    assert n % Pow2(w) == Unsigned(k) by {
      UnsignedBound(k);
      if n < 0 {
        NegativeMod(n, Pow2(w));
      } else {
        ModOfSplit(n, 0, n, Pow2(w));
      }
    }
    EncodingIsUnique(n, w, k);
    if !bigEndian {
      LittleEndianIsReverse(Int(n), Some(w), true);
      ReverseReverse(s);
    }
  }

  /** The characters a string `set` converts on a signal of width `w`: most
      significant first after undoing little-endian order, and only the
      rightmost `w` of them. */
  function KeptBits(s: string, w: nat, bigEndian: bool): (r: string)
    ensures |r| == if |s| < w then |s| else w
    ensures bigEndian ==> r == s[|s| - |r|..]
    ensures !bigEndian ==> r == Reverse(s[..|r|])
  {
    var msb := if bigEndian then s else Reverse(s);
    if w < |msb| then msb[|msb| - w..] else msb
  }

  /** The width `Signal.__init__` settles on: a missing or non-positive
      width becomes 1. */
  function SignalWidth(requestedWidth: Option<int>): (w: nat)
    ensures w >= 1
    ensures requestedWidth.Some? && requestedWidth.value >= 1 ==> w == requestedWidth.value
    ensures requestedWidth.None? || requestedWidth.value < 1 ==> w == 1
  {
    if requestedWidth.Some? && requestedWidth.value > 0 then requestedWidth.value else 1
  }

  /** `Signal(width, mode, value=text, big_endian, name)` with a string
      `value`: `__init__` starts from 0 and runs `set(text, is_signed=False)`,
      so the signal exists exactly when the kept characters are a non-empty
      binary string, and then holds their unsigned value; a string of
      exactly the signal's width prints back unchanged. */
  method SignalFromText(requestedWidth: Option<int>, mode: Mode, text: string, bigEndian: bool, name: Option<string>)
    returns (r: Result<Signal>)
    ensures var k := KeptBits(text, SignalWidth(requestedWidth), bigEndian);
      r.Ok? <==> k != [] && IsBits(k)
    ensures r.Ok? ==> fresh(r.value) && r.value.Valid() && r.value.width == SignalWidth(requestedWidth)
    ensures r.Ok? ==> r.value.mode == mode && r.value.bigEndian == bigEndian && r.value.name == name
    ensures r.Ok? ==> r.value.value == FromLogic(KeptBits(text, SignalWidth(requestedWidth), bigEndian), false)
    ensures r.Ok? && |text| == SignalWidth(requestedWidth) ==> r.value.AsLogic() == text
  {
    var sig := new Signal(requestedWidth, mode, 0, bigEndian, name);
    var ok := sig.SetStr(text, false);
    if !ok {
      return Err("invalid literal for int() with base 2");
    }
    r := Ok(sig);
  }

  /** A hardware port value: a two's-complement-capable integer of `width`
      bits, printed most-significant-bit first when `bigEndian`. */
  class Signal {
    const mode: Mode
    const width: nat
    const bigEndian: bool
    const name: Option<string>
    var value: int

    /** The width is positive and the value fits `width` bits, as an unsigned
        value or (after a signed string `set`) as a signed one. */
    ghost predicate Valid()
      reads this
    {
      width >= 1 && value + Pow2(width - 1) >= 0 && value < Pow2(width)
    }

    /** `Signal(width, mode, value, big_endian, name)`: a missing or
        non-positive width becomes 1 and the initial value is wrapped to it. */
    constructor(requestedWidth: Option<int>, mode: Mode, initial: int, bigEndian: bool, name: Option<string>)
      ensures width == if requestedWidth.Some? && requestedWidth.value > 0 then requestedWidth.value else 1
      ensures this.mode == mode && this.bigEndian == bigEndian && this.name == name
      ensures value == initial % Pow2(width)
      ensures Valid()
    {
      this.mode := mode;
      width := if requestedWidth.Some? && requestedWidth.value > 0 then requestedWidth.value else 1;
      this.bigEndian := bigEndian;
      this.name := name;
      value := 0;
      new;
      SetInt(initial);
    }

    /** `max()`: the largest unsigned value of `width` bits, `width` ones. */
    function Max(): (r: nat)
      ensures Unsigned(Repeat('1', width)) == r
      ensures forall s: string :: |s| == width ==> Unsigned(s) <= r
    {
      Pow2m1IsAllOnes(width);
      Pow2m1(width)
    }

    /** `min()` */
    function Min(): int {
      0
    }

    /** `as_logic()`: exactly `width` binary characters holding the value
        modulo `2^width`, least significant bit last when big-endian and
        first otherwise. */
    function AsLogic(): (r: string)
      reads this
      requires Valid()
      ensures |r| == width && IsBits(r)
      ensures bigEndian ==> Unsigned(r) == value % Pow2(width)
      ensures !bigEndian ==> Unsigned(Reverse(r)) == value % Pow2(width)
    {
      ToLogicFixedWidth(value, width, bigEndian);
      LittleEndianIsReverse(Int(value), Some(width), true);
      ReverseReverse(ToLogic(Int(value), Some(width), true, true));
      ToLogic(Int(value), Some(width), true, bigEndian)
    }

    /** `set(num)` for an integer: the value wraps modulo `2^width`. */
    method SetInt(num: int)
      requires Valid()
      modifies this
      ensures value == num % Pow2(width)
      ensures Min() <= value <= Max()
      ensures Valid()
    {
      value := num % Pow2(width);
    }

    /** The characters a string `set` converts: most significant first after
        undoing little-endian order, and only the rightmost `width` of them. */
    function Kept(s: string): (r: string)
      ensures |r| == if |s| < width then |s| else width
      ensures bigEndian ==> r == s[|s| - |r|..]
      ensures !bigEndian ==> r == Reverse(s[..|r|])
    {
      KeptBits(s, width, bigEndian)
    }

    /** `set(s, is_signed)` for a string. `ok` is false when nothing, or a
        character other than '0' and '1', is left to convert, and then the
        value is unchanged. Python raises on these, except on the '_'
        separators and trailing whitespace that `int(.., 2)` also reads. A
        string of exactly `width` characters reads back unchanged from
        `as_logic()`, whatever the endianness or signedness. */
    method SetStr(s: string, signed: bool) returns (ok: bool)
      requires Valid()
      modifies this
      ensures ok <==> Kept(s) != [] && IsBits(Kept(s))
      ensures ok ==> value == FromLogic(Kept(s), signed)
      ensures ok && !signed ==> Min() <= value <= Max()
      ensures !ok ==> value == old(value)
      ensures Valid()
      ensures ok && |s| == width ==> AsLogic() == s
    {
      var k := Kept(s);
      if k == [] || !IsBits(k) {
        return false;
      }
      value := FromLogic(k, signed);
      ok := true;
      Pow2Monotonic(|k|, width);
      Pow2Monotonic(|k| - 1, width - 1);
      Pow2m1IsAllOnes(width);
      if |s| == width {
        WidthStringReadsBack(s, signed);
      }
    }

    /** Helper for `SetStr`: a full-width string is what `as_logic` prints. */
    lemma WidthStringReadsBack(s: string, signed: bool)
      requires width >= 1 && |s| == width
      requires IsBits(Kept(s)) && Kept(s) != []
      requires value == FromLogic(Kept(s), signed)
      ensures Valid() && AsLogic() == s
    {
      KeptFullWidth(s);
      StringReadsBack(s, Kept(s), value, width, bigEndian, signed);
    }

    /** `get_bit(index)` / `self[index]`: bit `index` of the value counted from
        the least significant bit, whatever the storage order; a negative
        index counts from the most significant end, and one outside
        `[-width, width)` is Python's `IndexError`. */
    function GetBit(index: int): (r: Result<char>)
      reads this
      requires Valid()
      ensures r.Ok? <==> -(width as int) <= index < width
      ensures r.Ok? ==> r.value == BitChar(Bit(value % Pow2(width), if index < 0 then index + width else index))
    {
      var vec := AsLogic();
      var lsbFirst := if bigEndian then Reverse(vec) else vec;
      if -(width as int) <= index < width then
        var i := if index < 0 then index + width else index;
        LsbFirstBit(i);
        Ok(lsbFirst[i])
      else Err("string index out of range")
    }

    /** The least-significant-first view of `as_logic()` holds bit `i` at `i`. */
    lemma LsbFirstBit(i: nat)
      requires Valid() && i < width
      ensures (if bigEndian then Reverse(AsLogic()) else AsLogic())[i] == BitChar(Bit(value % Pow2(width), i))
    {
      assert Pow2(width) == 2 * Pow2(width - 1);
      LsbView(value, width, i, bigEndian);
    }

    /** `set_bit(key, bit)` / `self[key] = bit`, where `bit` is `int(value)`:
        bit `key` becomes 1 exactly when `bit == 1`, every other bit keeps
        its value, and the value is re-read unsigned. A key outside
        `[0, width)` (negative keys included) leaves `as_logic()` unchanged. */
    method SetBit(key: int, bit: int)
      requires Valid()
      modifies this
      ensures Valid() && Min() <= value <= Max()
      ensures forall i :: 0 <= i < width ==>
        Bit(value, i) == if i == key then (if bit == 1 then 1 else 0) else Bit(old(value) % Pow2(width), i)
      ensures !(0 <= key < width) ==> value == old(value) % Pow2(width)
    {
      ghost var v0 := value % Pow2(width);
      var newVal := if bit == 1 then '1' else '0';
      var vec := AsLogic();
      if bigEndian {
        vec := Reverse(vec);
      }
      var result := RebuildWith(vec, key, newVal);
      LsbFirstBits();
      ReplacedValue(vec, key, newVal, v0, width);
      ghost var msb := Reverse(result);
      if bigEndian {
        result := Reverse(result);
      }
      assert Kept(result) == msb by {
        KeptFullWidth(result);
        ReverseReverse(msb);
      }
      var ok := SetStr(result, false);
      assert value == Unsigned(msb);
    }

    /** The least-significant-first view of `as_logic()`, bit by bit. */
    lemma LsbFirstBits()
      requires Valid()
      ensures forall j :: 0 <= j < width ==>
        (if bigEndian then Reverse(AsLogic()) else AsLogic())[j] == BitChar(Bit(value % Pow2(width), j))
    {
      forall j | 0 <= j < width
        ensures (if bigEndian then Reverse(AsLogic()) else AsLogic())[j] == BitChar(Bit(value % Pow2(width), j))
      {
        LsbFirstBit(j);
      }
    }

    /** A full-width string is converted whole, most significant first. */
    lemma KeptFullWidth(s: string)
      requires |s| == width
      ensures Kept(s) == if bigEndian then s else Reverse(s)
    {
      assert s[..|s|] == s;
      assert s[|s| - |s|..] == s;
    }

    /** The value lies between `min()` and `max()` inclusive. */
    predicate InRange()
      reads this
    {
      Min() <= value <= Max()
    }

    /** `rand()`: a value chosen between `min()` and `max()` inclusive. */
    method Rand()
      requires Valid()
      modifies this
      ensures InRange()
      ensures Valid()
    {
      var v :| Min() <= v <= Max();
      assert v < Pow2(width) by { assert Max() == Pow2m1(width) == Pow2(width) - 1; }
      value := v;
    }

    /** `__eq__`: signals compare by width and value only. */
    predicate Equals(other: Signal)
      reads this, other
    {
      width == other.width && value == other.value
    }
  }

  /** The loop of `__setitem__`: copy `vec` character by character, putting
      `c` at position `key`. */
  method RebuildWith(vec: string, key: int, c: char) returns (result: string)
    ensures result == Replaced(vec, key, c)
  {
    result := "";
    var i := 0;
    while i < |vec|
      invariant 0 <= i <= |vec| && |result| == i
      invariant forall j :: 0 <= j < i ==> result[j] == if j == key then c else vec[j]
    {
      if key == i {
        result := result + [c];
      } else {
        result := result + [vec[i]];
      }
      i := i + 1;
    }
  }

  /** `vec` with its character at `key` replaced by `c` (no change for a key
      outside the string). */
  function Replaced(vec: string, key: int, c: char): (r: string)
    ensures |r| == |vec|
    ensures forall j :: 0 <= j < |vec| ==> r[j] == if j == key then c else vec[j]
  {
    seq(|vec|, j requires 0 <= j < |vec| => if j == key then c else vec[j])
  }

  /** Replacing bit `key` of a least-significant-first bit string of `v0`
      gives, read back most significant first, a `w`-bit value that differs
      from `v0` at most in bit `key`, and equals `v0` for a key out of range. */
  lemma ReplacedValue(lsb: string, key: int, c: char, v0: nat, w: nat)
    requires |lsb| == w && (c == '0' || c == '1') && v0 < Pow2(w)
    requires forall j :: 0 <= j < w ==> lsb[j] == BitChar(Bit(v0, j))
    ensures IsBits(Reverse(Replaced(lsb, key, c))) && |Reverse(Replaced(lsb, key, c))| == w
    ensures Unsigned(Reverse(Replaced(lsb, key, c))) < Pow2(w)
    ensures forall j :: 0 <= j < w ==>
      Bit(Unsigned(Reverse(Replaced(lsb, key, c))), j) == if j == key then Digit(c) else Bit(v0, j)
    ensures !(0 <= key < w) ==> Unsigned(Reverse(Replaced(lsb, key, c))) == v0
  {
    var msb := Reverse(Replaced(lsb, key, c));
    UnsignedBound(msb);
    forall j | 0 <= j < w
      ensures Bit(Unsigned(msb), j) == if j == key then Digit(c) else Bit(v0, j)
    {
      BitOfUnsigned(msb, j);
      assert msb[w - 1 - j] == Replaced(lsb, key, c)[j];
      BitIsBinary(v0, j);
    }
    if !(0 <= key < w) {
      BitsDetermine(Unsigned(msb), v0, w);
    }
  }

  lemma BitIsBinary(x: nat, i: nat)
    ensures Bit(x, i) <= 1
  {
  }

  /** Equal signals of the same storage order print the same string; the
      converse holds for non-negative values, but a negative value (left by a
      signed string `set`) and its unsigned residue print alike yet differ. */
  lemma EqualsAndLogic(a: Signal, b: Signal)
    requires a.Valid() && b.Valid() && a.bigEndian == b.bigEndian
    ensures a.Equals(b) ==> a.AsLogic() == b.AsLogic()
    ensures a.width == b.width && a.value >= 0 && b.value >= 0 && a.AsLogic() == b.AsLogic() ==> a.Equals(b)
  {
    if a.width == b.width && a.value >= 0 && b.value >= 0 && a.AsLogic() == b.AsLogic() {
      var w := a.width;
      ModOfSplit(a.value, 0, a.value, Pow2(w));
      ModOfSplit(b.value, 0, b.value, Pow2(w));
      ReverseReverse(a.AsLogic());
    }
  }

  /** A model attribute: its Python name and the signal it holds. */
  datatype Attribute = Attribute(key: string, sig: Signal)

  /** The name a signal is looked up by: its explicit name, else the attribute name. */
  function DefinedName(a: Attribute): string {
    a.sig.name.GetOr(a.key)
  }

  /** The signal of the last attribute with defined name `n`: later
      attributes overwrite earlier ones in the port dictionary. */
  function LastSignal(attrs: seq<Attribute>, n: string): Option<Signal>
  {
    if attrs == [] then None
    else if DefinedName(attrs[|attrs| - 1]) == n then Some(attrs[|attrs| - 1].sig)
    else LastSignal(attrs[..|attrs| - 1], n)
  }

  /** The signal found for a name is held by an attribute of that name, and
      no signal is found only when no attribute has the name. */
  lemma {:induction false} LastSignalFound(attrs: seq<Attribute>, n: string)
    ensures LastSignal(attrs, n).Some? ==>
      exists i :: 0 <= i < |attrs| && attrs[i].sig == LastSignal(attrs, n).value && DefinedName(attrs[i]) == n
    ensures LastSignal(attrs, n).None? ==> forall i :: 0 <= i < |attrs| ==> DefinedName(attrs[i]) != n
  {
    if attrs != [] && DefinedName(attrs[|attrs| - 1]) != n {
      var init := attrs[..|attrs| - 1];
      LastSignalFound(init, n);
      assert forall i :: 0 <= i < |init| ==> init[i] == attrs[i];
    }
  }

  /** The mode a port is collected under: its own, or the interface's when `INFER`. */
  function ResolveMode(sig: Signal, port: PortInfo): Result<Mode> {
    if sig.mode == INFER then ModeFromStr(port.mode) else Ok(sig.mode)
  }

  /** Port `i` of the interface belongs to some attribute: its name is some
      attribute's defined name and `i` is where `locate_port` finds it. */
  predicate Bound(attrs: seq<Attribute>, ports: seq<PortInfo>, i: int) {
    0 <= i < |ports| && LastSignal(attrs, ports[i].name).Some? && FirstPort(ports, ports[i].name) == i
  }

  /** Port `i` is bound and resolves to `mode`. */
  predicate Selected(attrs: seq<Attribute>, ports: seq<PortInfo>, mode: Mode, i: int) {
    Bound(attrs, ports, i) && ResolveMode(LastSignal(attrs, ports[i].name).value, ports[i]) == Ok(mode)
  }

  /** `entry` is the pair `get_ports` lists for the selected port `i`. */
  predicate Listed(attrs: seq<Attribute>, ports: seq<PortInfo>, mode: Mode, i: int, entry: (string, Signal)) {
    Selected(attrs, ports, mode, i) && entry == (ports[i].name, LastSignal(attrs, ports[i].name).value)
  }

  /** `s` is the signal of some `IN` port of the interface. */
  ghost predicate IsInputPort(attrs: seq<Attribute>, ports: seq<PortInfo>, s: Signal) {
    exists i :: Selected(attrs, ports, IN, i) && s == LastSignal(attrs, ports[i].name).value
  }

  /** Every bound port whose signal infers its mode names a valid mode. */
  predicate ModesResolve(attrs: seq<Attribute>, ports: seq<PortInfo>) {
    forall i :: 0 <= i < |ports| && Bound(attrs, ports, i) ==> ResolveMode(LastSignal(attrs, ports[i].name).value, ports[i]).Ok?
  }

  /** The first half of `get_ports`: the port dictionary, mapping each
      defined name the interface knows to the last signal with that name. */
  method PortTable(attrs: seq<Attribute>, ports: seq<PortInfo>) returns (table: map<string, Signal>)
    ensures forall n :: n in table <==> LastSignal(attrs, n).Some? && FirstPort(ports, n) != -1
    ensures forall n :: n in table ==> table[n] == LastSignal(attrs, n).value
  {
    table := map[];
    var i := 0;
    while i < |attrs|
      invariant 0 <= i <= |attrs|
      invariant forall n :: n in table <==> LastSignal(attrs[..i], n).Some? && FirstPort(ports, n) != -1
      invariant forall n :: n in table ==> table[n] == LastSignal(attrs[..i], n).value
    {
      LastSignalSnoc(attrs, i);
      var n := DefinedName(attrs[i]);
      if FirstPort(ports, n) != -1 {
        table := table[n := attrs[i].sig];
      }
      i := i + 1;
    }
    assert attrs[..|attrs|] == attrs;
  }

  lemma LastSignalSnoc(attrs: seq<Attribute>, i: nat)
    requires i < |attrs|
    ensures forall n :: LastSignal(attrs[..i + 1], n) == (if DefinedName(attrs[i]) == n then Some(attrs[i].sig) else LastSignal(attrs[..i], n))
  {
    var pre := attrs[..i + 1];
    assert pre[..|pre| - 1] == attrs[..i] && pre[|pre| - 1] == attrs[i];
    forall n
      ensures LastSignal(pre, n) == if DefinedName(attrs[i]) == n then Some(attrs[i].sig) else LastSignal(attrs[..i], n)
    {
    }
  }

  /** `get_ports(model, mode)`: the (name, signal) pairs of the bound ports
      whose resolved mode is `mode`, in ascending interface order (the
      ghost `at` gives each pair's port index). `Err` where `Mode.from_str`
      raises for an inferred mode. */
  method GetPorts(attrs: seq<Attribute>, ports: seq<PortInfo>, mode: Mode)
      returns (r: Result<seq<(string, Signal)>>, ghost at: seq<nat>)
    ensures r.Ok? <==> ModesResolve(attrs, ports)
    ensures r.Ok? ==> |at| == |r.value|
    ensures r.Ok? ==> forall k :: 0 <= k < |at| ==> Listed(attrs, ports, mode, at[k], r.value[k])
    ensures r.Ok? ==> forall k, l :: 0 <= k < l < |at| ==> at[k] < at[l]
    ensures r.Ok? ==> forall i :: Selected(attrs, ports, mode, i) ==> i in at
  {
    var table := PortTable(attrs, ports);
    var out: seq<(string, Signal)> := [];
    at := [];
    var j := 0;
    while j < |ports|
      invariant 0 <= j <= |ports|
      invariant forall i :: 0 <= i < j && Bound(attrs, ports, i) ==>
        ResolveMode(LastSignal(attrs, ports[i].name).value, ports[i]).Ok?
      invariant |at| == |out|
      invariant forall k :: 0 <= k < |at| ==> at[k] < j && Listed(attrs, ports, mode, at[k], out[k])
      invariant forall k, l :: 0 <= k < l < |at| ==> at[k] < at[l]
      invariant forall i :: 0 <= i < j && Selected(attrs, ports, mode, i) ==> i in at
    {
      var n := ports[j].name;
      if n in table && FirstPort(ports, n) == j {
        var sig := table[n];
        assert Bound(attrs, ports, j) && sig == LastSignal(attrs, n).value;
        var m := ResolveMode(sig, ports[j]);
        if m.Err? {
          return Err(m.msg), at;
        }
        if m.value == mode {
          assert Listed(attrs, ports, mode, j, (n, sig));
          out := out + [(n, sig)];
          at := at + [j];
        } else {
          assert !Selected(attrs, ports, mode, j);
        }
      } else {
        assert !Bound(attrs, ports, j);
      }
      j := j + 1;
    }
    r := Ok(out);
  }

  /** The signals a model holds. */
  function Signals(attrs: seq<Attribute>): set<Signal> {
    set a | a in attrs :: a.sig
  }

  /** `randomize(model)`: every `IN` port's signal gets a value in
      `[min, max]`, and every other signal of the model is untouched; `ok` is
      false where `get_ports` raises, and then nothing changes. */
  method Randomize(attrs: seq<Attribute>, ports: seq<PortInfo>) returns (ok: bool)
    requires forall a :: a in attrs ==> a.sig.Valid()
    modifies Signals(attrs)
    ensures ok <==> ModesResolve(attrs, ports)
    ensures forall a :: a in attrs ==> a.sig.Valid()
    ensures forall i :: ok && Selected(attrs, ports, IN, i) ==>
      var s := LastSignal(attrs, ports[i].name).value; s.Min() <= s.value <= s.Max()
    ensures forall a :: a in attrs && !(ok && IsInputPort(attrs, ports, a.sig)) ==> a.sig.value == old(a.sig.value)
  {
    var r, at := GetPorts(attrs, ports, IN);
    if r.Err? {
      return false;
    }
    var sel := r.value;
    var k := 0;
    while k < |sel|
      invariant 0 <= k <= |sel|
      invariant forall a :: a in attrs ==> a.sig.Valid()
      invariant forall l :: 0 <= l < k ==> sel[l].1.InRange()
      invariant forall a :: a in attrs && (forall l :: 0 <= l < k ==> a.sig != sel[l].1) ==> a.sig.value == old(a.sig.value)
    {
      var s := sel[k].1;
      assert s in Signals(attrs) by {
        var n := ports[at[k]].name;
        LastSignalFound(attrs, n);
        var i :| 0 <= i < |attrs| && attrs[i].sig == s && DefinedName(attrs[i]) == n;
        assert attrs[i] in attrs;
      }
      s.Rand();
      k := k + 1;
    }
    ok := true;
    forall i | Selected(attrs, ports, IN, i)
      ensures LastSignal(attrs, ports[i].name).value.InRange()
    {
      var l :| 0 <= l < |at| && at[l] == i;
    }
  }
}
