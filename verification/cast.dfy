/** Casts from the text VHDL writes for its values, as in
    sw-drivers/python/src/veriti/cast.py: booleans, options, integers, and
    aggregates such as `(1,2,3)` or `(0=>true,1=>false)`. */
module Cast {
  import opened Wrappers
  import opened Text

  /** `from_vhdl_bool(s)` */
  function FromVhdlBool(s: string): bool {
    Lower(s) == "true"
  }

  /** `from_vhdl_opt(s)` */
  function FromVhdlOpt(s: string): bool {
    Lower(s) == "enable"
  }

  /** `from_vhdl_int(s)`: `int(s)`; `None` where Python raises `ValueError`. */
  function FromVhdlInt(s: string): Option<int> {
    ParseInt(s)
  }

  lemma LowerUpperChar(c: char)
    ensures LowerChar(UpperChar(c)) == LowerChar(c)
  {
  }

  lemma LowerOfUpper(s: string)
    ensures Lower(Upper(s)) == Lower(s)
  {
    forall i | 0 <= i < |s|
      ensures Lower(Upper(s))[i] == Lower(s)[i]
    {
      LowerUpperChar(s[i]);
    }
  }

  lemma LowerIdempotent(s: string)
    ensures Lower(Lower(s)) == Lower(s)
  {
  }

  /** Booleans and options ignore case: spelling a value in upper or lower
      case does not change how it is read. */
  lemma FlagsIgnoreCase(s: string)
    ensures FromVhdlBool(Upper(s)) == FromVhdlBool(s) && FromVhdlBool(Lower(s)) == FromVhdlBool(s)
    ensures FromVhdlOpt(Upper(s)) == FromVhdlOpt(s) && FromVhdlOpt(Lower(s)) == FromVhdlOpt(s)
  {
    LowerOfUpper(s);
    LowerIdempotent(s);
  }

  lemma LowerIs(s: string, t: string)
    requires |s| == |t| && forall i :: 0 <= i < |s| ==> LowerChar(s[i]) == t[i]
    ensures Lower(s) == t
  {
  }

  lemma FlagExamples()
    ensures FromVhdlBool("true") && FromVhdlBool("TRUE") && FromVhdlBool("True")
    ensures !FromVhdlBool("false") && !FromVhdlBool(" true")
    ensures FromVhdlOpt("ENABLE") && !FromVhdlOpt("true")
  {
    LowerIs("true", "true");
    LowerIs("TRUE", "true");
    LowerIs("True", "true");
    LowerIs("false", "false");
    LowerIs(" true", " true");
    LowerIs("ENABLE", "enable");
  }

  /** Every integer VHDL prints is read back. */
  lemma IntRoundTrip(n: int)
    ensures FromVhdlInt(IntToStr(n)) == Some(n)
  {
    ParseIntToStr(n);
  }

  lemma IntExamples()
    ensures FromVhdlInt("42") == Some(42) && FromVhdlInt("+3") == Some(3)
  {
    FortyTwo();
    PlusThree();
  }

  lemma FortyTwo()
    ensures FromVhdlInt("42") == Some(42)
  {
    ParseDigits("42");
    assert DecimalValue("42") == 42 by { assert "42"[..1] == "4"; }
  }

  lemma PlusThree()
    ensures FromVhdlInt("+3") == Some(3)
  {
    assert "+3"[1..] == "3";
    assert DecimalValue("3") == 3 by { assert "3"[..0] == []; }
    ParsePlus("+3");
  }

  lemma BadIntExamples()
    ensures FromVhdlInt("") == None && FromVhdlInt("-") == None && FromVhdlInt("1.5") == None
  {
    EmptyInt();
    MinusInt();
    PointInt();
  }

  lemma EmptyInt()
    ensures FromVhdlInt("") == None
  {
    StripNoSpace("");
  }

  lemma MinusInt()
    ensures FromVhdlInt("-") == None
  {
    StripNoSpace("-");
    assert "-"[1..] == [];
  }

  lemma PointInt()
    ensures FromVhdlInt("1.5") == None
  {
    assert !AllDigits("1.5") by { assert !IsDigit("1.5"[1]); }
    ParseRefuses("1.5");
  }

  // ---------------------------------------------------------------------------
  // Aggregates

  /** A slot of the list `_from_vhdl_vec` returns: an `int` or a `bool`. */
  datatype Cell = IntCell(i: int) | BoolCell(b: bool)

  /** The element cast `_from_vhdl_vec` is given: `from_vhdl_int` or `from_vhdl_bool`. */
  datatype ElementCast = ToInt | ToBool

  function ApplyCast(fn: ElementCast, x: string): Option<Cell> {
    match fn
    case ToInt => (match FromVhdlInt(x) case Some(n) => Some(IntCell(n)) case None => None)
    case ToBool => Some(BoolCell(FromVhdlBool(x)))
  }

  /** The elements of an aggregate: the text between the first and last
      characters, split on ','. */
  function Elements(s: string): (r: seq<string>)
    ensures |r| >= 1
    ensures Join(r, ",") == Slice(s, 1, |s| - 1)
    ensures forall k :: 0 <= k < |r| ==> Lacks(r[k], ',')
  {
    var inner := Slice(s, 1, |s| - 1);
    SplitSepJoin(inner, ",");
    SplitSepPieces(inner, ",");
    forall k | 0 <= k < |SplitSep(inner, ",")|
      ensures Lacks(SplitSep(inner, ",")[k], ',')
    {
      FindChar(SplitSep(inner, ",")[k], ',');
    }
    SplitSep(inner, ",")
  }

  predicate Positional(x: string) {
    Contains(x, "=>")
  }

  /** `x.split('=>', 2)[0]`: the text before the first "=>". */
  function PositionText(x: string): string
    requires Positional(x)
  {
    x[..Find(x, "=>")]
  }

  /** `x.split('=>', 2)[1]`: the text after the first "=>", up to a second one. */
  function ValueText(x: string): string
    requires Positional(x)
  {
    var rest := x[Find(x, "=>") + 2..];
    var j := Find(rest, "=>");
    if j < 0 then rest else rest[..j]
  }

  /** The slot element `x` at position `i` of `n` writes: its position for a
      plain element, else its `k=>` index, with Python's wrap of a negative
      index; `None` where Python raises. */
  function Slot(x: string, i: nat, n: nat): Option<nat>
  {
    if Positional(x) then
      match ParseInt(PositionText(x))
      case Some(k) => if 0 <= k < n then Some(k) else if -(n as int) <= k < 0 then Some(n + k) else None
      case None => None
    else if i < n then Some(i) else None
  }

  /** What element `x` writes: `fn(v)` for a positional element, `int(x)`
      for a plain one whatever `fn` is. */
  function Written(x: string, fn: ElementCast): Option<Cell>
  {
    if Positional(x) then ApplyCast(fn, ValueText(x))
    else match ParseInt(x) case Some(n) => Some(IntCell(n)) case None => None
  }

  /** One element's effect: the slot it writes and what it writes there, or
      `None` where Python raises. */
  datatype Write = Write(slot: nat, cell: Cell)

  function Action(x: string, i: nat, n: nat, fn: ElementCast): (r: Option<Write>)
    ensures r.Some? ==> r.value.slot < n
    ensures r.Some? <==> Slot(x, i, n).Some? && Written(x, fn).Some?
    ensures r.Some? ==> r.value == Write(Slot(x, i, n).value, Written(x, fn).value)
  {
    var slot, val := Slot(x, i, n), Written(x, fn);
    if slot.None? || val.None? then None else Some(Write(slot.value, val.value))
  }

  function Actions(elems: seq<string>, fn: ElementCast): (r: seq<Option<Write>>)
    ensures |r| == |elems|
    ensures forall i :: 0 <= i < |elems| ==> r[i] == Action(elems[i], i, |elems|, fn)
  {
    seq(|elems|, i requires 0 <= i < |elems| => Action(elems[i], i, |elems|, fn))
  }

  /** Every write stays inside `n` slots. */
  predicate InRange(acts: seq<Option<Write>>, n: nat) {
    forall i :: 0 <= i < |acts| && acts[i].Some? ==> acts[i].value.slot < n
  }

  /** The slots after writes `i..` have been applied in order, or `Err` at
      the first element Python raises on. */
  function FillFrom(cells: seq<Cell>, acts: seq<Option<Write>>, i: nat): (r: Result<seq<Cell>>)
    requires InRange(acts, |cells|) && i <= |acts|
    ensures r.Ok? ==> |r.value| == |cells|
    decreases |acts| - i
  {
    if i == |acts| then Ok(cells)
    else match acts[i]
      case None => Err("invalid element")
      case Some(w) => FillFrom(cells[w.slot := w.cell], acts, i + 1)
  }

  lemma FillStops(cells: seq<Cell>, acts: seq<Option<Write>>, i: nat)
    requires InRange(acts, |cells|) && i < |acts| && acts[i].None?
    ensures FillFrom(cells, acts, i) == Err("invalid element")
  {
  }

  lemma FillStep(cells: seq<Cell>, acts: seq<Option<Write>>, i: nat, w: Write)
    requires InRange(acts, |cells|) && i < |acts| && acts[i] == Some(w)
    ensures w.slot < |cells|
    ensures FillFrom(cells, acts, i) == FillFrom(cells[w.slot := w.cell], acts, i + 1)
  {
  }

  /** `_from_vhdl_vec(s, fn)` as a value. */
  function Vec(s: string, fn: ElementCast): Result<seq<Cell>>
  {
    var elems := Elements(s);
    FillFrom(Repeat(IntCell(0), |elems|), Actions(elems, fn), 0)
  }

  /** `_from_vhdl_vec(s, fn)`: preallocate one zero per element, then apply
      each element in order to the slot it names. */
  method FromVhdlVec(s: string, fn: ElementCast) returns (r: Result<seq<Cell>>)
    ensures r == Vec(s, fn)
  {
    var elements := Elements(s);
    var n := |elements|;
    ghost var acts := Actions(elements, fn);
    var result := new Cell[n](_ => IntCell(0));
    assert result[..] == Repeat(IntCell(0), n);
    var i := 0;
    while i < n
      invariant 0 <= i <= n
      invariant FillFrom(result[..], acts, i) == Vec(s, fn)
    {
      var x := elements[i];
      var slot, val := Slot(x, i, n), Written(x, fn);
      if slot.None? || val.None? {
        FillStops(result[..], acts, i);
        return Err("invalid element");
      }
      FillStep(result[..], acts, i, Write(slot.value, val.value));
      result[slot.value] := val.value;
      i := i + 1;
    }
    r := Ok(result[..]);
  }

  /** `from_vhdl_ints(s)` */
  method FromVhdlInts(s: string) returns (r: Result<seq<Cell>>)
    ensures r == Vec(s, ToInt)
  {
    r := FromVhdlVec(s, ToInt);
  }

  /** `from_vhdl_bools(s)` */
  method FromVhdlBools(s: string) returns (r: Result<seq<Cell>>)
    ensures r == Vec(s, ToBool)
  {
    r := FromVhdlVec(s, ToBool);
  }

  /** Write `j` is the last of writes `i..` to target slot `k`. */
  predicate LastWriter(acts: seq<Option<Write>>, i: nat, k: nat, j: nat) {
    i <= j < |acts| && acts[j].Some? && acts[j].value.slot == k &&
    forall l :: j < l < |acts| && acts[l].Some? ==> acts[l].value.slot != k
  }

  /** After a successful fill, every write was defined, a slot no write
      targets keeps its old content, and any other slot holds what its last
      writer wrote. */
  lemma {:induction false} FillLastWriter(cells: seq<Cell>, acts: seq<Option<Write>>, i: nat, k: nat)
    requires InRange(acts, |cells|) && i <= |acts| && k < |cells|
    requires FillFrom(cells, acts, i).Ok?
    ensures forall l :: i <= l < |acts| ==> acts[l].Some?
    ensures (forall l :: i <= l < |acts| && acts[l].Some? ==> acts[l].value.slot != k) ==>
      FillFrom(cells, acts, i).value[k] == cells[k]
    ensures forall j: nat :: LastWriter(acts, i, k, j) ==> FillFrom(cells, acts, i).value[k] == acts[j].value.cell
    decreases |acts| - i
  {
    if i < |acts| {
      var w := acts[i].value;
      var next := cells[w.slot := w.cell];
      FillLastWriter(next, acts, i + 1, k);
      forall j: nat | LastWriter(acts, i, k, j)
        ensures FillFrom(cells, acts, i).value[k] == acts[j].value.cell
      {
        if j > i {
          assert LastWriter(acts, i + 1, k, j);
        }
      }
    }
  }

  /** `_from_vhdl_vec` returns one slot per element, i.e. one more than the
      number of commas between the brackets; every element named a valid
      slot and value; a slot nobody writes stays 0 and every other slot holds
      its last writer's value. */
  lemma VecSlots(s: string, fn: ElementCast, k: nat)
    requires Vec(s, fn).Ok?
    ensures |Vec(s, fn).value| == |Elements(s)|
    ensures forall l :: 0 <= l < |Elements(s)| ==>
      Slot(Elements(s)[l], l, |Elements(s)|).Some? && Written(Elements(s)[l], fn).Some?
    ensures k < |Elements(s)| && (forall l :: 0 <= l < |Elements(s)| ==> Slot(Elements(s)[l], l, |Elements(s)|) != Some(k)) ==>
      Vec(s, fn).value[k] == IntCell(0)
    ensures forall j: nat :: k < |Elements(s)| && LastWriter(Actions(Elements(s), fn), 0, k, j) ==>
      Vec(s, fn).value[k] == Written(Elements(s)[j], fn).value
  {
    var elems := Elements(s);
    var acts := Actions(elems, fn);
    if k < |elems| {
      FillLastWriter(Repeat(IntCell(0), |elems|), acts, 0, k);
    } else {
      FillLastWriter(Repeat(IntCell(0), |elems|), acts, 0, 0);
    }
  }

  /** A list of plain elements is read element by element with `int`,
      whichever cast was asked for. */
  lemma PlainElements(s: string, fn: ElementCast, k: nat)
    requires Vec(s, fn).Ok? && k < |Elements(s)|
    requires forall l :: 0 <= l < |Elements(s)| ==> !Positional(Elements(s)[l])
    ensures ParseInt(Elements(s)[k]).Some?
    ensures Vec(s, fn).value[k] == IntCell(ParseInt(Elements(s)[k]).value)
  {
    var elems := Elements(s);
    var acts := Actions(elems, fn);
    VecSlots(s, fn, k);
    assert LastWriter(acts, 0, k, k);
  }
}
