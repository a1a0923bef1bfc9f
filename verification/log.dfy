/** The simulation event log of sw-drivers/python/src/veriti/log.py: severity
    levels, time units, timestamps, one-line records, the pass/fail tally of a
    log and the level filter of `read`. The log file's contents arrive as a
    string; opening the file is left to the caller. Where Python's `from_str`
    returns -1 the model has `None`, and where Python raises it has `Err`. */
module EventLog {
  import opened Wrappers
  import opened Text

  // ---------------------------------------------------------------------------
  // Levels

  datatype Level = TRACE | DEBUG | INFO | WARN | ERROR | FATAL

  /** `level.value` */
  function LevelValue(l: Level): nat {
    match l
    case TRACE => 0
    case DEBUG => 1
    case INFO => 2
    case WARN => 3
    case ERROR => 4
    case FATAL => 5
  }

  /** `str(level)`: the member's name. */
  function LevelName(l: Level): string {
    match l
    case TRACE => "TRACE"
    case DEBUG => "DEBUG"
    case INFO => "INFO"
    case WARN => "WARN"
    case ERROR => "ERROR"
    case FATAL => "FATAL"
  }

  /** `Level.from_str`: a level's name, ignoring surrounding whitespace and
      case; `None` where Python returns -1. */
  function LevelFromStr(s: string): (r: Option<Level>)
    ensures r.Some? ==> LevelName(r.value) == Upper(Strip(s))
    ensures r.None? ==> forall l :: LevelName(l) != Upper(Strip(s))
  {
    var t := Upper(Strip(s));
    if t == "TRACE" then Some(TRACE)
    else if t == "DEBUG" then Some(DEBUG)
    else if t == "INFO" then Some(INFO)
    else if t == "WARN" then Some(WARN)
    else if t == "ERROR" then Some(ERROR)
    else if t == "FATAL" then Some(FATAL)
    else None
  }

  /** Every level is read back from its name, in upper or lower case. */
  lemma LevelNameRoundTrip(l: Level)
    ensures LevelFromStr(LevelName(l)) == Some(l)
    ensures LevelFromStr(Lower(LevelName(l))) == Some(l)
  {
    var n := LevelName(l);
    assert forall i :: 0 <= i < |n| ==> 'A' <= n[i] <= 'Z';
    CapitalsRead(n);
    LevelReadsName(l, n);
    LevelReadsName(l, Lower(n));
  }

  lemma LevelReadsName(l: Level, s: string)
    requires Upper(Strip(s)) == LevelName(l)
    ensures LevelFromStr(s) == Some(l)
  {
    if LevelFromStr(s).Some? {
      LevelNameInjective(LevelFromStr(s).value, l);
    }
  }

  lemma LevelNameInjective(a: Level, b: Level)
    requires LevelName(a) == LevelName(b)
    ensures a == b
  {
    assert LevelName(a)[0] == LevelName(b)[0];
  }

  /** `is_fail` */
  predicate IsFail(l: Level) {
    l == ERROR || l == FATAL
  }

  /** `is_pass` */
  predicate IsPass(l: Level) {
    l == INFO
  }

  /** A failure is a level at ERROR or above, a pass is exactly INFO, and no
      level is both. */
  lemma OutcomeLevels(l: Level)
    ensures IsFail(l) <==> LevelValue(l) >= LevelValue(ERROR)
    ensures IsPass(l) <==> LevelValue(l) == LevelValue(INFO)
    ensures !(IsFail(l) && IsPass(l))
  {
  }

  // ---------------------------------------------------------------------------
  // Time units

  datatype Timeunit = FS | PS | NS | US | MS | SEC | MIN | HR

  /** `unit.value` */
  function UnitValue(u: Timeunit): (v: nat)
    ensures 1 <= v <= 8
  {
    match u
    case FS => 1
    case PS => 2
    case NS => 3
    case US => 4
    case MS => 5
    case SEC => 6
    case MIN => 7
    case HR => 8
  }

  function UnitName(u: Timeunit): string {
    match u
    case FS => "FS"
    case PS => "PS"
    case NS => "NS"
    case US => "US"
    case MS => "MS"
    case SEC => "SEC"
    case MIN => "MIN"
    case HR => "HR"
  }

  /** `str(unit)`: the lower-case name. */
  function UnitStr(u: Timeunit): string {
    Lower(UnitName(u))
  }

  /** `Timeunit.from_str`: a unit's name, ignoring surrounding whitespace and
      case; `None` where Python returns -1. */
  function UnitFromStr(s: string): (r: Option<Timeunit>)
    ensures r.Some? ==> UnitName(r.value) == Upper(Strip(s))
    ensures r.None? ==> forall u :: UnitName(u) != Upper(Strip(s))
  {
    var t := Upper(Strip(s));
    if t == "FS" then Some(FS)
    else if t == "PS" then Some(PS)
    else if t == "NS" then Some(NS)
    else if t == "US" then Some(US)
    else if t == "MS" then Some(MS)
    else if t == "SEC" then Some(SEC)
    else if t == "MIN" then Some(MIN)
    else if t == "HR" then Some(HR)
    else None
  }

  /** Every unit is read back from its printed (lower-case) form and from its name. */
  lemma UnitNameRoundTrip(u: Timeunit)
    ensures UnitFromStr(UnitStr(u)) == Some(u)
    ensures UnitFromStr(UnitName(u)) == Some(u)
  {
    var n := UnitName(u);
    UnitNameCapitals(u);
    CapitalsRead(n);
    UnitReadsName(u, n);
    UnitReadsName(u, Lower(n));
  }

  lemma UnitNameCapitals(u: Timeunit)
    ensures UnitName(u) != [] && forall i :: 0 <= i < |UnitName(u)| ==> 'A' <= UnitName(u)[i] <= 'Z'
  {
  }

  lemma UnitReadsName(u: Timeunit, s: string)
    requires Upper(Strip(s)) == UnitName(u)
    ensures UnitFromStr(s) == Some(u)
  {
    if UnitFromStr(s).Some? {
      UnitNameInjective(UnitFromStr(s).value, u);
    }
  }

  lemma UnitNameInjective(a: Timeunit, b: Timeunit)
    requires UnitName(a) == UnitName(b)
    ensures a == b
  {
    assert |UnitName(a)| == |UnitName(b)|;
    assert UnitName(a)[0] == UnitName(b)[0];
  }

  /** The length of each unit, in femtoseconds. */
  function Femtoseconds(u: Timeunit): nat {
    match u
    case FS => 1
    case PS => 1_000
    case NS => 1_000_000
    case US => 1_000_000_000
    case MS => 1_000_000_000_000
    case SEC => 1_000_000_000_000_000
    case MIN => 60_000_000_000_000_000
    case HR => 3_600_000_000_000_000_000
  }

  /** The factor between each unit and the one below it (entry 0 is unused). */
  const JUMPS: seq<nat> := [1, 1_000, 1_000, 1_000, 1_000, 1_000, 60, 60]

  function Product(s: seq<nat>): nat {
    if s == [] then 1 else Product(s[..|s| - 1]) * s[|s| - 1]
  }

  /** The unit one step smaller. */
  function Below(u: Timeunit): (d: Timeunit)
    requires u != FS
    ensures UnitValue(d) == UnitValue(u) - 1
  {
    match u
    case PS => FS
    case NS => PS
    case US => NS
    case MS => US
    case SEC => MS
    case MIN => SEC
    case HR => MIN
  }

  /** Multiplying the jumps between two units gives the ratio of their lengths. */
  lemma {:induction false} JumpsScale(a: Timeunit, b: Timeunit)
    requires UnitValue(a) <= UnitValue(b)
    ensures Product(JUMPS[UnitValue(a)..UnitValue(b)]) * Femtoseconds(a) == Femtoseconds(b)
    decreases UnitValue(b)
  {
    var va, vb := UnitValue(a), UnitValue(b);
    var s := JUMPS[va..vb];
    if va < vb {
      var c := Below(b);
      JumpsScale(a, c);
      var p := Product(JUMPS[va..vb - 1]);
      ProductSnoc(JUMPS, va, vb);
      FemtosecondsBelow(b);
      Swap(p, JUMPS[vb - 1], Femtoseconds(a));
    } else {
      assert s == [];
    }
  }

  /** Each unit is its jump times the unit below it. */
  lemma FemtosecondsBelow(b: Timeunit)
    requires b != FS
    ensures Femtoseconds(b) == Femtoseconds(Below(b)) * JUMPS[UnitValue(b) - 1]
  {
  }

  lemma ProductSnoc(xs: seq<nat>, i: nat, j: nat)
    requires i < j <= |xs|
    ensures Product(xs[i..j]) == Product(xs[i..j - 1]) * xs[j - 1]
  {
    var s := xs[i..j];
    assert s[..|s| - 1] == xs[i..j - 1];
  }

  lemma PrefixProduct(xs: seq<nat>, i: nat)
    requires i < |xs|
    ensures Product(xs[..i + 1]) == Product(xs[..i]) * xs[i]
  {
    assert xs[..i + 1][..i] == xs[..i];
  }

  lemma Swap(p: int, j: int, f: int)
    ensures (p * j) * f == (p * f) * j
  {
  }

  /** The jumps `convert` multiplies: those between the two units. */
  function Jumps(unit: Timeunit, target: Timeunit): seq<nat> {
    var start, delta := UnitValue(unit), UnitValue(target) - UnitValue(unit);
    if delta < 0 then JUMPS[start + delta..start] else JUMPS[start..start + delta]
  }

  /** The product of the jumps relates the two units' lengths. */
  lemma JumpsRatio(unit: Timeunit, target: Timeunit)
    ensures Product(Jumps(unit, target)) >= 1
    ensures unit == target ==> Product(Jumps(unit, target)) == 1
    ensures UnitValue(target) < UnitValue(unit) ==>
      Product(Jumps(unit, target)) * Femtoseconds(target) == Femtoseconds(unit)
    ensures UnitValue(target) >= UnitValue(unit) ==>
      Femtoseconds(unit) * Product(Jumps(unit, target)) == Femtoseconds(target)
  {
    if UnitValue(target) < UnitValue(unit) {
      JumpsScale(target, unit);
    } else {
      JumpsScale(unit, target);
      if unit == target {
        assert Jumps(unit, target) == [];
      }
    }
  }

  /** A conversion factor, kept as an exact fraction. */
  datatype Ratio = Ratio(num: nat, den: nat)

  /** `unit.convert(target)`: the number of `target` units in one `unit`.
      Towards a smaller unit this is the whole product of the jumps between
      them; towards a larger one, its reciprocal. */
  method Convert(unit: Timeunit, target: Timeunit) returns (r: Ratio)
    ensures r.num >= 1 && r.den >= 1
    ensures r.num * Femtoseconds(target) == Femtoseconds(unit) * r.den
    ensures UnitValue(target) <= UnitValue(unit) ==> r.den == 1
    ensures UnitValue(target) >= UnitValue(unit) ==> r.num == 1
  {
    var subs := Jumps(unit, target);
    var conversion := 1;
    for i := 0 to |subs|
      invariant conversion == Product(subs[..i])
    {
      PrefixProduct(subs, i);
      conversion := conversion * subs[i];
    }
    assert subs[..|subs|] == subs;
    JumpsRatio(unit, target);
    if UnitValue(target) < UnitValue(unit) {
      r := Ratio(conversion, 1);
    } else {
      r := Ratio(1, conversion);
    }
  }

  // ---------------------------------------------------------------------------
  // Timestamps

  /** A simulation time; `unit` is `None` where `Timeunit.from_str` gave -1.
      Equality compares ticks and units as written, so `1 sec` and `1000 ms`
      differ. */
  datatype Timestamp = Timestamp(ticks: int, unit: Option<Timeunit>)

  function UnitText(u: Option<Timeunit>): string {
    match u
    case None => "-1"
    case Some(v) => UnitStr(v)
  }

  /** `str(timestamp)`, and "-1" for the sentinel. */
  function TimestampStr(t: Option<Timestamp>): string {
    match t
    case None => "-1"
    case Some(ts) => IntToStr(ts.ticks) + " " + UnitText(ts.unit)
  }

  /** `Timestamp.from_str`: two words, the tick count then the unit.
      `Ok(None)` is the -1 Python returns for any other number of words, and
      `Err` the `ValueError` of a tick count that is not an integer. */
  function TimestampFromStr(s: string): (r: Result<Option<Timestamp>>)
    ensures r == Ok(None) <==> |Split(Strip(s))| != 2
  {
    var parts := Split(Strip(s));
    if |parts| != 2 then Ok(None)
    else match ParseInt(parts[0])
      case None => Err("invalid literal for int()")
      case Some(n) => Ok(Some(Timestamp(n, UnitFromStr(parts[1]))))
  }

  /** The characters timestamps and level names are printed with. */
  predicate Plain(c: char) {
    '0' <= c <= '9' || 'a' <= c <= 'z' || 'A' <= c <= 'Z' || c == '-'
  }

  predicate PlainWord(s: string) {
    s != [] && forall i :: 0 <= i < |s| ==> Plain(s[i])
  }

  lemma IntToStrPlain(n: int)
    ensures PlainWord(IntToStr(n))
  {
  }

  lemma UnitTextPlain(u: Option<Timeunit>)
    ensures PlainWord(UnitText(u))
  {
    if u.Some? {
      var n := UnitName(u.value);
      UnitNameCapitals(u.value);
      assert UnitText(u) == Lower(n);
      assert forall i :: 0 <= i < |n| ==> Plain(Lower(n)[i]) by {
        forall i | 0 <= i < |n| ensures Plain(Lower(n)[i]) {
          assert Lower(n)[i] == LowerChar(n[i]);
        }
      }
    }
  }

  /** A printed timestamp is one or two plain words, without padding. */
  lemma TimestampStrShape(t: Option<Timestamp>)
    ensures var p := TimestampStr(t);
      p != [] && Plain(p[0]) && Plain(p[|p| - 1]) &&
      forall i :: 0 <= i < |p| ==> Plain(p[i]) || p[i] == ' '
  {
    if t.Some? {
      IntToStrPlain(t.value.ticks);
      UnitTextPlain(t.value.unit);
    }
  }

  /** The unit text of a timestamp reads back as the unit, the sentinel included. */
  lemma UnitTextRoundTrip(u: Option<Timeunit>)
    ensures UnitFromStr(UnitText(u)) == u
  {
    match u
    case None =>
      StripNoSpace("-1");
      assert Upper("-1") == "-1";
    case Some(v) =>
      UnitNameRoundTrip(v);
  }

  lemma PlainNoSpace(s: string)
    requires PlainWord(s)
    ensures NoSpace(s)
  {
  }

  /** Two words joined by a space split back into the two words. */
  lemma SplitTwoWords(a: string, b: string)
    requires a != [] && NoSpace(a) && b != [] && NoSpace(b)
    ensures Split(a + " " + b) == [a, b]
  {
    SplitSpaceWord(b);
    SplitWord(a, " " + b);
    SeqAssoc(a, " ", b);
  }

  /** A word after a space splits into that word. */
  lemma SplitSpaceWord(b: string)
    requires b != [] && NoSpace(b)
    ensures Split(" " + b) == [b]
  {
    SplitCons(" ", b, []);
    SplitBlank([]);
    assert " " + b + [] == " " + b;
  }

  /** A printed timestamp splits into its words. */
  lemma {:induction false} TimestampWords(t: Option<Timestamp>)
    ensures t.None? ==> Split(TimestampStr(t)) == ["-1"]
    ensures t.Some? ==> Split(TimestampStr(t)) == [IntToStr(t.value.ticks), UnitText(t.value.unit)]
  {
    match t
    case None =>
      assert Split("-1") == ["-1"] by {
        PlainNoSpace("-1");
        SplitWord("-1", []);
        SplitBlank([]);
        assert "-1" + [] == "-1";
      }
    case Some(ts) =>
      IntToStrPlain(ts.ticks);
      UnitTextPlain(ts.unit);
      PlainNoSpace(IntToStr(ts.ticks));
      PlainNoSpace(UnitText(ts.unit));
      SplitTwoWords(IntToStr(ts.ticks), UnitText(ts.unit));
  }

  /** A printed timestamp, padded with whitespace, reads back as itself. */
  lemma TimestampRoundTrip(t: Option<Timestamp>, pad: string)
    requires forall i :: 0 <= i < |pad| ==> IsSpace(pad[i])
    ensures TimestampFromStr(TimestampStr(t) + pad) == Ok(t)
  {
    var p := TimestampStr(t);
    assert Strip(p + pad) == p by {
      TimestampStrShape(t);
      StripPadded(p, pad);
    }
    TimestampWords(t);
    match t
    case None =>
      assert |Split(p)| == 1;
    case Some(ts) =>
      var parts := Split(p);
      assert parts == [IntToStr(ts.ticks), UnitText(ts.unit)];
      ParseIntToStr(ts.ticks);
      UnitTextRoundTrip(ts.unit);
      assert TimestampFromStr(p + pad) == Ok(Some(Timestamp(ts.ticks, UnitFromStr(parts[1]))));
  }

  // ---------------------------------------------------------------------------
  // Records

  /** One line of the log; `timestamp` and `level` are `None` where their
      `from_str` gave -1. */
  datatype Record = Record(timestamp: Option<Timestamp>, level: Option<Level>, topic: string, cause: string)

  /** `str(level)`, and "-1" for the sentinel. */
  function LevelText(l: Option<Level>): string {
    match l
    case None => "-1"
    case Some(v) => LevelName(v)
  }

  /** `str(record)`: the bracketed timestamp padded to 15 characters, the
      level padded to 8, the topic padded to 12, then the cause in quotes. */
  function RecordStr(r: Record): string {
    "[" + StampField(r) + "]" + MiddleField(r) + "\"" + r.cause + "\""
  }

  /** The text between the first '[' and the first ']'. */
  function StampPiece(s: string): string {
    Slice(s, Find(s, "[") + 1, Find(s, "]"))
  }

  /** The text between the first and the last '"'. */
  function CausePiece(s: string): string {
    Slice(s, Find(s, "\"") + 1, RFind(s, '"'))
  }

  /** The text between the first ']' and the first '"'. */
  function MiddlePiece(s: string): string {
    Slice(s, Find(s, "]") + 1, Find(s, "\""))
  }

  /** The record made of the pieces: the level and topic are the first two
      words of the middle piece. */
  function Assemble(stamp: string, cause: string, parts: seq<string>): Result<Record> {
    if |parts| < 2 then Err("list index out of range")
    else match TimestampFromStr(stamp)
      case Err(e) => Err(e)
      case Ok(t) => Ok(Record(t, LevelFromStr(parts[0]), parts[1], cause))
  }

  /** `Record.from_str`: the timestamp lies between the first '[' and the
      first ']', the cause between the first and the last '"', and the level
      and topic are the first two words in between. `Err` where Python
      raises: fewer than two words, or a tick count that is not an integer. */
  function RecordFromStr(s: string): Result<Record> {
    Assemble(StampPiece(s), CausePiece(s), Split(MiddlePiece(s)))
  }

  /** A topic that survives printing and parsing: one word without quotes. */
  predicate GoodTopic(t: string) {
    t != [] && NoSpace(t) && Lacks(t, '"')
  }

  /** Every topic `from_str` produces is a good topic, so a parsed record
      prints and parses back to itself (see `RecordRoundTrip`). */
  lemma ParsedTopic(s: string)
    ensures RecordFromStr(s).Ok? ==> GoodTopic(RecordFromStr(s).value.topic)
  {
    var mid := MiddlePiece(s);
    MiddleLacksQuote(s);
    SplitWords(mid);
    SplitLacks(mid, '"');
    if RecordFromStr(s).Ok? {
      assert RecordFromStr(s).value.topic == Split(mid)[1];
    }
  }

  /** The middle piece ends before the first quote, so it holds none. */
  lemma MiddleLacksQuote(s: string)
    ensures Lacks(MiddlePiece(s), '"')
  {
    var a, b := Clamp(Find(s, "]") + 1, |s|), Clamp(Find(s, "\""), |s|);
    var mid := MiddlePiece(s);
    FindChar(s, '"');
    if a < b {
      assert mid == s[a..b];
      assert forall i :: 0 <= i < |mid| ==> mid[i] == s[a + i];
    }
  }

  /** The padded timestamp field of a printed record. */
  function StampField(r: Record): string {
    LJust(TimestampStr(r.timestamp), 15)
  }

  /** The level and topic fields of a printed record, with their separators. */
  function MiddleField(r: Record): string {
    " " + LJust(LevelText(r.level), 8) + " " + LJust(r.topic, 12) + " "
  }

  lemma LevelTextPlain(l: Option<Level>)
    ensures PlainWord(LevelText(l))
  {
  }

  /** Neither field holds a bracket or a quote the parser would stop at. */
  lemma FieldsLack(r: Record)
    requires GoodTopic(r.topic)
    ensures Lacks(StampField(r), ']') && Lacks(StampField(r), '"')
    ensures Lacks(MiddleField(r), '"')
  {
    var ts := TimestampStr(r.timestamp);
    var pad := Repeat(' ', 15 - |ts|);
    assert Lacks(ts, ']') && Lacks(ts, '"') by {
      TimestampStrShape(r.timestamp);
    }
    LacksConcat(ts, pad, ']');
    LacksConcat(ts, pad, '"');
    var l, t := LevelText(r.level), r.topic;
    var a := " " + LJust(l, 8) + " ";
    assert Lacks(a, '"') by {
      LevelTextPlain(r.level);
      LacksConcat(" ", l, '"');
      LacksConcat(" " + l, Repeat(' ', 8 - |l|), '"');
      LacksConcat(" " + l + Repeat(' ', 8 - |l|), " ", '"');
    }
    var b := LJust(t, 12) + " ";
    assert Lacks(b, '"') by {
      LacksConcat(t, Repeat(' ', 12 - |t|), '"');
      LacksConcat(LJust(t, 12), " ", '"');
    }
    LacksConcat(a, b, '"');
    assert MiddleField(r) == a + b;
  }

  /** Where the parser's `find` and `rfind` land in a printed record. */
  lemma RecordFinds(r: Record)
    requires GoodTopic(r.topic)
    ensures var s, p, m := RecordStr(r), StampField(r), MiddleField(r);
      Find(s, "[") == 0 && Find(s, "]") == |p| + 1 &&
      Find(s, "\"") == |p| + 2 + |m| && RFind(s, '"') == |s| - 1
  {
    FieldsLack(r);
    FieldFinds(StampField(r), MiddleField(r), r.cause);
  }

  /** The delimiters the parser looks for, around fields that hold none of
      them before the cause. */
  lemma FieldFinds(p: string, m: string, c: string)
    requires Lacks(p, ']') && Lacks(p, '"') && Lacks(m, '"')
    ensures var s := "[" + p + "]" + m + "\"" + c + "\"";
      Find(s, "[") == 0 && Find(s, "]") == |p| + 1 &&
      Find(s, "\"") == |p| + 2 + |m| && RFind(s, '"') == |s| - 1
  {
    var s := "[" + p + "]" + m + "\"" + c + "\"";
    FindCharAt(s, '[', 0);
    assert s == ("[" + p) + "]" + (m + "\"" + c + "\"");
    FindAfter("[" + p, ']', m + "\"" + c + "\"");
    assert s == ("[" + p + "]" + m) + "\"" + (c + "\"");
    LacksConcat("[" + p + "]", m, '"');
    FindAfter("[" + p + "]" + m, '"', c + "\"");
  }

  /** Two padded words between spaces, regrouped word by word. */
  lemma Regroup(l: string, sp1: string, t: string, sp2: string)
    ensures " " + (l + sp1) + " " + (t + sp2) + " " == " " + l + (sp1 + " " + t + (sp2 + " "))
  {
    calc {
      " " + (l + sp1) + " " + (t + sp2) + " ";
      { assert (t + sp2) + " " == t + (sp2 + " "); }
      " " + (l + sp1) + " " + (t + (sp2 + " "));
      { assert " " + (l + sp1) + " " == " " + l + (sp1 + " "); }
      " " + l + (sp1 + " ") + (t + (sp2 + " "));
      " " + l + (sp1 + " " + t + (sp2 + " "));
    }
  }

  /** Two words, each followed by padding, split back into the two words. */
  lemma SplitPaddedPair(l: string, t: string, sp1: string, sp2: string)
    requires l != [] && NoSpace(l) && t != [] && NoSpace(t)
    requires Blank(sp1) && Blank(sp2)
    ensures Split(" " + l + (sp1 + " " + t + (sp2 + " "))) == [l, t]
  {
    var tail := sp2 + " ";
    var rest := sp1 + " " + t + tail;
    assert Split(rest) == [t] by {
      var sp := sp1 + " ";
      assert Blank(sp);
      assert Blank(tail);
      SplitCons(sp, t, tail);
      SplitBlank(tail);
      assert [t] + [] == [t];
    }
    assert Split(" " + l + rest) == [l] + Split(rest) by {
      assert IsSpace(rest[0]);
      SplitCons(" ", l, rest);
    }
    assert [l] + [t] == [l, t];
  }

  /** The level and topic fields split into the level's name and the topic. */
  lemma MiddleWords(r: Record)
    requires GoodTopic(r.topic)
    ensures Split(MiddleField(r)) == [LevelText(r.level), r.topic]
  {
    var l, t := LevelText(r.level), r.topic;
    LevelTextPlain(r.level);
    PlainNoSpace(l);
    var sp1, sp2 := Repeat(' ', 8 - |l|), Repeat(' ', 12 - |t|);
    assert MiddleField(r) == " " + (l + sp1) + " " + (t + sp2) + " ";
    Regroup(l, sp1, t, sp2);
    SplitPaddedPair(l, t, Repeat(' ', 8 - |l|), Repeat(' ', 12 - |t|));
  }

  lemma LevelTextRoundTrip(l: Option<Level>)
    ensures LevelFromStr(LevelText(l)) == l
  {
    match l
    case None =>
      StripNoSpace("-1");
      assert Upper("-1") == "-1";
    case Some(v) =>
      LevelNameRoundTrip(v);
  }

  /** The three pieces of a printed record, cut where the fields lie. */
  lemma RecordSlices(r: Record)
    requires GoodTopic(r.topic)
    ensures var s, p, m := RecordStr(r), StampField(r), MiddleField(r);
      Slice(s, 1, |p| + 1) == p && Slice(s, |p| + 2, |p| + 2 + |m|) == m &&
      Slice(s, |p| + 3 + |m|, |s| - 1) == r.cause
  {
    var p, m := StampField(r), MiddleField(r);
    FieldSlices(p, m, r.cause);
    assert RecordStr(r) == "[" + p + "]" + m + "\"" + r.cause + "\"";
  }

  /** The three fields sit between their delimiters. */
  lemma FieldSlices(p: string, m: string, c: string)
    ensures var s := "[" + p + "]" + m + "\"" + c + "\"";
      Slice(s, 1, |p| + 1) == p && Slice(s, |p| + 2, |p| + 2 + |m|) == m &&
      Slice(s, |p| + 3 + |m|, |s| - 1) == c
  {
    var s := "[" + p + "]" + m + "\"" + c + "\"";
    assert s[1..|p| + 1] == p;
    assert s[|p| + 2..|p| + 2 + |m|] == m;
    assert s[|p| + 3 + |m|..|s| - 1] == c;
  }

  /** The pieces the parser cuts out of a printed record are its fields. */
  lemma RecordPieces(r: Record)
    requires GoodTopic(r.topic)
    ensures StampPiece(RecordStr(r)) == StampField(r)
    ensures MiddlePiece(RecordStr(r)) == MiddleField(r)
    ensures CausePiece(RecordStr(r)) == r.cause
  {
    RecordFinds(r);
    RecordSlices(r);
  }

  /** The printed fields assemble back into the record. */
  lemma AssembleFields(r: Record)
    ensures Assemble(StampField(r), r.cause, [LevelText(r.level), r.topic]) == Ok(r)
  {
    var pad := Repeat(' ', 15 - |TimestampStr(r.timestamp)|);
    assert Blank(pad);
    assert StampField(r) == TimestampStr(r.timestamp) + pad;
    TimestampRoundTrip(r.timestamp, pad);
    LevelTextRoundTrip(r.level);
  }

  /** `Record.from_str(str(r)) == r` for every record with a good topic,
      whatever its cause holds (quotes included) and including the -1
      sentinels. */
  lemma RecordRoundTrip(r: Record)
    requires GoodTopic(r.topic)
    ensures RecordFromStr(RecordStr(r)) == Ok(r)
  {
    RecordPieces(r);
    MiddleWords(r);
    AssembleFields(r);
  }

  /** The record of log.py's `test_parse_record`; the line is written cut
      at its fields. */
  lemma ParseRecordExample(line: string, r: Record)
    requires line == "[" + "1040 ns        " + "]" + " INFO     TIMEOUT      " +
      "\"" + "done being asserted - required 5 cycles" + "\""
    requires r == Record(Some(Timestamp(1040, Some(NS))), Some(INFO), "TIMEOUT", "done being asserted - required 5 cycles")
    ensures RecordFromStr(line) == Ok(r)
  {
    ExampleStamp(r);
    ExampleMiddle(r);
    assert RecordStr(r) == line;
    assert GoodTopic(r.topic);
    RecordRoundTrip(r);
  }

  lemma ExampleStamp(r: Record)
    requires r.timestamp == Some(Timestamp(1040, Some(NS)))
    ensures StampField(r) == "1040 ns        "
  {
    assert NatToStr(1) == "1";
    assert NatToStr(10) == "10";
    assert NatToStr(104) == "104";
    assert NatToStr(1040) == "1040";
    assert UnitStr(NS) == "ns";
  }

  lemma ExampleMiddle(r: Record)
    requires r.level == Some(INFO) && r.topic == "TIMEOUT"
    ensures MiddleField(r) == " INFO     TIMEOUT      "
  {
    assert LJust("INFO", 8) == "INFO    ";
    assert LJust("TIMEOUT", 12) == "TIMEOUT     ";
  }

  // ---------------------------------------------------------------------------
  // Logs

  /** The record reports a failure (ERROR or FATAL). */
  predicate Fails(r: Record) {
    r.level.Some? && IsFail(r.level.value)
  }

  /** The record reports a pass (INFO). */
  predicate Passes(r: Record) {
    r.level.Some? && IsPass(r.level.value)
  }

  /** The number of failing records; zero exactly when none fails. */
  function FailCount(rs: seq<Record>): (n: nat)
    ensures n <= |rs|
    ensures n == 0 <==> forall i :: 0 <= i < |rs| ==> !Fails(rs[i])
  {
    if rs == [] then 0
    else
      var init := rs[..|rs| - 1];
      assert forall i :: 0 <= i < |init| ==> init[i] == rs[i];
      FailCount(init) + if Fails(rs[|rs| - 1]) then 1 else 0
  }

  /** The number of passing records. */
  function PassCount(rs: seq<Record>): (n: nat)
    ensures n <= |rs|
  {
    if rs == [] then 0 else PassCount(rs[..|rs| - 1]) + if Passes(rs[|rs| - 1]) then 1 else 0
  }

  /** Every record has a level; `Log` reads each record's level and raises
      on the -1 sentinel. */
  predicate KnownLevels(rs: seq<Record>) {
    forall i :: 0 <= i < |rs| ==> rs[i].level.Some?
  }

  /** The counting loop of `Log.__init__`: a test is a record that passes or
      fails, and no record does both. */
  method Tally(rs: seq<Record>) returns (tests: nat, passes: nat, fails: nat)
    requires KnownLevels(rs)
    ensures passes == PassCount(rs) && fails == FailCount(rs)
    ensures tests == passes + fails && tests <= |rs|
  {
    tests, passes, fails := 0, 0, 0;
    for i := 0 to |rs|
      invariant passes == PassCount(rs[..i]) && fails == FailCount(rs[..i])
      invariant tests == passes + fails && tests <= i
    {
      assert rs[..i + 1][..i] == rs[..i];
      var l := rs[i].level.value;
      OutcomeLevels(l);
      if IsFail(l) || IsPass(l) {
        tests := tests + 1;
      }
      if IsFail(l) {
        fails := fails + 1;
      }
      if IsPass(l) {
        passes := passes + 1;
      }
    }
    assert rs[..|rs|] == rs;
  }

  /** A parsed log: its records in file order and the tallies over them. */
  class Log {
    const outcomes: seq<Record>
    const tests: nat
    const passes: nat
    const fails: nat

    /** The tallies count the records. */
    predicate Valid() {
      KnownLevels(outcomes) && passes == PassCount(outcomes) && fails == FailCount(outcomes) &&
      tests == passes + fails
    }

    /** `Log(outcomes)` */
    constructor(records: seq<Record>)
      requires KnownLevels(records)
      ensures outcomes == records && Valid()
    {
      outcomes := records;
      var t, p, f := Tally(records);
      tests, passes, fails := t, p, f;
    }

    /** `is_success`: no record failed. */
    function IsSuccess(): (r: bool)
      requires Valid()
      ensures r <==> forall i :: 0 <= i < |outcomes| ==> !Fails(outcomes[i])
    {
      fails == 0
    }

    /** `get_score` as its two counts, passes over tests; `None` when the log
        holds no test. */
    function Score(): (r: Option<(nat, nat)>)
      requires Valid()
      ensures r.None? <==> tests == 0
      ensures r.Some? ==> r.value == (passes, tests) && passes <= tests
    {
      if tests > 0 then Some((passes, tests)) else None
    }
  }

  /** Each line's parse, in order. */
  function ParsedLines(lines: seq<string>): seq<Result<Record>> {
    seq(|lines|, i requires 0 <= i < |lines| => RecordFromStr(lines[i]))
  }

  /** The parsed records, or the first error. */
  function Collect(rs: seq<Result<Record>>): Result<seq<Record>> {
    if rs == [] then Ok([])
    else
      var init := Collect(rs[..|rs| - 1]);
      var last := rs[|rs| - 1];
      if init.Err? then init
      else if last.Err? then Err(last.msg)
      else Ok(init.value + [last.value])
  }

  /** Collecting succeeds exactly when every parse does, and then keeps each
      parsed record in place. */
  lemma {:induction false} CollectAt(rs: seq<Result<Record>>)
    ensures Collect(rs).Ok? <==> forall i :: 0 <= i < |rs| ==> rs[i].Ok?
    ensures Collect(rs).Ok? ==> |Collect(rs).value| == |rs|
    ensures Collect(rs).Ok? ==> forall i :: 0 <= i < |rs| ==> Collect(rs).value[i] == rs[i].value
  {
    if rs != [] {
      var init := rs[..|rs| - 1];
      CollectAt(init);
      assert forall i :: 0 <= i < |init| ==> init[i] == rs[i];
    }
  }

  /** Collecting stops at the first parse that fails, with its error. */
  lemma {:induction false} CollectStops(rs: seq<Result<Record>>, i: nat)
    requires i < |rs| && Collect(rs[..i]).Ok? && rs[i].Err?
    ensures Collect(rs) == Err(rs[i].msg)
    decreases |rs|
  {
    var init := rs[..|rs| - 1];
    if |rs| == i + 1 {
      assert init == rs[..i];
    } else {
      assert init[..i] == rs[..i];
      CollectStops(init, i);
    }
  }

  /** The records of a log's text, one per line; `Err` at the first line
      that does not parse. */
  function LogRecords(s: string): Result<seq<Record>> {
    Collect(ParsedLines(SplitLines(s)))
  }

  /** The loop of `Log.from_str` over the lines' parses: keep each record in
      turn, stopping at the first line that does not parse. */
  method ParseAll(parsed: seq<Result<Record>>) returns (r: Result<seq<Record>>)
    ensures r == Collect(parsed)
  {
    var outcomes: seq<Record> := [];
    for i := 0 to |parsed|
      invariant Collect(parsed[..i]) == Ok(outcomes)
    {
      assert parsed[..i + 1][..i] == parsed[..i];
      var rec := parsed[i];
      if rec.Err? {
        CollectStops(parsed, i);
        return Err(rec.msg);
      }
      outcomes := outcomes + [rec.value];
    }
    assert parsed[..|parsed|] == parsed;
    return Ok(outcomes);
  }

  /** `Log.from_str`: one record per line of the text. `Err` where a line
      does not parse, or where a record's level is the -1 sentinel (on which
      the tally raises). */
  method LogFromStr(s: string) returns (r: Result<Log>)
    ensures r.Ok? <==> LogRecords(s).Ok? && KnownLevels(LogRecords(s).value)
    ensures r.Ok? ==> r.value.outcomes == LogRecords(s).value && r.value.Valid()
  {
    var parsed := ParseAll(ParsedLines(SplitLines(s)));
    if parsed.Err? {
      return Err(parsed.msg);
    }
    if !KnownLevels(parsed.value) {
      return Err("'int' object has no attribute 'is_fail'");
    }
    var lg := new Log(parsed.value);
    r := Ok(lg);
  }

  /** The record is at or above the threshold `read` is given. */
  predicate AtLeast(r: Record, level: int) {
    r.level.Some? && LevelValue(r.level.value) >= level
  }

  /** The records `read` keeps, in their order. */
  function Kept(rs: seq<Record>, level: int): seq<Record> {
    if rs == [] then []
    else Kept(rs[..|rs| - 1], level) + if AtLeast(rs[|rs| - 1], level) then [rs[|rs| - 1]] else []
  }

  /** A record printed on its own line. */
  function Line(r: Record): string {
    RecordStr(r) + "\n"
  }

  /** Each record printed on its own line. */
  function Render(rs: seq<Record>): string {
    if rs == [] then "" else Line(rs[0]) + Render(rs[1..])
  }

  lemma {:induction false} RenderSnoc(rs: seq<Record>, x: Record)
    ensures Render(rs + [x]) == Render(rs) + Line(x)
  {
    if rs != [] {
      var r := rs + [x];
      assert r[0] == rs[0] && r[1..] == rs[1..] + [x];
      RenderSnoc(rs[1..], x);
      SeqAssoc(Line(rs[0]), Render(rs[1..]), Line(x));
    } else {
      assert Render([x]) == Line(x) + Render([]);
    }
  }

  lemma SeqAssoc(a: string, b: string, c: string)
    ensures a + (b + c) == a + b + c
  {
  }

  /** `read`: the printed records whose level value is at least `level`,
      one per line, in log order. */
  method Read(lg: Log, level: int) returns (result: string)
    requires lg.Valid()
    ensures result == Render(Kept(lg.outcomes, level))
  {
    var rs := lg.outcomes;
    result := "";
    for i := 0 to |rs|
      invariant result == Render(Kept(rs[..i], level))
    {
      ghost var before := Kept(rs[..i], level);
      assert Kept(rs[..i + 1], level) == before + if AtLeast(rs[i], level) then [rs[i]] else [] by {
        var p := rs[..i + 1];
        assert p[..|p| - 1] == rs[..i];
      }
      if LevelValue(rs[i].level.value) >= level {
        RenderSnoc(before, rs[i]);
        result := result + Line(rs[i]);
      } else {
        assert before + [] == before;
      }
    }
    assert rs[..|rs|] == rs;
  }

  /** `read` keeps exactly the records at or above the level. */
  lemma {:induction false} KeptMembers(rs: seq<Record>, level: int, x: Record)
    ensures x in Kept(rs, level) <==> x in rs && AtLeast(x, level)
  {
    if rs != [] {
      var init := rs[..|rs| - 1];
      KeptMembers(init, level, x);
      assert rs == init + [rs[|rs| - 1]];
    }
  }

  /** At a level of 0 or below, `read` keeps every record. */
  lemma {:induction false} KeptAll(rs: seq<Record>, level: int)
    requires KnownLevels(rs) && level <= 0
    ensures Kept(rs, level) == rs
  {
    if rs != [] {
      var init := rs[..|rs| - 1];
      assert KnownLevels(init) by {
        assert forall i :: 0 <= i < |init| ==> init[i] == rs[i];
      }
      KeptAll(init, level);
      assert rs == init + [rs[|rs| - 1]];
    }
  }

  /** Above FATAL's value, `read` keeps nothing. */
  lemma {:induction false} KeptNone(rs: seq<Record>, level: int)
    requires level > LevelValue(FATAL)
    ensures Kept(rs, level) == []
  {
    if rs != [] {
      KeptNone(rs[..|rs| - 1], level);
    }
  }

  /** A record that prints on one line and parses back: a good topic and a
      cause without line boundaries. */
  predicate Printable(r: Record) {
    GoodTopic(r.topic) && NoLineBreak(r.cause)
  }

  lemma PlainNoLineBreak(s: string)
    requires forall i :: 0 <= i < |s| ==> Plain(s[i]) || s[i] == ' '
    ensures NoLineBreak(s)
  {
  }

  /** A printable record prints on a single line. */
  lemma RecordOneLine(r: Record)
    requires Printable(r)
    ensures NoLineBreak(RecordStr(r))
  {
    assert NoLineBreak(StampField(r)) by {
      TimestampStrShape(r.timestamp);
      PlainNoLineBreak(StampField(r));
    }
    assert NoLineBreak(MiddleField(r)) by {
      LevelTextPlain(r.level);
      PlainNoLineBreak(LJust(LevelText(r.level), 8));
      LineBreakIsSpace(r.topic);
      var sp := Repeat(' ', 12 - |r.topic|);
      PlainNoLineBreak(sp);
      NoLineBreakConcat(r.topic, sp);
      NoLineBreakConcat(" ", LJust(LevelText(r.level), 8));
      NoLineBreakConcat(" " + LJust(LevelText(r.level), 8), " ");
      NoLineBreakConcat(" " + LJust(LevelText(r.level), 8) + " ", LJust(r.topic, 12));
      NoLineBreakConcat(" " + LJust(LevelText(r.level), 8) + " " + LJust(r.topic, 12), " ");
    }
    NoLineBreakConcat("[", StampField(r));
    NoLineBreakConcat("[" + StampField(r), "]");
    NoLineBreakConcat("[" + StampField(r) + "]", MiddleField(r));
    NoLineBreakConcat("[" + StampField(r) + "]" + MiddleField(r), "\"");
    NoLineBreakConcat("[" + StampField(r) + "]" + MiddleField(r) + "\"", r.cause);
    NoLineBreakConcat("[" + StampField(r) + "]" + MiddleField(r) + "\"" + r.cause, "\"");
  }

  /** The printed lines of the records, one each. */
  function Printed(rs: seq<Record>): seq<string> {
    seq(|rs|, i requires 0 <= i < |rs| => RecordStr(rs[i]))
  }

  /** `splitlines` recovers the printed lines of what `read` returns. */
  lemma {:induction false} RenderLines(rs: seq<Record>)
    requires forall i :: 0 <= i < |rs| ==> Printable(rs[i])
    ensures SplitLines(Render(rs)) == Printed(rs)
  {
    if rs != [] {
      var line := RecordStr(rs[0]);
      var rest := Render(rs[1..]);
      assert Render(rs) == line + "\n" + rest;
      RecordOneLine(rs[0]);
      SplitLinesCons(line, rest);
      assert forall i :: 0 <= i < |rs[1..]| ==> Printable(rs[1..][i]) by {
        assert forall i :: 0 <= i < |rs[1..]| ==> rs[1..][i] == rs[i + 1];
      }
      RenderLines(rs[1..]);
      PrintedCons(rs);
    }
  }

  lemma PrintedCons(rs: seq<Record>)
    requires rs != []
    ensures Printed(rs) == [RecordStr(rs[0])] + Printed(rs[1..])
  {
    var a, b := Printed(rs), [RecordStr(rs[0])] + Printed(rs[1..]);
    forall i | 0 <= i < |a|
      ensures a[i] == b[i]
    {
      if i > 0 {
        assert rs[1..][i - 1] == rs[i];
      }
    }
  }

  /** What `read` prints of printable records parses back, as a log, to
      those records. */
  lemma RenderRoundTrip(rs: seq<Record>)
    requires forall i :: 0 <= i < |rs| ==> Printable(rs[i])
    ensures LogRecords(Render(rs)) == Ok(rs)
  {
    RenderLines(rs);
    var parsed := ParsedLines(Printed(rs));
    forall i | 0 <= i < |rs|
      ensures parsed[i] == Ok(rs[i])
    {
      RecordRoundTrip(rs[i]);
    }
    CollectAt(parsed);
    assert Collect(parsed).value == rs;
  }

  /** What `read` returns of a log of printable records loads back as the
      records it kept. */
  lemma ReadReparses(rs: seq<Record>, level: int)
    requires forall i :: 0 <= i < |rs| ==> Printable(rs[i])
    ensures LogRecords(Render(Kept(rs, level))) == Ok(Kept(rs, level))
  {
    var kept := Kept(rs, level);
    forall i | 0 <= i < |kept|
      ensures Printable(kept[i])
    {
      KeptMembers(rs, level, kept[i]);
    }
    RenderRoundTrip(kept);
  }
}
