/** The handful of Python `str` operations the library relies on, with
    Python's semantics: slicing with negative and out-of-range bounds,
    `find`/`rfind`, `split()` on whitespace runs, `split(sep)`, `strip()`,
    `ljust`, `lower`/`upper`, `splitlines()`, `int(s)` and `str(n)`. Whitespace
    is Python's full `str.isspace()` set; case mapping and digits are
    restricted to ASCII. */
module Text {
  import opened Wrappers

  // ---------------------------------------------------------------------------
  // Sequences

  /** `s[::-1]` */
  function Reverse<T>(s: seq<T>): (r: seq<T>)
    ensures |r| == |s|
    ensures forall i :: 0 <= i < |s| ==> r[i] == s[|s| - 1 - i]
  {
    if s == [] then [] else Reverse(s[1..]) + [s[0]]
  }

  lemma ReverseReverse<T>(s: seq<T>)
    ensures Reverse(Reverse(s)) == s
  {
    assert forall i :: 0 <= i < |s| ==> Reverse(Reverse(s))[i] == s[i];
  }

  /** `[x] * n` and `x * n` for a one-character string `x` */
  function Repeat<T>(x: T, n: int): (r: seq<T>)
    ensures |r| == if n > 0 then n else 0
    ensures forall i :: 0 <= i < |r| ==> r[i] == x
  {
    if n <= 0 then [] else [x] + Repeat(x, n - 1)
  }

  /** Python's normalisation of a slice bound against a length `n`. */
  function Clamp(i: int, n: nat): (k: nat)
    ensures k <= n
    ensures 0 <= i <= n ==> k == i
  {
    if i < 0 then (if i + n < 0 then 0 else i + n) else if i > n then n else i
  }

  /** `s[i:j]` */
  function Slice<T>(s: seq<T>, i: int, j: int): seq<T>
  {
    var a, b := Clamp(i, |s|), Clamp(j, |s|);
    if a < b then s[a..b] else []
  }

  // ---------------------------------------------------------------------------
  // Character classes

  /** The characters `str.isspace()` accepts, which `split()` and `strip()`
      remove. */
  predicate IsSpace(c: char) {
    var k := c as int;
    k == 0x20 || 9 <= k <= 13 || 28 <= k <= 31 || k == 0x85 || k == 0xA0 || k == 0x1680 ||
    0x2000 <= k <= 0x200A || k == 0x2028 || k == 0x2029 || k == 0x202F || k == 0x205F || k == 0x3000
  }

  predicate NoSpace(s: string) {
    forall i :: 0 <= i < |s| ==> !IsSpace(s[i])
  }

  /** Only whitespace. */
  predicate Blank(s: string) {
    forall i :: 0 <= i < |s| ==> IsSpace(s[i])
  }

  predicate IsDigit(c: char) {
    '0' <= c <= '9'
  }

  function LowerChar(c: char): char {
    if 'A' <= c <= 'Z' then (c as int + 32) as char else c
  }

  function UpperChar(c: char): char {
    if 'a' <= c <= 'z' then (c as int - 32) as char else c
  }

  /** `s.lower()` */
  function Lower(s: string): (r: string)
    ensures |r| == |s|
    ensures forall i :: 0 <= i < |s| ==> r[i] == LowerChar(s[i])
  {
    if s == [] then [] else [LowerChar(s[0])] + Lower(s[1..])
  }

  /** `s.upper()` */
  function Upper(s: string): (r: string)
    ensures |r| == |s|
    ensures forall i :: 0 <= i < |s| ==> r[i] == UpperChar(s[i])
  {
    if s == [] then [] else [UpperChar(s[0])] + Upper(s[1..])
  }

  /** Capital letters are fixed by `upper()` and recovered from `lower()`. */
  lemma UpperOfCapitals(s: string)
    requires forall i :: 0 <= i < |s| ==> 'A' <= s[i] <= 'Z'
    ensures Upper(s) == s && Upper(Lower(s)) == s
  {
    var u, l := Upper(s), Lower(s);
    forall i | 0 <= i < |s|
      ensures u[i] == s[i] && Upper(l)[i] == s[i]
    {
      CapitalChar(s[i]);
    }
  }

  /** Small letters are fixed by `lower()` and recovered from `upper()`. */
  lemma LowerOfSmall(s: string)
    requires forall i :: 0 <= i < |s| ==> 'a' <= s[i] <= 'z'
    ensures Lower(s) == s && Lower(Upper(s)) == s
  {
    var l, u := Lower(s), Upper(s);
    forall i | 0 <= i < |s|
      ensures l[i] == s[i] && Lower(u)[i] == s[i]
    {
      SmallChar(s[i]);
    }
  }

  lemma SmallChar(c: char)
    requires 'a' <= c <= 'z'
    ensures LowerChar(c) == c && LowerChar(UpperChar(c)) == c
  {
  }

  lemma CapitalChar(c: char)
    requires 'A' <= c <= 'Z'
    ensures UpperChar(c) == c && UpperChar(LowerChar(c)) == c
  {
  }

  /** A name in capitals, or in lower case, is itself after `strip().upper()`. */
  lemma CapitalsRead(s: string)
    requires forall i :: 0 <= i < |s| ==> 'A' <= s[i] <= 'Z'
    ensures Upper(Strip(s)) == s && Upper(Strip(Lower(s))) == s
  {
    UpperOfCapitals(s);
    CapitalsNoSpace(s);
    StripNoSpace(s);
    CapitalsNoSpace(Lower(s));
    StripNoSpace(Lower(s));
  }

  lemma CapitalsNoSpace(s: string)
    requires forall i :: 0 <= i < |s| ==> 'A' <= s[i] <= 'Z' || 'a' <= s[i] <= 'z'
    ensures NoSpace(s)
  {
  }

  // ---------------------------------------------------------------------------
  // Whitespace handling

  /** `s.lstrip()` */
  function LStrip(s: string): (r: string)
    ensures |r| <= |s| && r == s[|s| - |r|..]
    ensures r == [] || !IsSpace(r[0])
    ensures forall i :: 0 <= i < |s| - |r| ==> IsSpace(s[i])
  {
    if s != [] && IsSpace(s[0]) then LStrip(s[1..]) else s
  }

  /** `s.rstrip()` */
  function RStrip(s: string): (r: string)
    ensures |r| <= |s| && r == s[..|r|]
    ensures r == [] || !IsSpace(r[|r| - 1])
    ensures forall i :: |r| <= i < |s| ==> IsSpace(s[i])
  {
    if s != [] && IsSpace(s[|s| - 1]) then RStrip(s[..|s| - 1]) else s
  }

  /** `s.strip()` */
  function Strip(s: string): string {
    RStrip(LStrip(s))
  }

  lemma StripNoSpace(s: string)
    requires NoSpace(s)
    ensures Strip(s) == s
  {
  }

  /** The leading run of non-whitespace characters of `s`. */
  function Word(s: string): (r: string)
    ensures |r| <= |s| && r == s[..|r|] && NoSpace(r)
    ensures |r| < |s| ==> IsSpace(s[|r|])
    ensures s != [] && !IsSpace(s[0]) ==> r != []
  {
    if s == [] || IsSpace(s[0]) then [] else [s[0]] + Word(s[1..])
  }

  /** `s.split()`: the maximal runs of non-whitespace characters, in order. */
  function Split(s: string): seq<string>
    decreases |s|
  {
    var t := LStrip(s);
    if t == [] then [] else
      var w := Word(t);
      [w] + Split(t[|w|..])
  }

  /** Non-empty words without whitespace. */
  predicate AllWords(ws: seq<string>) {
    forall i :: 0 <= i < |ws| ==> ws[i] != [] && NoSpace(ws[i])
  }

  lemma AllWordsCons(w: string, ws: seq<string>)
    requires w != [] && NoSpace(w) && AllWords(ws)
    ensures AllWords([w] + ws)
  {
    assert forall i :: 1 <= i < |ws| + 1 ==> ([w] + ws)[i] == ws[i - 1];
  }

  /** Every word `split()` yields is a non-empty run without whitespace. */
  lemma {:induction false} SplitWords(s: string)
    ensures AllWords(Split(s))
    decreases |s|
  {
    var t := LStrip(s);
    if t != [] {
      var w := Word(t);
      SplitWords(t[|w|..]);
      AllWordsCons(w, Split(t[|w|..]));
    }
  }

  /** Words none of which holds `c`. */
  predicate AllLack(ws: seq<string>, c: char) {
    forall i :: 0 <= i < |ws| ==> Lacks(ws[i], c)
  }

  lemma AllLackCons(w: string, ws: seq<string>, c: char)
    requires Lacks(w, c) && AllLack(ws, c)
    ensures AllLack([w] + ws, c)
  {
    assert forall i :: 1 <= i < |ws| + 1 ==> ([w] + ws)[i] == ws[i - 1];
  }

  lemma LacksSlice(s: string, i: nat, j: nat, c: char)
    requires Lacks(s, c) && i <= j <= |s|
    ensures Lacks(s[i..j], c)
  {
    assert forall k :: 0 <= k < j - i ==> s[i..j][k] == s[i + k];
  }

  /** The words of a string without `c` have no `c` either. */
  lemma {:induction false} SplitLacks(s: string, c: char)
    requires Lacks(s, c)
    ensures AllLack(Split(s), c)
    decreases |s|
  {
    var t := LStrip(s);
    if t != [] {
      LacksSlice(s, |s| - |t|, |s|, c);
      var w := Word(t);
      LacksSlice(t, 0, |w|, c);
      LacksSlice(t, |w|, |t|, c);
      assert t[0..|w|] == w && t[|w|..|t|] == t[|w|..];
      SplitLacks(t[|w|..], c);
      AllLackCons(w, Split(t[|w|..]), c);
    }
  }

  lemma {:induction false} WordOf(w: string, rest: string)
    requires w != [] && NoSpace(w)
    requires rest == [] || IsSpace(rest[0])
    ensures Word(w + rest) == w
    decreases |w|
  {
    var t := w + rest;
    assert t[0] == w[0] && !IsSpace(t[0]);
    assert Word(t) == [w[0]] + Word(t[1..]);
    if |w| > 1 {
      assert t[1..] == w[1..] + rest;
      WordOf(w[1..], rest);
      assert w == [w[0]] + w[1..];
    } else {
      assert t[1..] == rest;
      assert Word(rest) == [];
    }
  }

  lemma LStripSpaces(sp: string, t: string)
    requires forall i :: 0 <= i < |sp| ==> IsSpace(sp[i])
    requires t == [] || !IsSpace(t[0])
    ensures LStrip(sp + t) == t
    decreases |sp|
  {
    if sp != [] {
      assert (sp + t)[1..] == sp[1..] + t;
      LStripSpaces(sp[1..], t);
    }
  }

  /** Splitting `sp + w + rest`, where `sp` is blank, `w` a word and `rest`
      empty or starting with whitespace, yields `w` then the words of `rest`. */
  lemma SplitCons(sp: string, w: string, rest: string)
    requires forall i :: 0 <= i < |sp| ==> IsSpace(sp[i])
    requires w != [] && NoSpace(w)
    requires rest == [] || IsSpace(rest[0])
    ensures Split(sp + w + rest) == [w] + Split(rest)
  {
    assert sp + w + rest == sp + (w + rest);
    LStripSpaces(sp, w + rest);
    WordOf(w, rest);
    assert (w + rest)[|w|..] == rest;
  }

  /** Splitting a word followed by whitespace (or nothing) yields the word
      then the words of the rest. */
  lemma SplitWord(w: string, rest: string)
    requires w != [] && NoSpace(w)
    requires rest == [] || IsSpace(rest[0])
    ensures Split(w + rest) == [w] + Split(rest)
  {
    var s := w + rest;
    assert LStrip(s) == s;
    WordOf(w, rest);
    assert s[|w|..] == rest;
  }

  lemma SplitBlank(sp: string)
    requires forall i :: 0 <= i < |sp| ==> IsSpace(sp[i])
    ensures Split(sp) == []
  {
    LStripSpaces(sp, []);
    assert sp + [] == sp;
  }

  lemma RStripSpaces(t: string, sp: string)
    requires t == [] || !IsSpace(t[|t| - 1])
    requires forall i :: 0 <= i < |sp| ==> IsSpace(sp[i])
    ensures RStrip(t + sp) == t
    decreases |sp|
  {
    if sp != [] {
      assert (t + sp)[..|t + sp| - 1] == t + sp[..|sp| - 1];
      RStripSpaces(t, sp[..|sp| - 1]);
    } else {
      assert t + sp == t;
    }
  }

  /** Whitespace padding after a word is removed by `strip()`. */
  lemma StripPadded(t: string, sp: string)
    requires t != [] && !IsSpace(t[0]) && !IsSpace(t[|t| - 1])
    requires forall i :: 0 <= i < |sp| ==> IsSpace(sp[i])
    ensures Strip(t + sp) == t
  {
    RStripSpaces(t, sp);
  }

  /** `s.ljust(n)`: `s` itself, then spaces up to `n` characters; never
      shorter than `s`. */
  function LJust(s: string, n: int): (r: string)
    ensures |r| == if n > |s| then n else |s|
    ensures r[..|s|] == s
    ensures forall i :: |s| <= i < |r| ==> r[i] == ' '
  {
    s + Repeat(' ', n - |s|)
  }

  // ---------------------------------------------------------------------------
  // Searching

  /** `sub` occurs in `s` at index `k`. */
  predicate OccursAt(s: string, sub: string, k: int) {
    0 <= k && k + |sub| <= |s| && s[k..k + |sub|] == sub
  }

  lemma OccursAtTail(s: string, sub: string, k: int)
    requires s != [] && k >= 1
    ensures OccursAt(s, sub, k) <==> OccursAt(s[1..], sub, k - 1)
  {
    if k + |sub| <= |s| {
      var t := s[1..];
      var u := s[k..k + |sub|];
      assert forall j :: 0 <= j < |sub| ==> u[j] == t[k - 1 + j];
      assert u == t[k - 1..k - 1 + |sub|];
    }
  }

  /** `s.find(sub)`: the first index of `sub` in `s`, or -1. */
  function Find(s: string, sub: string): (r: int)
    ensures r == -1 || OccursAt(s, sub, r)
  {
    if |sub| > |s| then -1
    else if s[..|sub|] == sub then 0
    else
      var k := Find(s[1..], sub);
      if k < 0 then -1 else (OccursAtTail(s, sub, k + 1); k + 1)
  }

  /** No occurrence of `sub` comes before the one `Find` reports, and there
      is none at all when it reports -1. */
  lemma {:induction false} FindFirst(s: string, sub: string)
    ensures forall k :: (Find(s, sub) < 0 || k < Find(s, sub)) ==> !OccursAt(s, sub, k)
  {
    if |sub| <= |s| && s[..|sub|] != sub {
      FindFirst(s[1..], sub);
      forall k | k >= 1
        ensures OccursAt(s, sub, k) <==> OccursAt(s[1..], sub, k - 1)
      {
        OccursAtTail(s, sub, k);
      }
    }
  }

  /** The string has no character `c`. */
  predicate Lacks(s: string, c: char) {
    forall i :: 0 <= i < |s| ==> s[i] != c
  }

  lemma LacksConcat(a: string, b: string, c: char)
    requires Lacks(a, c) && Lacks(b, c)
    ensures Lacks(a + b, c)
  {
    assert forall i :: |a| <= i < |a + b| ==> (a + b)[i] == b[i - |a|];
  }

  /** `find` reports the first position of a single character. */
  lemma FindCharAt(s: string, c: char, k: int)
    requires 0 <= k < |s| && s[k] == c
    requires forall j :: 0 <= j < k ==> s[j] != c
    ensures Find(s, [c]) == k
  {
    FindChar(s, c);
  }

  /** In `x + [c] + y`, where `x` has no `c`, `find(c)` is `|x|`. */
  lemma FindAfter(x: string, c: char, y: string)
    requires Lacks(x, c)
    ensures Find(x + [c] + y, [c]) == |x|
  {
    FindCharAt(x + [c] + y, c, |x|);
  }

  /** `s.rfind(c)` for a single character. */
  function RFind(s: string, c: char): (r: int)
    ensures -1 <= r < |s|
    ensures r >= 0 ==> s[r] == c
    ensures forall k :: r < k < |s| ==> s[k] != c
  {
    if s == [] then -1
    else if s[|s| - 1] == c then |s| - 1
    else RFind(s[..|s| - 1], c)
  }

  lemma FindChar(s: string, c: char)
    ensures Find(s, [c]) >= 0 ==> Find(s, [c]) < |s| && s[Find(s, [c])] == c
    ensures forall k :: 0 <= k < |s| && (Find(s, [c]) < 0 || k < Find(s, [c])) ==> s[k] != c
  {
    var r := Find(s, [c]);
    FindFirst(s, [c]);
    forall k | 0 <= k < |s| && (r < 0 || k < r)
      ensures s[k] != c
    {
      assert !OccursAt(s, [c], k);
      assert s[k..k + 1] == [s[k]];
    }
    if r >= 0 {
      assert OccursAt(s, [c], r);
      assert s[r..r + 1] == [s[r]];
    }
  }

  /** `s.count(sub) > 0` */
  predicate Contains(s: string, sub: string) {
    Find(s, sub) >= 0
  }

  /** `s.split(sep)` for a non-empty separator. */
  function SplitSep(s: string, sep: string): (r: seq<string>)
    requires sep != []
    ensures |r| >= 1
    decreases |s|
  {
    var i := Find(s, sep);
    if i < 0 then [s] else [s[..i]] + SplitSep(s[i + |sep|..], sep)
  }

  /** `sep.join(pieces)` */
  function Join(pieces: seq<string>, sep: string): string {
    if |pieces| == 0 then []
    else if |pieces| == 1 then pieces[0]
    else pieces[0] + sep + Join(pieces[1..], sep)
  }

  /** No piece of `s.split(sep)` contains `sep`. */
  lemma {:induction false} SplitSepPieces(s: string, sep: string)
    requires sep != []
    ensures forall k :: 0 <= k < |SplitSep(s, sep)| ==> !Contains(SplitSep(s, sep)[k], sep)
    decreases |s|
  {
    var i := Find(s, sep);
    if i >= 0 {
      FindFirst(s, sep);
      var j := Find(s[..i], sep);
      if j >= 0 {
        assert s[..i][j..j + |sep|] == s[j..j + |sep|];
        assert OccursAt(s, sep, j);
      }
      SplitSepPieces(s[i + |sep|..], sep);
    }
  }

  /** Joining the pieces of `s.split(sep)` with `sep` gives `s` back. */
  lemma {:induction false} SplitSepJoin(s: string, sep: string)
    requires sep != []
    ensures Join(SplitSep(s, sep), sep) == s
    decreases |s|
  {
    var i := Find(s, sep);
    if i >= 0 {
      var head, rest := s[..i], s[i + |sep|..];
      var tail := SplitSep(rest, sep);
      assert SplitSep(s, sep) == [head] + tail;
      calc {
        Join(SplitSep(s, sep), sep);
        { JoinCons(head, tail, sep); }
        head + sep + Join(tail, sep);
        { SplitSepJoin(rest, sep); }
        head + sep + rest;
        { assert s[i..i + |sep|] == sep; }
        s;
      }
    }
  }

  /** Joining a leading piece onto further pieces puts `sep` between them. */
  lemma JoinCons(head: string, tail: seq<string>, sep: string)
    requires |tail| >= 1
    ensures Join([head] + tail, sep) == head + sep + Join(tail, sep)
  {
    assert ([head] + tail)[1..] == tail;
  }

  // ---------------------------------------------------------------------------
  // Lines

  /** The line boundaries of `str.splitlines()`. */
  predicate IsLineBreak(c: char) {
    var k := c as int;
    10 <= k <= 13 || 28 <= k <= 30 || k == 0x85 || k == 0x2028 || k == 0x2029
  }

  predicate NoLineBreak(s: string) {
    forall i :: 0 <= i < |s| ==> !IsLineBreak(s[i])
  }

  /** Every line boundary is whitespace. */
  lemma LineBreakIsSpace(s: string)
    requires NoSpace(s)
    ensures NoLineBreak(s)
  {
  }

  lemma NoLineBreakConcat(a: string, b: string)
    requires NoLineBreak(a) && NoLineBreak(b)
    ensures NoLineBreak(a + b)
  {
    assert forall i :: |a| <= i < |a + b| ==> (a + b)[i] == b[i - |a|];
  }

  /** The index of the first line boundary of `s`, or `|s|`. */
  function LineEnd(s: string): (k: nat)
    ensures k <= |s|
    ensures k < |s| ==> IsLineBreak(s[k])
    ensures forall i :: 0 <= i < k ==> !IsLineBreak(s[i])
  {
    if s == [] || IsLineBreak(s[0]) then 0 else 1 + LineEnd(s[1..])
  }

  /** `s.splitlines()`: the text between line boundaries, where "\r\n" is a
      single boundary and a final boundary does not start an empty line. */
  function SplitLines(s: string): (r: seq<string>)
    ensures forall i :: 0 <= i < |r| ==> NoLineBreak(r[i])
    decreases |s|
  {
    if s == [] then []
    else
      var k := LineEnd(s);
      if k == |s| then [s]
      else
        var next := if s[k] == '\r' && k + 1 < |s| && s[k + 1] == '\n' then k + 2 else k + 1;
        [s[..k]] + SplitLines(s[next..])
  }

  lemma LineEndOf(line: string, rest: string)
    requires NoLineBreak(line)
    ensures LineEnd(line + "\n" + rest) == |line|
  {
    var s := line + "\n" + rest;
    assert IsLineBreak(s[|line|]);
    assert forall i :: 0 <= i < |line| ==> s[i] == line[i];
  }

  /** A line ended by "\n" is the first of the lines of the text it starts. */
  lemma SplitLinesCons(line: string, rest: string)
    requires NoLineBreak(line)
    ensures SplitLines(line + "\n" + rest) == [line] + SplitLines(rest)
  {
    var s := line + "\n" + rest;
    LineEndOf(line, rest);
    assert s[..|line|] == line;
    assert s[|line| + 1..] == rest;
  }

  // ---------------------------------------------------------------------------
  // Decimal integers

  function DigitValue(c: char): nat
    requires IsDigit(c)
  {
    c as int - '0' as int
  }

  function DigitChar(d: nat): char
    requires d < 10
  {
    ('0' as int + d) as char
  }

  /** The base-10 value of a digit string, most significant first. */
  function DecimalValue(s: string): nat
    requires forall i :: 0 <= i < |s| ==> IsDigit(s[i])
  {
    if s == [] then 0 else 10 * DecimalValue(s[..|s| - 1]) + DigitValue(s[|s| - 1])
  }

  predicate AllDigits(s: string) {
    forall i :: 0 <= i < |s| ==> IsDigit(s[i])
  }

  /** `str(n)` for a natural number: digits without leading zeros. */
  function NatToStr(n: nat): (r: string)
    ensures r != [] && AllDigits(r)
    ensures DecimalValue(r) == n
  {
    if n < 10 then [DigitChar(n)]
    else
      var r := NatToStr(n / 10) + [DigitChar(n % 10)];
      assert r[..|r| - 1] == NatToStr(n / 10);
      r
  }

  /** `str(n)` */
  function IntToStr(n: int): string {
    if n < 0 then "-" + NatToStr(-n) else NatToStr(n)
  }

  /** The string without its '_' characters. */
  function Unscored(s: string): string {
    if s == [] then []
    else (if s[0] == '_' then [] else [s[0]]) + Unscored(s[1..])
  }

  /** Without its underscores, a run of digits and underscores is all
      digits. */
  lemma {:induction false} UnscoredDigits(s: string)
    requires forall i :: 0 <= i < |s| ==> IsDigit(s[i]) || s[i] == '_'
    ensures AllDigits(Unscored(s))
  {
    if s != [] {
      UnscoredDigits(s[1..]);
    }
  }

  /** A run of digits has no underscores to drop. */
  lemma {:induction false} UnscoredPlain(s: string)
    requires AllDigits(s)
    ensures Unscored(s) == s
  {
    if s != [] {
      UnscoredPlain(s[1..]);
    }
  }

  /** The digit runs `int` accepts: digits, with single underscores
      allowed between two digits. */
  predicate DigitGroups(s: string) {
    s != [] && IsDigit(s[0]) && IsDigit(s[|s| - 1]) &&
    (forall i :: 0 <= i < |s| ==> IsDigit(s[i]) || s[i] == '_') &&
    (forall k :: 0 <= k < |s| ==> !OccursAt(s, "__", k))
  }

  /** A plain run of digits is a single digit group. */
  lemma PlainGroups(s: string)
    requires s != [] && AllDigits(s)
    ensures DigitGroups(s) && Unscored(s) == s
  {
    forall k | 0 <= k < |s|
      ensures !OccursAt(s, "__", k)
    {
      if k + 2 <= |s| {
        assert s[k..k + 2][0] == s[k];
      }
    }
    UnscoredPlain(s);
  }

  /** `int(s)`: surrounding whitespace, an optional sign, then decimal digits
      in groups split by single underscores; `None` where Python raises
      `ValueError`. */
  function ParseInt(s: string): (r: Option<int>)
  {
    var t := Strip(s);
    if t != [] && (t[0] == '-' || t[0] == '+') then
      var ds := t[1..];
      if DigitGroups(ds) then
        UnscoredDigits(ds);
        Some(if t[0] == '-' then -(DecimalValue(Unscored(ds)) as int) else DecimalValue(Unscored(ds)))
      else None
    else if DigitGroups(t) then
      UnscoredDigits(t);
      Some(DecimalValue(Unscored(t)))
    else None
  }

  lemma DigitsNoSpace(s: string)
    requires AllDigits(s)
    ensures NoSpace(s)
  {
  }

  /** A plain run of digits reads as its decimal value. */
  lemma ParseDigits(s: string)
    requires s != [] && AllDigits(s)
    ensures ParseInt(s) == Some(DecimalValue(s))
  {
    DigitsNoSpace(s);
    StripNoSpace(s);
    PlainGroups(s);
  }

  /** A plus sign then digits reads as the digits' value. */
  lemma ParsePlus(s: string)
    requires |s| >= 2 && s[0] == '+' && AllDigits(s[1..])
    ensures ParseInt(s) == Some(DecimalValue(s[1..]))
  {
    DigitsNoSpace(s[1..]);
    assert NoSpace(s) by {
      assert forall i :: 1 <= i < |s| ==> s[i] == s[1..][i - 1];
    }
    StripNoSpace(s);
    PlainGroups(s[1..]);
  }

  /** Digits grouped by single underscores read as the digits alone. */
  lemma ParseGrouped(s: string)
    requires DigitGroups(s)
    ensures AllDigits(Unscored(s)) && ParseInt(s) == Some(DecimalValue(Unscored(s)))
  {
    UnscoredDigits(s);
    assert NoSpace(s);
    StripNoSpace(s);
  }

  /** A word without whitespace or a sign is refused when it holds a
      character that is neither a digit nor an underscore, or when an
      underscore opens it, closes it or follows another. */
  lemma ParseRefuses(s: string)
    requires s != [] && NoSpace(s) && s[0] != '-' && s[0] != '+'
    requires (exists i :: 0 <= i < |s| && !IsDigit(s[i]) && s[i] != '_') ||
             s[0] == '_' || s[|s| - 1] == '_' || (exists k :: OccursAt(s, "__", k))
    ensures ParseInt(s) == None
  {
    StripNoSpace(s);
  }

  lemma IntToStrNoSpace(n: int)
    ensures IntToStr(n) != [] && NoSpace(IntToStr(n))
  {
  }

  /** `int(str(n)) == n` */
  lemma ParseIntToStr(n: int)
    ensures ParseInt(IntToStr(n)) == Some(n)
  {
    var s := IntToStr(n);
    IntToStrNoSpace(n);
    StripNoSpace(s);
    if n < 0 {
      assert s[1..] == NatToStr(-n);
      PlainGroups(s[1..]);
    } else {
      PlainGroups(s);
    }
  }
}
