# veriti core, modelled in Dafny

veriti is a Python library that generates test vectors for hardware
simulations. It also measures their functional coverage. This project models
its core and proves properties of that model.

- **Bit-vector codec** (`lib.py`): `to_logic` writes an integer or a list of
  bits as a binary string. It supports an optional width, truncation, two's
  complement for negatives and little-endian order. `from_logic` reads such a
  string back, signed or unsigned.
- **`Signal` register** (`model.py`): a width-bounded value built on the codec,
  with `set`, `as_logic`, bit access, `rand`, and the `get_ports`/`randomize`
  walk over a model's signals.
- **Coverage engine** (`coverage.py`): a registry of coverage nets with a
  shared iteration counter.
  - A `CoverPoint` counts events.
  - A `CoverGroup` partitions distinct values into macro bins.
  - A `CoverRange` cuts `range(0, stop)` into equal, possibly compressed steps.
  - A `CoverCross` flattens tuples in mixed radix into an inner range.
- **Small parsers**:
  - the event log (`log.py`): levels, time units, timestamps, records, tallies
    and the `read` level filter;
  - VHDL literal casts (`cast.py`);
  - port and generic bookkeeping (`config.py`).
- **Reference models of the test benches**:
  - the parity bit of `tests/t2/hamming.py`;
  - the ripple adder and its coverage-directed stimulus loop (`tests/t3/add_tb.py`);
  - the binary-to-BCD encoder (`tests/t4/bcd_enc_tb.py`);
  - the multi-rate tick timer (`tests/t5/timer_tb.py`).

Files and modules:

- `wrappers.dfy` (`Wrappers`): `Option` and `Result`. Python exceptions become
  `Err`, and the `-1` sentinels become `None`.
- `text.dfy` (`Text`): the Python string operations the core relies on:
  - slicing, `[::-1]`, `lower`/`upper`, `strip`, `split`, `find`/`rfind`,
    `ljust` and `splitlines`;
  - `int(s)` and `str(n)`.
- `bitcodec.dfy` (`BitCodec`): `lib.py`.
- `signals.dfy` (`SignalModel`): `model.py`. `Signal` is a class whose `value`
  field the methods rewrite.
- `config.dfy` (`Configuration`): `config.py`.
- `cast.dfy` (`Cast`): `cast.py`.
- `log.dfy` (`EventLog`): `log.py`.
- `coverage.dfy` (`CoverNets`): `coverage.py`.
  - The class-level `_group` list and `_counter` become a `Registry` object.
  - Each net class keeps its counters in an array that `cover` updates in place.
- `hamming.dfy` (`Hamming`), `adder.dfy` (`AdderBench`), `bcdenc.dfy`
  (`BcdBench`) and `timer.dfy` (`TimerBench`): the four test benches.

Randomness is a nondeterministic choice: `Signal.rand`, `next(rand=True)` and
the `random.*` calls in the scripts. Each contract says only where the chosen
value lands. Generics such as `WIDTH`, `DIGITS`, `SUB_DELAYS` and `BASE_DELAY`
are parameters.

Source paths below are relative to the repository root.

## Model

| member | source | states |
|---|---|---|
| Text.Reverse | sw-drivers/python/src/veriti/lib.py:50 | `s[::-1]` has the same length, with character `i` taken from position `len-1-i` |
| Text.ReverseReverse | sw-drivers/python/src/veriti/model.py:186-197 | reversing twice gives the string back, which `__setitem__` relies on |
| Text.Repeat | sw-drivers/python/src/veriti/config.py:25 | `x * n` has `max(n, 0)` copies of `x` |
| Text.Clamp | sw-drivers/python/src/veriti/log.py:165 | a slice bound normalised against a length stays within it and is unchanged when already inside |
| Text.Lower | sw-drivers/python/src/veriti/cast.py:9 | `lower()` keeps the length and turns each ASCII capital into its small letter, leaving every other character as it is |
| Text.Upper | sw-drivers/python/src/veriti/log.py:16 | `upper()` keeps the length and turns each ASCII small letter into its capital, leaving every other character as it is |
| Text.UpperOfCapitals | sw-drivers/python/src/veriti/log.py:16 | a name in capitals is fixed by `upper()` and recovered from its lower-case form |
| Text.LowerOfSmall | sw-drivers/python/src/veriti/model.py:23 | a lower-case name is fixed by `lower()` and recovered from its upper-case form |
| Text.CapitalsRead | sw-drivers/python/src/veriti/log.py:16 | a capitalised name, or its lower-case form, is itself after `strip().upper()` |
| Text.LStrip | sw-drivers/python/src/veriti/log.py:129 | `lstrip` drops exactly the leading whitespace: the result is a suffix that does not start with whitespace |
| Text.RStrip | sw-drivers/python/src/veriti/log.py:129 | `rstrip` drops exactly the trailing whitespace: the result is a prefix that does not end with whitespace |
| Text.StripNoSpace | sw-drivers/python/src/veriti/log.py:16 | `strip()` leaves a string without whitespace unchanged |
| Text.StripPadded | sw-drivers/python/src/veriti/log.py:129 | `strip()` removes the padding after a word |
| Text.Word | sw-drivers/python/src/veriti/log.py:131 | the leading run of non-whitespace is a prefix without whitespace, ended by whitespace or the end |
| Text.SplitWords | sw-drivers/python/src/veriti/log.py:131 | every word `split()` yields is non-empty and holds no whitespace |
| Text.SplitLacks | sw-drivers/python/src/veriti/log.py:169 | the words of a string without a character hold none of it either |
| Text.SplitCons | sw-drivers/python/src/veriti/log.py:131 | blanks, a word, then whitespace or nothing split into that word followed by the words of the rest |
| Text.SplitBlank | sw-drivers/python/src/veriti/log.py:131 | a blank string splits into no words |
| Text.LJust | sw-drivers/python/src/veriti/log.py:179 | `ljust(n)` is the string itself followed only by spaces, `max(n, len)` characters long: it pads to `n` and never shortens |
| Text.Find | sw-drivers/python/src/veriti/log.py:165 | `find` returns -1 or an index where the substring occurs |
| Text.FindFirst | sw-drivers/python/src/veriti/log.py:165 | no occurrence precedes the index `find` reports, and there is none at all when it reports -1 |
| Text.FindAfter | sw-drivers/python/src/veriti/log.py:165-169 | in `x + c + y`, where `x` has no `c`, `find(c)` is `len(x)` |
| Text.RFind | sw-drivers/python/src/veriti/log.py:167 | `rfind(c)` is -1 or an index holding `c`, with no `c` after it |
| Text.SplitSep | sw-drivers/python/src/veriti/cast.py:48 | `split(sep)` always yields at least one piece |
| Text.SplitSepPieces | sw-drivers/python/src/veriti/cast.py:48 | no piece `split(sep)` yields contains `sep` |
| Text.SplitSepJoin | sw-drivers/python/src/veriti/cast.py:48 | `sep.join(s.split(sep)) == s`: the pieces joined by the separator give the string back |
| Text.LineEnd | sw-drivers/python/src/veriti/log.py:228 | the first line boundary, or the end of the text, with no boundary before it |
| Text.SplitLines | sw-drivers/python/src/veriti/log.py:228 | no line `splitlines` yields contains a line boundary |
| Text.SplitLinesCons | sw-drivers/python/src/veriti/log.py:228 | a line ended by "\n" is the first line of the text it starts |
| Text.NatToStr | sw-drivers/python/src/veriti/log.py:140 | `str(n)` is a non-empty run of digits whose decimal value is `n` |
| Text.ParseDigits | sw-drivers/python/src/veriti/cast.py:17 | `int` of a run of digits is its decimal value |
| Text.ParsePlus | sw-drivers/python/src/veriti/cast.py:17 | `int` of a plus sign then digits is the digits' value |
| Text.ParseGrouped | sw-drivers/python/src/veriti/cast.py:17 | `int` of digits grouped by single underscores, such as "1_000", is the value of the digits with the underscores removed |
| Text.PlainGroups | sw-drivers/python/src/veriti/cast.py:17 | a plain run of digits is such a grouping, with nothing removed |
| Text.ParseRefuses | sw-drivers/python/src/veriti/cast.py:17 | a word without a sign is refused (Python's `ValueError`) when it holds a character that is neither a digit nor '_', starts or ends with '_', or holds two '_' in a row |
| Text.ParseIntToStr | sw-drivers/python/src/veriti/log.py:135-140 | `int(str(n)) == n` for every integer |
| BitCodec.Pow2m1IsAllOnes | sw-drivers/python/src/veriti/lib.py:14-18 | `pow2m1(w)` is the value of `w` ones and bounds the value of every `w`-character bit string |
| BitCodec.Pow2m1Examples | sw-drivers/python/src/veriti/lib.py:258-273 | the test values `pow2m1(0..8)` and `pow(3, 4) == 81` |
| BitCodec.PowOfTwo | sw-drivers/python/src/veriti/lib.py:21-25 | `pow(2, n)` is `2^n` |
| BitCodec.PowAdd | sw-drivers/python/src/veriti/lib.py:21-25 | `pow(b, m + n) == pow(b, m) * pow(b, n)` |
| BitCodec.UnsignedConcat | sw-drivers/python/src/veriti/lib.py:101 | `int('0b' + a + b, 2)` is the value of `a` shifted by `len(b)` plus the value of `b` |
| BitCodec.UnsignedBound | sw-drivers/python/src/veriti/lib.py:101 | an `n`-character bit string is worth less than `2^n` |
| BitCodec.LeadingBit | sw-drivers/python/src/veriti/lib.py:95 | the leading bit is '1' exactly when the value reaches `2^(n-1)` |
| BitCodec.BitOfUnsigned | sw-drivers/python/src/veriti/lib.py:101 | bit `i` of a string's value is the character `i` places from the right |
| BitCodec.UnsignedInjective | sw-drivers/python/src/veriti/lib.py:101 | equal-length bit strings with equal values are equal |
| BitCodec.FlipComplement | sw-drivers/python/src/veriti/lib.py:96-99 | the flipped string and the original add up to `2^n - 1` |
| BitCodec.FromLogic | sw-drivers/python/src/veriti/lib.py:84-101 | with `signed` and a leading '1` the value is `unsigned(b) - 2^len(b)`, otherwise the plain base-2 value; signed results lie in `[-2^(n-1), 2^(n-1))`, unsigned ones in `[0, 2^n)` |
| BitCodec.Binary | sw-drivers/python/src/veriti/lib.py:55-67 | `bin(m)[2:]` is a bit string worth `m` with bit-length many digits ("0" for 0) |
| BitCodec.AutoWidth | sw-drivers/python/src/veriti/lib.py:58-62 | the automatic width is at least 1, holds a non-negative `n`, and holds a negative `n` together with its sign bit |
| BitCodec.AutoWidthLength | sw-drivers/python/src/veriti/lib.py:58-79 | without a width the string has exactly the automatic width, in either order and with or without truncation |
| BitCodec.AutoWidthDecodes | sw-drivers/python/src/veriti/lib.py:58-101 | without a width, decoding with `signed = n < 0` gives `n` back |
| BitCodec.BitLengthExact | sw-drivers/python/src/veriti/lib.py:58-62 | a value in `[2^(k-1), 2^k)` has exactly `k` binary digits |
| BitCodec.ZFill | sw-drivers/python/src/veriti/lib.py:71 | `zfill(w)` yields `max(len, w)` characters |
| BitCodec.ZFillValue | sw-drivers/python/src/veriti/lib.py:71 | zero filling keeps the value |
| BitCodec.LowBits | sw-drivers/python/src/veriti/lib.py:74-75 | the last `w` characters are worth the value modulo `2^w` |
| BitCodec.LittleEndianIsReverse | sw-drivers/python/src/veriti/lib.py:78-79 | `big_endian=False` gives exactly the reverse of `big_endian=True`, for every operand, width and truncation |
| BitCodec.ToLogicFixedWidth | sw-drivers/python/src/veriti/lib.py:63-79 | with width `w` and truncation the result is exactly `w` binary characters worth `n mod 2^w`: two's complement for negatives, low bits for over-wide values |
| BitCodec.FixedWidthValue | sw-drivers/python/src/veriti/lib.py:63-75 | with width `w` and truncation the result has `w` binary characters |
| BitCodec.CutDigits | sw-drivers/python/src/veriti/lib.py:63-75 | the zero-filled, truncated digits of `n` are `w` bits worth `n mod 2^w` |
| BitCodec.ToLogicNeverTruncatesUnasked | sw-drivers/python/src/veriti/lib.py:70-75 | without truncation the width only pads: at least `w` characters, and the value is kept |
| BitCodec.RoundTripUnsigned | sw-drivers/python/src/veriti/lib.py:54-101 | `from_logic(to_logic(n, w)) == n` for `0 <= n < 2^w` |
| BitCodec.RoundTripSigned | sw-drivers/python/src/veriti/lib.py:54-101 | `from_logic(to_logic(n, w), signed=True) == n` for `-2^(w-1) <= n < 2^(w-1)` |
| BitCodec.SignedValue | sw-drivers/python/src/veriti/lib.py:95-99 | a `w`-bit string worth `n mod 2^w`, for `n` in the signed range, decodes as signed to `n` |
| BitCodec.AutoWidthIsFixedWidth | sw-drivers/python/src/veriti/lib.py:58-75 | omitting the width is the same as passing the automatic width |
| BitCodec.AutoWidthRoundTrip | sw-drivers/python/src/veriti/lib.py:54-101 | without a width the string has the automatic width, and decoding with `signed = n < 0` gives `n` back |
| BitCodec.ToLogicOfUnsigned | sw-drivers/python/src/veriti/lib.py:63-101 | encoding a bit string's own value at its own width reproduces the string |
| BitCodec.ToLogicBit | sw-drivers/python/src/veriti/lib.py:63-75 | bit `i` of `n mod 2^w` sits `i` places from the right of the big-endian string |
| BitCodec.EncodingIsUnique | sw-drivers/python/src/veriti/lib.py:63-75 | the fixed-width encoding is the only `w`-character bit string worth `n mod 2^w` |
| BitCodec.ListToLogic | sw-drivers/python/src/veriti/lib.py:46-52 | a list becomes its reversed characters, so element 0 is the least significant; the default width is the list length; little-endian keeps list order |
| BitCodec.ListTruncation | sw-drivers/python/src/veriti/lib.py:46-75 | an explicit width keeps the last `w` characters of the default list encoding |
| BitCodec.ReversedListValue | sw-drivers/python/src/veriti/lib.py:46-50 | the reversed list string is worth the list read least significant first |
| BitCodec.ListRoundTrip | sw-drivers/python/src/veriti/lib.py:46-101 | decoding a list's default encoding gives its little-endian value |
| BitCodec.UnsignedExamples | sw-drivers/python/src/veriti/lib.py:203-211 | the test cases `to_logic(1, 3)`, `to_logic(2)`, `to_logic(5)` and `to_logic(0)` |
| BitCodec.SignedExamples | sw-drivers/python/src/veriti/lib.py:207-213 | the test cases `to_logic(-5) == '1011'` and `to_logic(-1) == '11'` |
| BitCodec.NegativeAutoWidth | sw-drivers/python/src/veriti/lib.py:58-67 | a negative integer without a width is its two's complement in the automatic width |
| BitCodec.TruncationExamples | sw-drivers/python/src/veriti/lib.py:215-217 | the test cases `to_logic(15, 5) == '01111'` and `to_logic(15, 2) == '11'` |
| BitCodec.WideExamples | sw-drivers/python/src/veriti/lib.py:219-225 | the test cases `to_logic(3, 4)[:2] == '00'`, `to_logic(2**32)` (a one and 32 zeros) and `to_logic(6) == '110'` |
| BitCodec.PowerOfTwoEncoding | sw-drivers/python/src/veriti/lib.py:54-71 | `2^k` is written as a one followed by `k` zeros, for every `k` |
| BitCodec.EndianExamples | sw-drivers/python/src/veriti/lib.py:223-227 | the little-endian test cases `'011'` and `'01'` for 6 |
| BitCodec.ListExamples | sw-drivers/python/src/veriti/lib.py:231-239 | the list test cases `'0110'`, `'000111'` and `'111000'` |
| BitCodec.ListTruncationExamples | sw-drivers/python/src/veriti/lib.py:241-245 | the truncated list test cases `'101'` and `'11'` |
| BitCodec.FromLogicExamples | sw-drivers/python/src/veriti/lib.py:249-255 | the test cases `'1010'` (10, and -6 when signed) and `'00000101'` (5) |
| SignalModel.ModeFromStr | sw-drivers/python/src/veriti/model.py:21-33 | accepts exactly "in", "out", "inout" and "local" in any case, giving the direction of that name; anything else is an error |
| SignalModel.ModeNameRoundTrip | sw-drivers/python/src/veriti/model.py:13-33 | every direction is read back from its name in either case, and "infer" is refused |
| SignalModel.ModeReadsBack | sw-drivers/python/src/veriti/model.py:21-33 | every direction but INFER is read back from its name, in lower or upper case |
| SignalModel.InferRefused | sw-drivers/python/src/veriti/model.py:21-33 | the name "infer" is refused |
| SignalModel.Signal.constructor | sw-drivers/python/src/veriti/model.py:39-53 | a missing or non-positive width becomes 1, and the initial value is wrapped modulo `2^width` |
| SignalModel.SignalWidth | sw-drivers/python/src/veriti/model.py:41-44 | the width a signal settles on: the requested one when positive, otherwise 1 |
| SignalModel.SignalFromText | sw-drivers/python/src/veriti/model.py:39-53 | `Signal(width, value=s)` with a string exists exactly when the characters `set` keeps are a non-empty binary string (Python raises on an empty string and on most other text); it then has the settled width, the given mode, order and name, holds `from_logic` of the kept characters, and prints a full-width string back unchanged |
| SignalModel.Signal.Max | sw-drivers/python/src/veriti/model.py:63-68 | `max()` is the value of `width` ones, at least the value of any `width`-character string |
| SignalModel.Signal.AsLogic | sw-drivers/python/src/veriti/model.py:101-108 | exactly `width` binary characters worth `value mod 2^width`, read most significant first, or least significant first for a little-endian signal |
| SignalModel.Signal.SetInt | sw-drivers/python/src/veriti/model.py:122-123 | an integer `set` stores `num mod 2^width`, which lies in `[min(), max()]` |
| SignalModel.Signal.Kept | sw-drivers/python/src/veriti/model.py:124-131 | a string `set` converts the rightmost `width` characters, after undoing little-endian order |
| SignalModel.KeptBits | sw-drivers/python/src/veriti/model.py:124-131 | the characters a string `set` converts: the last `width` of a big-endian string, the first `width` reversed for a little-endian one, and the whole string when it is shorter |
| SignalModel.Signal.KeptFullWidth | sw-drivers/python/src/veriti/model.py:124-131 | a full-width string is converted whole, reversed first when the signal is little-endian |
| SignalModel.Signal.SetStr | sw-drivers/python/src/veriti/model.py:124-132 | a binary string `set` stores `from_logic` of the kept characters, within bounds when unsigned; a full-width string is printed back unchanged by `as_logic()`; a string `from_logic` would raise on leaves the value unchanged |
| SignalModel.StringReadsBack | sw-drivers/python/src/veriti/model.py:101-132 | a `w`-bit string read back as `n` is printed again as the same string in its own bit order |
| SignalModel.Signal.GetBit | sw-drivers/python/src/veriti/model.py:149-179 | `get_bit(i)` is defined exactly for `-width <= i < width` and is bit `i` of the value (counted from the end for negative `i`), whatever the endianness |
| SignalModel.Signal.LsbFirstBit | sw-drivers/python/src/veriti/model.py:174-179 | the least-significant-first view of `as_logic()` holds bit `i` of the value at `i` |
| SignalModel.Signal.LsbFirstBits | sw-drivers/python/src/veriti/model.py:101-108 | character `j` of the least-significant-first view is bit `j` of the value |
| SignalModel.LsbView | sw-drivers/python/src/veriti/model.py:174-179 | the same for any value and width, in either endianness |
| SignalModel.Signal.SetBit | sw-drivers/python/src/veriti/model.py:137-146 | bit `key` becomes 1 exactly when the written bit is 1, every other bit keeps its old value, and a key outside `[0, width)` only wraps the value |
| SignalModel.RebuildWith | sw-drivers/python/src/veriti/model.py:188-194 | the `__setitem__` loop yields the string with position `key` replaced |
| SignalModel.ReplacedValue | sw-drivers/python/src/veriti/model.py:182-198 | the rebuilt string's value differs from the old value at most in bit `key`, and equals it for an out-of-range key |
| SignalModel.Signal.Rand | sw-drivers/python/src/veriti/model.py:86-91 | `rand()` leaves a value between `min()` and `max()` |
| SignalModel.EqualsAndLogic | sw-drivers/python/src/veriti/model.py:160-167 | equal signals print alike; same-width non-negative signals that print alike are equal |
| SignalModel.LastSignalFound | sw-drivers/python/src/veriti/model.py:218-228 | the signal found for a name belongs to an attribute of that name, and nothing is found only when no attribute has it |
| SignalModel.PortTable | sw-drivers/python/src/veriti/model.py:208-230 | the port table maps exactly the names that are both defined and in the interface, each to the last signal of that name |
| SignalModel.GetPorts | sw-drivers/python/src/veriti/model.py:233-253 | succeeds exactly when every inferred mode resolves; lists exactly the signals whose resolved mode is `mode`, in ascending port order |
| SignalModel.Randomize | sw-drivers/python/src/veriti/model.py:256-265 | every IN port gets a value in `[min(), max()]` and no other signal changes; where `get_ports` raises, nothing changes |
| Configuration.Tab | sw-drivers/python/src/veriti/config.py:21-25 | `TAB(n)` is `2n` spaces, none for `n <= 0` |
| Configuration.TabExamples | sw-drivers/python/src/veriti/config.py:21-25 | `TAB(0)`, `TAB(1)`, `TAB(3)` and `TAB(-2)` |
| Configuration.FirstPortIsFirst | sw-drivers/python/src/veriti/config.py:75-82 | the search gives -1 exactly when no port has the name, and otherwise the smallest index of a port with it |
| Configuration.ApplyGenericsLastWins | sw-drivers/python/src/veriti/config.py:48-54 | a name is present after the updates exactly when it was before or is declared; the last declaration's default wins, and undeclared names keep their value |
| Configuration.Config.constructor | sw-drivers/python/src/veriti/config.py:36-37 | no ports and no generics |
| Configuration.Config.ReadBenchIf | sw-drivers/python/src/veriti/config.py:48-54 | each generic's default is stored under its name, in order; the ports are unchanged |
| Configuration.Config.ReadDesignIf | sw-drivers/python/src/veriti/config.py:57-65 | the port list is replaced by the document's ports in order; the generics are unchanged |
| Configuration.Config.LocatePort | sw-drivers/python/src/veriti/config.py:75-82 | the loop returns the first index of a port with the name, or -1 |
| Configuration.Config.GetPort | sw-drivers/python/src/veriti/config.py:84-88 | defined exactly for `-len <= i < len`, giving the `i`-th port (counted from the end for negative `i`) |
| Cast.FlagsIgnoreCase | sw-drivers/python/src/veriti/cast.py:4-25 | booleans and options read the same in upper, lower or mixed case |
| Cast.LowerIdempotent | sw-drivers/python/src/veriti/cast.py:9 | lowering twice is lowering once |
| Cast.FlagExamples | sw-drivers/python/src/veriti/cast.py:4-25 | "true" in any case is true, and "false" and " true" are not; "ENABLE" enables and "true" does not |
| Cast.IntRoundTrip | sw-drivers/python/src/veriti/cast.py:12-17 | every integer's decimal text is read back as that integer |
| Cast.IntExamples | sw-drivers/python/src/veriti/cast.py:12-17 | "42" and "+3" are read as 42 and 3 |
| Cast.BadIntExamples | sw-drivers/python/src/veriti/cast.py:12-17 | "", "-" and "1.5" are refused |
| Cast.Elements | sw-drivers/python/src/veriti/cast.py:46-48 | dropping the brackets and splitting on ',' gives at least one element, none containing ','; joined by ',' they give back the text between the brackets |
| Cast.FromVhdlVec | sw-drivers/python/src/veriti/cast.py:44-59 | the filling loop computes `Vec`: one zero slot per element, each element applied in order, or the error at the first element Python raises on |
| Cast.FromVhdlInts | sw-drivers/python/src/veriti/cast.py:28-32 | `_from_vhdl_vec` with the integer cast |
| Cast.FromVhdlBools | sw-drivers/python/src/veriti/cast.py:35-39 | `_from_vhdl_vec` with the boolean cast |
| Cast.FillLastWriter | sw-drivers/python/src/veriti/cast.py:49-58 | a slot no element writes keeps its zero; a written slot holds what its last writer wrote |
| Cast.VecSlots | sw-drivers/python/src/veriti/cast.py:44-59 | a successful cast has exactly one slot per element; unwritten slots are 0, and later writes overwrite earlier ones |
| Cast.PlainElements | sw-drivers/python/src/veriti/cast.py:56-57 | a plain element is stored as `int(x)` in its own slot, whatever cast was asked for |
| EventLog.LevelFromStr | sw-drivers/python/src/veriti/log.py:13-32 | the level whose name is `s.strip().upper()`, and `None` (Python's -1) exactly when no level has that name |
| EventLog.LevelNameRoundTrip | sw-drivers/python/src/veriti/log.py:13-36 | every level is read back from its name, in upper or lower case |
| EventLog.LevelNameInjective | sw-drivers/python/src/veriti/log.py:5-11 | distinct levels have distinct names |
| EventLog.LevelTextRoundTrip | sw-drivers/python/src/veriti/log.py:13-36 | the printed level, or the sentinel's text, reads back as itself |
| EventLog.OutcomeLevels | sw-drivers/python/src/veriti/log.py:39-50 | a failure is exactly ERROR or FATAL, a pass is exactly INFO, and no level is both |
| EventLog.UnitFromStr | sw-drivers/python/src/veriti/log.py:65-88 | the unit whose name is `s.strip().upper()`, and `None` exactly when no unit has that name |
| EventLog.UnitNameRoundTrip | sw-drivers/python/src/veriti/log.py:65-92 | every unit is read back from its printed lower-case form and from its name |
| EventLog.UnitNameInjective | sw-drivers/python/src/veriti/log.py:55-63 | distinct units have distinct names |
| EventLog.JumpsScale | sw-drivers/python/src/veriti/log.py:101-107 | the product of the jumps between two units is the ratio of their lengths |
| EventLog.JumpsRatio | sw-drivers/python/src/veriti/log.py:101-113 | the product of the jumps `convert` multiplies is 1 for the same unit and otherwise the ratio of the two units' lengths |
| EventLog.Convert | sw-drivers/python/src/veriti/log.py:95-113 | the conversion factor times the target's length is the unit's length; towards a smaller unit it is a whole number, and towards a larger one the reciprocal of one |
| EventLog.TimestampFromStr | sw-drivers/python/src/veriti/log.py:126-136 | the sentinel exactly when the stripped text is not two words |
| EventLog.TimestampStrShape | sw-drivers/python/src/veriti/log.py:139-140 | a printed timestamp is one or two plain words, with no padding |
| EventLog.TimestampWords | sw-drivers/python/src/veriti/log.py:126-140 | a printed timestamp splits into its tick count and unit, and the sentinel into "-1" |
| EventLog.TimestampRoundTrip | sw-drivers/python/src/veriti/log.py:126-140 | a printed timestamp, padded with whitespace, parses back to itself, the sentinels included |
| EventLog.UnitTextRoundTrip | sw-drivers/python/src/veriti/log.py:88-92 | the printed unit, or the "-1" of the sentinel, reads back as itself |
| EventLog.ParsedTopic | sw-drivers/python/src/veriti/log.py:163-173 | every topic `Record.from_str` produces is one word without quotes |
| EventLog.RecordFinds | sw-drivers/python/src/veriti/log.py:165-169 | in a printed record the parser's `find` and `rfind` land on the delimiters `__str__` wrote |
| EventLog.RecordPieces | sw-drivers/python/src/veriti/log.py:165-169 | the pieces the parser slices out of a printed record are its timestamp, middle and cause fields |
| EventLog.MiddleWords | sw-drivers/python/src/veriti/log.py:169-172 | the middle field splits into the level's name and the topic |
| EventLog.RecordRoundTrip | sw-drivers/python/src/veriti/log.py:162-195 | `Record.from_str(str(r)) == r` whenever the topic is one word without quotes; the cause may contain quotes |
| EventLog.ParseRecordExample | sw-drivers/python/src/veriti/log.py:373-377 | the record line of the parse test reads as 1040 ns, INFO, TIMEOUT and its cause |
| EventLog.FailCount | sw-drivers/python/src/veriti/log.py:216-217 | at most the number of records, and zero exactly when no record fails |
| EventLog.PassCount | sw-drivers/python/src/veriti/log.py:216-217 | at most the number of records |
| EventLog.Tally | sw-drivers/python/src/veriti/log.py:209-219 | the counting loop: passes and fails are the counts of passing and failing records, and `tests == passes + fails` |
| EventLog.Log.constructor | sw-drivers/python/src/veriti/log.py:202-220 | keeps the records, with consistent tallies |
| EventLog.Log.IsSuccess | sw-drivers/python/src/veriti/log.py:247-251 | success exactly when no record failed |
| EventLog.Log.Score | sw-drivers/python/src/veriti/log.py:279-280 | passes over tests, `None` exactly when there is no test |
| EventLog.CollectAt | sw-drivers/python/src/veriti/log.py:228-229 | collecting succeeds exactly when every line parses, and then keeps each record in place |
| EventLog.CollectStops | sw-drivers/python/src/veriti/log.py:228-229 | collecting stops with the error of the first line that does not parse |
| EventLog.ParseAll | sw-drivers/python/src/veriti/log.py:228-232 | the loop over the lines computes the collection |
| EventLog.LogFromStr | sw-drivers/python/src/veriti/log.py:224-233 | succeeds exactly when every line parses with a known level, keeping the records in order |
| EventLog.Read | sw-drivers/python/src/veriti/log.py:285-297 | the printed records whose level value is at least `level`, one per line, in log order |
| EventLog.KeptMembers | sw-drivers/python/src/veriti/log.py:290-295 | `read` keeps exactly the records at or above the level |
| EventLog.KeptAll | sw-drivers/python/src/veriti/log.py:290-295 | at a level of 0 or below every record is kept |
| EventLog.KeptNone | sw-drivers/python/src/veriti/log.py:290-295 | above FATAL nothing is kept |
| EventLog.RecordOneLine | sw-drivers/python/src/veriti/log.py:176-188 | a printable record prints on a single line |
| EventLog.RenderLines | sw-drivers/python/src/veriti/log.py:285-297 | `splitlines` recovers the lines `read` printed |
| EventLog.RenderRoundTrip | sw-drivers/python/src/veriti/log.py:223-233 | what `read` prints of printable records parses back to those records |
| EventLog.ReadReparses | sw-drivers/python/src/veriti/log.py:285-297 | the output of `read` loads back as exactly the records it kept |
| CoverNets.CeilDiv | sw-drivers/python/src/veriti/coverage.py:449 | the integer ceiling of `a / b`: the least `q` with `b * q >= a` |
| CoverNets.MixedRadixBound | sw-drivers/python/src/veriti/coverage.py:722-734 | digits below their radices flatten to less than the product of the radices |
| CoverNets.MixedRadixStep | sw-drivers/python/src/veriti/coverage.py:730-733 | adding one digit times the product of the radices below it extends the flattened index |
| CoverNets.FlattenExamples | sw-drivers/python/src/veriti/coverage.py:758-776 | the 2-D and 3-D flattening test values, with `(1, 2, 3)` giving 23 |
| CoverNets.FirstBelow | sw-drivers/python/src/veriti/coverage.py:328-342 | the first counter below the goal, with every earlier one at or above it |
| CoverNets.Distinct | sw-drivers/python/src/veriti/coverage.py:224 | `set(bins)`: the same members, without repetition |
| CoverNets.ItemsPerBin | sw-drivers/python/src/veriti/coverage.py:218-221 | at least 1; for more bins than `max_bins`, `floor(len(bins) / max_bins)` |
| CoverNets.BinAdvance | sw-drivers/python/src/veriti/coverage.py:228-233 | value `i` opens a new macro bin exactly when the last one is full |
| CoverNets.Partition | sw-drivers/python/src/veriti/coverage.py:224-234 | the initialisation loop computes the chunks of `ipb` values and the position lookup |
| CoverNets.PartitionShape | sw-drivers/python/src/veriti/coverage.py:224-234 | the macro bins partition the distinct values in order, `ipb` to a bin with only the last one partial, `ceil(n / ipb)` bins, and value `v` in bin `lookup[v] / ipb` |
| CoverNets.PlacedAll | sw-drivers/python/src/veriti/coverage.py:224-234 | once every value is placed, the loop state is that partition |
| CoverNets.Registry.constructor | sw-drivers/python/src/veriti/coverage.py:33-34 | no nets and a zero counter |
| CoverNets.Registry.Register | sw-drivers/python/src/veriti/coverage.py:37-41 | a net joins the end of the registry and the counter is unchanged |
| CoverNets.Registry.Pop | sw-drivers/python/src/veriti/coverage.py:707 | the last net is removed |
| CoverNets.Registry.AllPassed | sw-drivers/python/src/veriti/coverage.py:103-122 | true at once when `timeout > 0` and the counter has reached it; otherwise true exactly when every net is skipped or met its goal, with the counter raised by 1 on false and unchanged on true |
| CoverNets.Registry.Percent | sw-drivers/python/src/veriti/coverage.py:165-186 | the nets that passed out of those not skipped, `None` exactly when every net is skipped |
| CoverNets.NetPassed | sw-drivers/python/src/veriti/coverage.py:57-62 | `passed` dispatched on the kind of net |
| CoverNets.NetStatus | sw-drivers/python/src/veriti/coverage.py:91-100 | SKIPPED exactly when bypassed; otherwise PASSED exactly when the goal is met, else FAILED |
| CoverNets.Counted | sw-drivers/python/src/veriti/coverage.py:179-182 | no more counted nets than nets |
| CoverNets.PassedCountBound | sw-drivers/python/src/veriti/coverage.py:176-186 | no more nets passed than were counted |
| CoverNets.FullScore | sw-drivers/python/src/veriti/coverage.py:176-186 | the score is full exactly when every net is skipped or met its goal, that is, when `all_passed` would say so |
| CoverNets.CoverPoint.constructor | sw-drivers/python/src/veriti/coverage.py:623-636 | a zero count, and the point is registered last |
| CoverNets.CoverPoint.Cover | sw-drivers/python/src/veriti/coverage.py:651-659 | returns the mapped value, counts it exactly when it is 1, and never undoes a met goal |
| CoverNets.CoverGroup.constructor | sw-drivers/python/src/veriti/coverage.py:195-241 | the distinct values are partitioned into `ceil(n / ipb)` macro bins with all counters at zero, and the group is registered last |
| CoverNets.NewCoverGroup | sw-drivers/python/src/veriti/coverage.py:195-241 | fails (Python's `ZeroDivisionError`) exactly when `max_bins` is 0 and there are bins, leaving the registry as it was; otherwise a group as the constructor builds it, with `ItemsPerBin` values to a bin, registered last |
| CoverNets.CoverGroup.Bin | sw-drivers/python/src/veriti/coverage.py:261-269 | a known value's macro bin is an existing counter |
| CoverNets.CoverGroup.Passed | sw-drivers/python/src/veriti/coverage.py:345-354 | true exactly when every macro bin has met the goal |
| CoverNets.CoverGroup.Cover | sw-drivers/python/src/veriti/coverage.py:280-308 | a known value raises exactly its own bin's counter and the total by 1 (the counters become `Bumped` at its bin), and reports progress exactly when that bin was below the goal; any other value changes nothing; a met goal stays met |
| CoverNets.CoverGroup.Next | sw-drivers/python/src/veriti/coverage.py:311-342 | raises exactly when mapped; `None` exactly when every bin met the goal; otherwise an item of an unmet bin, the first item of the first unmet bin when not random |
| CoverNets.CoverRange.constructor | sw-drivers/python/src/veriti/coverage.py:427-469 | the span's step and length, or, past `max_steps`, `ceil(stop / max_steps)` and `max_steps`; counters at zero; registered last |
| CoverNets.NewCoverRange | sw-drivers/python/src/veriti/coverage.py:427-469 | fails (Python's `ZeroDivisionError`) exactly when `max_steps` is 0 and the span is not empty, leaving the registry as it was; otherwise a range over the span, with no steps when `max_steps` is 0, registered last |
| CoverNets.CoverRange.Bin | sw-drivers/python/src/veriti/coverage.py:519 | a legal value's step is an existing counter |
| CoverNets.CoverRange.Passed | sw-drivers/python/src/veriti/coverage.py:486-495 | true exactly when every step has met the goal |
| CoverNets.CoverRange.Cover | sw-drivers/python/src/veriti/coverage.py:510-535 | a value in `[start, stop)` raises exactly its step's counter and the total by 1 (the counters become `Bumped` at its step), with progress exactly when that step was below the goal; any other value changes nothing; a met goal stays met |
| CoverNets.CoverRange.Next | sw-drivers/python/src/veriti/coverage.py:538-569 | raises exactly when mapped; `None` exactly when every step met the goal; otherwise a value whose step is unmet, the start of the first unmet step when not random |
| CoverNets.StepStartsInRange | sw-drivers/python/src/veriti/coverage.py:443-446 | without compression every step starts inside the range |
| CoverNets.CompressedStepPastStop | sw-drivers/python/src/veriti/coverage.py:447-450 | with compression it need not: `range(0, 9)` in at most 4 steps has a last step starting at 9 |
| CoverNets.FlatBound | sw-drivers/python/src/veriti/coverage.py:722-734 | a tuple inside every range flattens below the product of the step counts |
| CoverNets.CoverCross.constructor | sw-drivers/python/src/veriti/coverage.py:689-710 | an inner range over all step combinations with zero counters; the registry gains exactly one entry, the cross itself |
| CoverNets.CoverCross.Weight | sw-drivers/python/src/veriti/coverage.py:730-732 | the inner loop's product of the step counts below component `k` |
| CoverNets.CoverCross.Flatten | sw-drivers/python/src/veriti/coverage.py:713-734 | an error exactly on an arity mismatch, `None` exactly when a component is outside its range, and otherwise the mixed-radix index, first component least significant, below the number of combinations |
| CoverNets.CoverCross.Cover | sw-drivers/python/src/veriti/coverage.py:737-741 | a legal tuple raises exactly the inner counter of its index and the inner total by 1, with progress when it was below the goal; an illegal one changes nothing and reports no progress |
| CoverNets.CoverCross.Passed | sw-drivers/python/src/veriti/coverage.py:744-745 | the inner range's verdict |
| Hamming.Ones | tests/t2/hamming.py:15 | `arr.count(1)` is at most the length |
| Hamming.OnesConcat | tests/t2/hamming.py:15 | the ones of a concatenation add up |
| Hamming.ParityBit | tests/t2/hamming.py:6-15 | the bit is 0 or 1, and the ones plus the bit are even with `use_even` and odd without it |
| Hamming.ParityWord | tests/t2/hamming.py:6-15 | appending the parity bit gives a word of the requested parity |
| Hamming.ParityFlipsAndCounts | tests/t2/hamming.py:15 | the even and odd bits of a list are complements, and the bit depends only on the number of ones |
| Hamming.ParityExamples | tests/t2/hamming.py:22-36 | the four unit-test cases |
| AdderBench.Adder.constructor | tests/t3/add_tb.py:96-104 | the inputs have the given width and every value starts at zero |
| AdderBench.Adder.Evaluate | tests/t3/add_tb.py:106-114 | `sum` is the total modulo `2^W` and `cout` is bit `W` of the `(W+1)`-bit total, so that for in-range inputs `sum + 2^W * cout == in0 + in1 + cin`; the carry-out point counts a carry |
| AdderBench.Evaluated | tests/t3/add_tb.py:108-111 | the tail of the `(W+1)`-bit string is the total modulo `2^W` and its head is bit `W` |
| AdderBench.AddWithinWidth | tests/t3/add_tb.py:107-108 | in-range operands and a carry bit add up to less than `2^(W+1)`, so nothing is lost |
| AdderBench.Adder.Slice | tests/t3/add_tb.py:110-111 | `sum.set(temp[1:])` and `cout.set(temp[0])` store the values of those slices |
| AdderBench.Adder.RandomInputs | tests/t3/add_tb.py:128 | `randomize(model)` with `in0`, `in1` and `cin` as the input ports: each input takes a value within its width, and the outputs keep theirs |
| AdderBench.Adder.SetInputs | tests/t3/add_tb.py:131-155 | in-range values are stored as they are |
| AdderBench.CrossIndexInRange | tests/t3/add_tb.py:71-77 | the cross mapping is the mixed-radix index of the two steps, below `steps0 * steps1` |
| AdderBench.AddBench.CoverPair | tests/t3/add_tb.py:165 | `cg_in0_in1.cover((in0, in1))`: the cross range counts the pair's cross index, and a pair within the width always lands in it |
| AdderBench.AddBench.CoverRanges | tests/t3/add_tb.py:161-162 | the two full ranges each count their own input in its step, as `RangesCovered` states; nothing else changes |
| AdderBench.AddBench.CoverExtremes | tests/t3/add_tb.py:163-164 | the two extremes groups each count their own input in its bin when it is 0 or the maximum, as `ExtremesCovered` states; the full ranges are untouched |
| AdderBench.AddBench.CoverInputs | tests/t3/add_tb.py:161-164 | the four per-input nets cover the inputs as `InputsCovered` states |
| AdderBench.AddBench.CoverPairs | tests/t3/add_tb.py:165-168 | the cross range counts the pair, the both-zero and both-max points count a hit exactly when both inputs are 0 or both are the maximum, and the carry-in point counts a carry in, as `PairCovered` states |
| AdderBench.AddBench.CoverAll | tests/t3/add_tb.py:161-168 | after the eight `cover` calls every counter is `Covered` of the counters before: each net counts the transaction in its own bin, step or point and nothing else changes; inputs within the width land in both full ranges and in the cross range |
| AdderBench.CarryBranch | tests/t3/add_tb.py:136-138 | the carry override's partner produces a carry exactly when the random offset is at most `in0` |
| AdderBench.FullRangeSteps | tests/t3/add_tb.py:53-67 | a full `2^W` range in at most 16 steps is tiled exactly by its steps |
| AdderBench.NewExtremes | tests/t3/add_tb.py:38-49 | an extremes group with goal 10, registered last |
| AdderBench.NewFullRange | tests/t3/add_tb.py:53-67 | a full range with goal 1 whose steps tile `[0, 2^W)` exactly, registered last |
| AdderBench.PickUnmet | tests/t3/add_tb.py:132-134 | the pick lies within `W` bits and in an unmet step |
| AdderBench.NewPortNets | tests/t3/add_tb.py:24-49 | the carry and extremes nets with the script's goals, in its order |
| AdderBench.NewRangeNets | tests/t3/add_tb.py:53-77 | two identical full ranges and the cross range over their step pairs |
| AdderBench.NewEdgeNets | tests/t3/add_tb.py:80-91 | the both-zero and both-max points with goal 1 |
| AdderBench.AddBench.constructor | tests/t3/add_tb.py:24-123 | the nine nets in the script's order with its goals, on a fresh registry |
| AdderBench.AddBench.Choose | tests/t3/add_tb.py:131-156 | the chosen directive's net is unmet, and every net earlier in priority order is met |
| AdderBench.AddBench.Apply | tests/t3/add_tb.py:131-156 | the chosen override steers the inputs toward its net and keeps them within their widths; the both-zero and both-max pairs satisfy their cover points' mappings |
| AdderBench.AddBench.Stimulate | tests/t3/add_tb.py:128-156 | random inputs, then at most one override, all within their widths |
| AdderBench.AddBench.Sample | tests/t3/add_tb.py:161-173 | every net is covered as `CoverAll` states and the carry-out point counts a carry out of 1 (`Sampled` of the old counters); the transaction lands in both full ranges and the cross range; the outputs satisfy `sum + 2^W * cout == in0 + in1 + cin` |
| AdderBench.AddBench.Step | tests/t3/add_tb.py:126-176 | one pass of the loop: the expected outputs are the inputs' total, and the nets count the new transaction as `Sample` states |
| AdderBench.AddBench.Run | tests/t3/add_tb.py:126-176 | from a zero counter the body runs at most `MAX_SIMS` times |
| BcdBench.DecimalDigits | tests/t4/bcd_enc_tb.py:85-90 | at least one decimal digit, each in 0..9 |
| BcdBench.DecimalDigitsValue | tests/t4/bcd_enc_tb.py:85-90 | the digits read back in base 10 as the number |
| BcdBench.DecimalDigitsCount | tests/t4/bcd_enc_tb.py:94-95 | more than `d` digits exactly when the number reaches `10^d` |
| BcdBench.FittedDigits | tests/t4/bcd_enc_tb.py:94-102 | after trimming or padding there are exactly `DIGITS` decimal digits, and they read `bin mod 10^DIGITS` |
| BcdBench.LowDigits | tests/t4/bcd_enc_tb.py:98 | the last `d` digits read the value modulo `10^d` |
| BcdBench.TrimmedDigits | tests/t4/bcd_enc_tb.py:94-98 | keeping the last `d` digits keeps the value modulo `10^d` |
| BcdBench.PaddedDigits | tests/t4/bcd_enc_tb.py:100-102 | padding with zeros to `d` digits keeps the value, which is below `10^d` |
| BcdBench.LeadingZeros | tests/t4/bcd_enc_tb.py:100-102 | leading zeros do not change the value |
| BcdBench.Nibble | tests/t4/bcd_enc_tb.py:110 | a digit as four bits worth the digit |
| BcdBench.NibbleIsToLogic | tests/t4/bcd_enc_tb.py:110 | the nibble table agrees with `to_logic(d, 4)` |
| BcdBench.NibblesLength | tests/t4/bcd_enc_tb.py:108-110 | the packed string has four bits per digit |
| BcdBench.NibblesValue | tests/t4/bcd_enc_tb.py:108-110 | the packed string holds the digits in base 16 |
| BcdBench.NibbleAt | tests/t4/bcd_enc_tb.py:108-110 | the `k`-th four-bit slice is the `k`-th digit |
| BcdBench.Bfm.constructor | tests/t4/bcd_enc_tb.py:73-80 | the five signals at zero; `bcd` is four bits per digit, and one bit (the fallback width) when `DIGITS` is 0 |
| BcdBench.Bfm.Model | tests/t4/bcd_enc_tb.py:83-114 | `ovfl` is 1 exactly when `bin` has more than `DIGITS` decimal digits, that is `bin >= 10^DIGITS`; the overflow group counts the flag in its bin and the overflow point counts a raised flag; then `bcd.as_logic()` packs the fitted digits and `done` is 1, except with `DIGITS = 0`, where `bcd.set('')` raises and `bcd` and `done` keep their values |
| BcdBench.Bfm.SetOverflow | tests/t4/bcd_enc_tb.py:92-96 | `ovfl` ends at 1 exactly when digits were cut off |
| BcdBench.Bfm.SetDone | tests/t4/bcd_enc_tb.py:113 | `done` is 1 |
| BcdBench.Bfm.WriteBcd | tests/t4/bcd_enc_tb.py:111 | a string of exactly `4 * DIGITS` bits is printed back by `as_logic()`; the empty string of `DIGITS = 0` is refused and `bcd` keeps its value |
| BcdBench.FitDigits | tests/t4/bcd_enc_tb.py:94-102 | the fitted digits, and whether leading digits were cut off |
| BcdBench.SplitDigits | tests/t4/bcd_enc_tb.py:85-90 | the `while` loop yields the decimal digits, most significant first |
| BcdBench.PadDigits | tests/t4/bcd_enc_tb.py:100-102 | the padding loop puts `diff` zeros in front |
| BcdBench.PackDigits | tests/t4/bcd_enc_tb.py:108-110 | the packing loop appends the nibbles in order |
| BcdBench.BypassMeansNoOverflow | tests/t4/bcd_enc_tb.py:44-48 | under the bypass condition `2^LEN - 1 < 10^DIGITS` no input overflows |
| TimerBench.TickKeepsRange | tests/t5/timer_tb.py:31-38 | counters within `[0, delay)` stay there |
| TimerBench.AdvanceMod | tests/t5/timer_tb.py:33-38 | advancing a counter holding `n mod d` gives `(n + 1) mod d` |
| TimerBench.IteratedIsMod | tests/t5/timer_tb.py:31-38 | after `n` evaluations from zero, counter `i` holds `n mod delays[i]` |
| TimerBench.FiresEvery | tests/t5/timer_tb.py:31-38 | sub-tick `i` is raised by evaluation `n + 1` exactly when `n + 1` is a multiple of `delays[i]` |
| TimerBench.CountStep | tests/t5/timer_tb.py:82-84 | one more pass moves the base count on by one modulo `BASE_DELAY` |
| TimerBench.Timer.constructor | tests/t5/timer_tb.py:23-26 | both outputs at zero, `sub_ticks` one little-endian bit per sub delay |
| TimerBench.Timer.Eval | tests/t5/timer_tb.py:28-39 | `base_tick` is 1; each counter advances, and its bit is 1 exactly when it was at `delay - 1`; other bits are unchanged |
| TimerBench.Bench.constructor | tests/t5/timer_tb.py:43-72 | the timer, a zero base count and zero counters |
| TimerBench.Bench.Iteration | tests/t5/timer_tb.py:76-87 | both outputs are cleared and the base count rises; when it reaches `BASE_DELAY` it restarts at 0 and the timer is evaluated |
| TimerBench.Bench.Run | tests/t5/timer_tb.py:71-90 | at most `MAX_SIMS` passes; with a positive `BASE_DELAY`, the base count is `sims mod BASE_DELAY` and the counters are those after `sims / BASE_DELAY` evaluations; otherwise the timer is never evaluated |

## Left out

- Floating point is left out:
  - `Coverage.percent` and `Log.get_score` are kept as (passed, total) pairs, without the division and the rounding to two places;
  - `Timeunit.convert` towards a larger unit is kept as an exact reciprocal, without the float `1/s` products;
  - `math.ceil` of a float quotient in `CoverRange` is an integer ceiling;
  - `int(word/10)` in the BCD encoder is integer division.
- BitCodec.AutoWidth: uses the exact bit length of `|n|` in place of `ceil(log2(|n| + 0.5))` computed in floating point. The two agree wherever the float logarithm is accurate, which the model does not establish.
- I/O is left out: file reading and writing (`Log.load`, `check`, `report_score`, `get_event_log_path`, `get_name`, `Coverage.save_report`, `TraceFile` and `trace.py`), printing, and the JSON decoding of `read_bench_if`/`read_design_if`. The `read_*` methods take the decoded lists.
- Report text is left out: `Coverage.report`, `log`, `to_str`, `_macro_to_str` and `_find_longest_str_len`.
- `lib.get_seed`, `lib.get_generics` and `main.py` are left out. They are argparse and subprocess calls. The generics of the benches are parameters.
- `prelude.py` is left out: its line 10 imports `rng_seed` and `get_generic` from `config.py`, which defines neither, so importing it raises `ImportError`.
- User mapping callables are left out:
  - `cover` takes the already mapped value;
  - a `mapped` flag only drives the exception of `next`;
  - the adder's lambdas are written out as their conditions;
  - `_mapped_items` is report-only bookkeeping and is left out;
  - `CoverRange._table` is only used for its length and is left out.
- CoverNets.CoverRange.constructor: requires `start == 0` and a positive step, which every caller in the repository meets. The `max_steps = 0` case on a non-empty span, where Python divides by zero, is the error result of `NewCoverRange`. `max_steps` is a natural number, so a negative `max_steps`, which Python accepts, is not modelled; no bench passes one.
- CoverNets.CoverGroup.constructor: requires `max_bins >= 1` or no bins. The `ZeroDivisionError` of `max_bins = 0` with bins is the error result of `NewCoverGroup`. `max_bins` is a natural number, so a negative `max_bins`, which Python accepts (`max_bins = -1` puts every value into one macro bin), is not modelled; no bench passes one.
- CoverNets.Distinct: `set(bins)` iterates in hash order. The model uses first-occurrence order, so the macro bins hold the same values as Python's but possibly in another order.
- `Coverage.count` is the registry's `counter` field.
- `CoverGroup.get_range`, `get_step_count` and `CoverPoint.get_range` are left out. They are plain accessors.
- SignalModel.GetPorts: reflection over `vars(model)` becomes an explicit sequence of attributes. The `__veriti_cached_ports` cache is left out, so repeated calls recompute the table. The ports are listed by scanning interface indices in ascending order rather than by sorting.
- SignalModel.Signal.SetStr: kept characters that are empty or not all '0'/'1' are modelled as a refused `set` that leaves the value unchanged. Python's `from_logic` is `int('0b' + b, 2)`, which raises on most such strings but accepts '_' between digits and trailing whitespace (`from_logic('1_0') == 2`); the model refuses those too. `SignalFromText` inherits this.
- BitCodec.FromLogic: requires a non-empty string of '0' and '1'. Python's `int('0b' + b, 2)` raises on the empty string and on most other text, but also reads '_' between digits and trailing whitespace (`from_logic('1_0') == 2`); the requires excludes those inputs.
- SignalModel.SignalFromText: returns an error for kept text with '_' between digits or with trailing whitespace, where Python's `from_logic` reads it and builds the signal.
- SignalModel.Signal.constructor: takes an integer initial value. `Signal(..., value=s)` with a string is `SignalModel.SignalFromText`.
- `Signal.set` with a value that is neither an `int` nor a `str` only prints a warning, and is left out.
- `Mode.INPUT`/`Mode.OUTPUT`, used by `bcd_enc_tb.py`, do not exist in `model.py`'s `Mode`. The model uses `IN` and `OUT`.
- `timer_tb.py` passes `endianness='little'` to `Signal`, which takes no such keyword. The model gives `sub_ticks` `big_endian=False`, which is what the keyword evidently asks for.
- `timer_tb.py` passes `read_interface=` to `CoverPoint`, whose constructor takes no such argument. Its cover-point declarations are therefore left out, and the timer's loop ends only by the `MAX_SIMS` timeout or by nets registered elsewhere.
- The bcd bench's main loop is left out: the random `go`/`bin` stimulus, the `FSM_DELAY` inner loop and its two cover points. `Bfm.model` and the bypass condition are modelled.
- AdderBench.AddBench.Run: states only the bound on the number of passes. What each pass does is stated by `Step`, `Stimulate` and `Sample`.
- Python's set iteration order, the `Config` singleton and the `print` warnings are left out.
- Text.Lower: maps only the ASCII letters and leaves every other character alone. Python's `lower()` also maps other Unicode letters; the core applies it to ASCII keywords.
- Text.Upper: maps only the ASCII letters and always keeps the length. Python's `upper()` also maps other Unicode letters and may lengthen the text ('ß' becomes 'SS'). So `Level.from_str('ınfo')` is INFO in Python, because 'ı' upper-cases to 'I', while `EventLog.LevelFromStr` refuses it.
- Text.ParseInt: reads only the ASCII digits 0-9. Python's `int` also reads other Unicode decimal digits (`int('٣') == 3`), which the model refuses.
- Text.ParseRefuses: counts a non-ASCII decimal digit among the refused characters, although Python's `int` accepts it.
- BitCodec.ToLogic: requires `n + 2^w >= 0` for a negative integer with a width, because Python's `bin(2**width + n)` then has a '-' sign the model does not write (`to_logic(-9, 3)`); a negative width (`to_logic(5, -1) == ''`) is not modelled either.
- AdderBench.Adder.Evaluate: `add_tb.py` calls `int(...)` on `Signal` objects: in its mapping lambdas (lines 27, 34, 76, 83 and 90) and directly (lines 163 and 164). `Signal` defines no `__int__`, so Python raises `TypeError` there; here at line 113, where `cp_cout_gen.cover(self.cout)` runs its mapping. The model covers the signal's value, as `as_int()` would give it, which is evidently what the script means.
- AdderBench.AddBench.Sample: the same `TypeError` happens at its first `cover` call, where `CoverRange.cover` runs `int(item)` on a `Signal`; the model covers the values.
- AdderBench.AddBench.CoverAll: covers the signals' values, for the same reason as `AdderBench.AddBench.Sample`.
- AdderBench.AddBench.Step: inherits the value reading of `AdderBench.AddBench.Sample`.
- AdderBench.Adder.RandomInputs: takes `in0`, `in1` and `cin` to be the IN ports that `randomize` finds; the port walk itself is `SignalModel.Randomize`.
- Several names the bench scripts use are not defined anywhere in the repository: `pow2`, `Coverpoint`, `Covergroup`, `Coverrange`, `get_generic` and `rng_seed` (`add_tb.py`), `SuperBfm`, `InputFile`, `OutputFile`, `Covergroup` and `Coverpoint` (`bcd_enc_tb.py`), `get_generic` and `rng_seed` (`timer_tb.py`). The model reads them as `pow2m1(w) + 1`, `CoverPoint`, `CoverGroup` and `CoverRange`, generic parameters and a nondeterministic choice; the file classes are I/O.
