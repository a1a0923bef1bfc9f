/** The parity helper of tests/t2/hamming.py: the bit that completes a list
    of bits to an even (or odd) number of ones. */
module Hamming {

  /** `arr.count(1)` */
  function Ones(arr: seq<int>): (n: nat)
    ensures n <= |arr|
  {
    if arr == [] then 0 else Ones(arr[..|arr| - 1]) + if arr[|arr| - 1] == 1 then 1 else 0
  }

  lemma {:induction false} OnesConcat(a: seq<int>, b: seq<int>)
    ensures Ones(a + b) == Ones(a) + Ones(b)
    decreases |b|
  {
    if b == [] {
      assert a + b == a;
    } else {
      assert (a + b)[..|a + b| - 1] == a + b[..|b| - 1];
      OnesConcat(a, b[..|b| - 1]);
    }
  }

  /** `set_parity_bit(arr, use_even)`: `(count of ones mod 2) xor (not
      use_even)`. It is a single bit, and together with the ones of `arr` it
      makes an even count of ones for even parity and an odd count for odd
      parity; so it depends on the count of ones alone and flips with
      `useEven`. */
  function ParityBit(arr: seq<int>, useEven: bool): (b: nat)
    ensures b <= 1
    ensures (Ones(arr) + b) % 2 == if useEven then 0 else 1
  {
    var odd := Ones(arr) % 2 == 1;
    if odd != !useEven then 1 else 0
  }

  /** Appending the parity bit gives a word of the requested parity. */
  lemma ParityWord(arr: seq<int>, useEven: bool)
    ensures Ones(arr + [ParityBit(arr, useEven)]) % 2 == if useEven then 0 else 1
  {
    OnesConcat(arr, [ParityBit(arr, useEven)]);
    assert Ones([ParityBit(arr, useEven)]) == ParityBit(arr, useEven) by {
      assert [ParityBit(arr, useEven)][..0] == [];
    }
  }

  /** Even and odd parity bits of the same list are complements, and lists
      with equally many ones get equal parity bits. */
  lemma ParityFlipsAndCounts(a: seq<int>, b: seq<int>, useEven: bool)
    ensures ParityBit(a, true) + ParityBit(a, false) == 1
    ensures Ones(a) == Ones(b) ==> ParityBit(a, useEven) == ParityBit(b, useEven)
  {
  }

  /** The unit tests of `test_compute_parity`. */
  lemma ParityExamples()
    ensures ParityBit([1, 0, 0], true) == 1
    ensures ParityBit([1, 0, 0, 1], true) == 0
    ensures ParityBit([1, 0, 0, 1], false) == 1
    ensures ParityBit([1, 0, 1, 1], false) == 0
  {
    assert [1, 0, 0][..2] == [1, 0] && [1, 0][..1] == [1] && [1][..0] == [];
    assert [1, 0, 0, 1][..3] == [1, 0, 0];
    assert [1, 0, 1, 1][..3] == [1, 0, 1] && [1, 0, 1][..2] == [1, 0];
  }
}
