/**
  The two hash functions of the table and the probe index they generate.
  Both are Horner folds over the key's characters taken as their numeric
  code, reduced after every character. The intermediate values stay far below
  2^31, and every operand is non-negative, so Java's `int` arithmetic and its
  truncating `%` agree with Dafny's unbounded integers and Euclidean `%` here.
 */
module Hashing {

  /** `TABLE_SIZE`: the fixed number of slots. */
  const TABLE_SIZE: nat := 2500

  /** `hash1`: base 31, reduced modulo TABLE_SIZE after every character. */
  function Hash1(key: string): (h: nat)
    ensures h < TABLE_SIZE
  {
    if key == [] then 0
    else (Hash1(key[..|key| - 1]) * 31 + key[|key| - 1] as int) % TABLE_SIZE
  }

  /** `hash2`: base 17, reduced modulo TABLE_SIZE - 1, and `+ 1` after EVERY
      character, not once at the end. */
  function Hash2(key: string): (h: nat)
    ensures key != [] ==> 1 <= h < TABLE_SIZE
    ensures key == [] ==> h == 0
  {
    if key == [] then 0
    else (Hash2(key[..|key| - 1]) * 17 + key[|key| - 1] as int) % (TABLE_SIZE - 1) + 1
  }

  /** The unreduced polynomial `c0 * b^(n-1) + ... + c(n-1)` of a sequence of codes. */
  function Horner(codes: seq<int>, base: int): int {
    if codes == [] then 0
    else Horner(codes[..|codes| - 1], base) * base + codes[|codes| - 1]
  }

  /** The numeric codes of a string's characters. */
  function Codes(s: string): (c: seq<int>)
    ensures |c| == |s|
    ensures forall i :: 0 <= i < |s| ==> c[i] == s[i] as int
  {
    seq(|s|, i requires 0 <= i < |s| => s[i] as int)
  }

  /** The codes `hash2` effectively folds: every character after the first is
      shifted by 17, which is what the per-character `+ 1` amounts to. */
  function ShiftedCodes(s: string): (c: seq<int>)
    ensures |c| == |s|
    ensures forall i :: 0 <= i < |s| ==> c[i] == if i == 0 then s[i] as int else s[i] as int + 17
  {
    seq(|s|, i requires 0 <= i < |s| => if i == 0 then s[i] as int else s[i] as int + 17)
  }

  lemma ModMulAdd31(a: int, c: int)
    ensures ((a % TABLE_SIZE) * 31 + c) % TABLE_SIZE == (a * 31 + c) % TABLE_SIZE
  {
  }

  lemma ModMulAdd17(a: int, c: int)
    ensures ((a % (TABLE_SIZE - 1)) * 17 + c) % (TABLE_SIZE - 1) == (a * 17 + c) % (TABLE_SIZE - 1)
  {
  }

  lemma ModAdd(a: int, c: int)
    ensures ((a % TABLE_SIZE) + c) % TABLE_SIZE == (a + c) % TABLE_SIZE
  {
  }

  /** Reducing after every character does not change the result: `hash1` is
      the textbook polynomial hash modulo TABLE_SIZE. */
  lemma {:induction false} Hash1IsPolynomial(key: string)
    ensures Hash1(key) == Horner(Codes(key), 31) % TABLE_SIZE
  {
    if key != [] {
      var p := key[..|key| - 1];
      Hash1IsPolynomial(p);
      assert Codes(key)[..|key| - 1] == Codes(p);
      ModMulAdd31(Horner(Codes(p), 31), key[|key| - 1] as int);
    }
  }

  /** `hash2` is the base-17 polynomial modulo TABLE_SIZE - 1, plus one, of the
      codes with every character but the first shifted by 17. */
  lemma {:induction false} Hash2IsShiftedPolynomial(key: string)
    requires key != []
    ensures Hash2(key) == Horner(ShiftedCodes(key), 17) % (TABLE_SIZE - 1) + 1
  {
    var p := key[..|key| - 1];
    var c := key[|key| - 1] as int;
    if p == [] {
      assert ShiftedCodes(key) == [c];
      assert ShiftedCodes(key)[..0] == [];
    } else {
      Hash2IsShiftedPolynomial(p);
      assert ShiftedCodes(key)[..|key| - 1] == ShiftedCodes(p);
      var hp := Horner(ShiftedCodes(p), 17);
      assert Hash2(key) == ((hp % (TABLE_SIZE - 1) + 1) * 17 + c) % (TABLE_SIZE - 1) + 1;
      assert (hp % (TABLE_SIZE - 1) + 1) * 17 + c == (hp % (TABLE_SIZE - 1)) * 17 + (c + 17);
      ModMulAdd17(hp, c + 17);
    }
  }

  /** The j-th slot on the probe path that starts at `start` with stride
      `step`: the loops' update `index = (index + step) % TABLE_SIZE` applied j
      times. */
  function ProbeIndex(start: nat, step: nat, j: nat): (idx: nat)
    ensures idx < TABLE_SIZE
  {
    if j == 0 then start % TABLE_SIZE
    else (ProbeIndex(start, step, j - 1) + step) % TABLE_SIZE
  }

  /** The probe path in closed form: the j-th probe is
      `(start + j * step) % TABLE_SIZE`, the textbook double-hashing sequence. */
  lemma {:induction false} ProbeIndexClosedForm(start: nat, step: nat, j: nat)
    ensures ProbeIndex(start, step, j) == (start + j * step) % TABLE_SIZE
  {
    if j > 0 {
      ProbeIndexClosedForm(start, step, j - 1);
      ModAdd(start + (j - 1) * step, step);
      assert start + (j - 1) * step + step == start + j * step;
    }
  }

  /** A stride in [1, TABLE_SIZE - 1] always moves the probe to a different slot. */
  lemma StepMoves(index: nat, step: nat)
    requires index < TABLE_SIZE && 1 <= step < TABLE_SIZE
    ensures (index + step) % TABLE_SIZE != index
  {
  }
}
