/** The fixed-width unsigned types of the C code, as ranges of numbers. */
module MachineWords {
  const WORDS: int := 0x1_0000_0000

  /** uint8_t */
  type Byte = x: int | 0 <= x < 0x100

  /** uint32_t */
  type Word = x: int | 0 <= x < 0x1_0000_0000

  /** The bytes of a word, highest first. */
  function Be32Bytes(w: Word): (r: seq<Byte>)
    ensures |r| == 4
  {
    [w / 0x100_0000, w / 0x1_0000 % 0x100, w / 0x100 % 0x100, w % 0x100]
  }

  function Zeros(n: nat): (z: seq<Byte>)
    ensures |z| == n
  {
    seq(n, _ => 0)
  }
}

/** Numbers written as limbs of 32 bits, least significant first. */
module Limbs {
  import opened MachineWords

  function Value(limbs: seq<Word>): (v: nat) {
    if limbs == [] then 0 else limbs[0] + WORDS * Value(limbs[1..])
  }

  /** Above limb i the numbers agree, so limb i decides. */
  lemma TopLimbDecides(a: seq<Word>, b: seq<Word>, i: nat)
    requires |a| == |b| && i < |a| && a[i] < b[i]
    requires forall k :: i < k < |a| ==> a[k] == b[k]
    ensures Value(a) < Value(b)
  {
    if i > 0 {
      TopLimbDecides(a[1..], b[1..], i - 1);
    } else {
      assert a[1..] == b[1..];
    }
  }
}
