/** Machine words. */
module Words {
  type u32 = x: int | 0 <= x < 0x1_0000_0000
  type u64 = x: int | 0 <= x < 0x1_0000_0000_0000_0000

  /** The remainder modulo 2^64: what a 64-bit register keeps. */
  function Wrap64(x: nat): u64 {
    if x < 0x1_0000_0000_0000_0000 then x else Wrap64(x - 0x1_0000_0000_0000_0000)
  }

  /** Two numbers less than a size apart have different residues. */
  lemma DistinctResidues(size: nat, a: nat, b: nat)
    requires size > 0 && a < b < a + size
    ensures a % size != b % size
  {
    var d := b / size - a / size;
    assert b - a == size * d + (b % size - a % size);
    if d >= 1 {
      assert size * d >= size;
    }
  }
}
