/** 8-bit words and the numbers they stand for, built from halves to keep the reasoning small. */
module MachineBytes {
  /** The 8-bit word with this value. */
  function ByteWord(b: int): bv8
    requires 0 <= b < 256
  {
    (((b / 16) as bv4 as bv8) << 4) | ((b % 16) as bv4 as bv8)
  }

  lemma HalfOfInt(h: int)
    requires 0 <= h < 16
    ensures (h as bv4) as int == h
  {
  }

  lemma JoinHalves(h: bv4, l: bv4)
    ensures (((h as bv8) << 4) | (l as bv8)) as int == 16 * (h as int) + (l as int)
  {
  }

  lemma ByteWordValue(b: int)
    requires 0 <= b < 256
    ensures ByteWord(b) as int == b
  {
    HalfOfInt(b / 16);
    HalfOfInt(b % 16);
    JoinHalves((b / 16) as bv4, (b % 16) as bv4);
  }

  lemma ByteInjective(a: bv8, b: bv8)
    requires a as int == b as int
    ensures a == b
  {
  }
}
