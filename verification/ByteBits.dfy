/** Bytes as numbers and as bit patterns, four bits at a time. */
module ByteBits {

  lemma NibbleBack(a: int)
    requires 0 <= a < 16
    ensures (a as bv8) as int == a && (a as bv8) < 16
  {
  }

  lemma JoinNibbles(high: bv8, low: bv8)
    requires high < 16 && low < 16
    ensures ((high << 4) | low) as int == (high as int) * 16 + (low as int)
  {
  }

  lemma NumberBack(u: bv8)
    ensures (u as int) as bv8 == u
  {
  }

  lemma BitsBack(a: int)
    requires 0 <= a < 256
    ensures (a as bv8) as int == a
  {
    NibbleBack(a / 16);
    NibbleBack(a % 16);
    var high, low := (a / 16) as bv8, (a % 16) as bv8;
    JoinNibbles(high, low);
    NumberBack((high << 4) | low);
  }

  lemma SameBits(a: int, b: int)
    requires 0 <= a < 256 && 0 <= b < 256
    ensures a as bv8 == b as bv8 <==> a == b
  {
    BitsBack(a);
    BitsBack(b);
  }
}
