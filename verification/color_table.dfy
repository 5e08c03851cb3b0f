/**
  Colour-table sizing (sections 18, 19 and 21 of the GIF89a specification):
  a packed field announces a table with bit 7 and sizes it with its low three
  bits `N` as `2^(N+1)` RGB triples. The header and the image descriptor use
  the same rule, written inline in each parser of the source.
*/
module ColorTable {
  import opened Nom

  function Pow2(k: nat): (p: nat)
    ensures p >= 1
  {
    if k == 0 then 1 else 2 * Pow2(k - 1)
  }

  /** The powers of two a three-bit field plus one can select. */
  lemma Pow2Small(k: nat)
    requires 1 <= k <= 8
    ensures Pow2(k) in {2, 4, 8, 16, 32, 64, 128, 256}
  {
    assert Pow2(1) == 2;
    assert Pow2(2) == 4;
    assert Pow2(3) == 8;
    assert Pow2(4) == 16;
    assert Pow2(5) == 32;
    assert Pow2(6) == 64;
    assert Pow2(7) == 128;
    assert Pow2(8) == 256;
  }

  /** `Pow2` is the source's `1 << k` for the shift amounts a three-bit field plus one gives. */
  lemma {:induction false} Pow2IsShift(k: nat)
    requires k <= 8
    ensures Pow2(k) == ((1 as bv16) << k) as int
  {
    if k > 0 {
      Pow2IsShift(k - 1);
      assert (1 as bv16) << k == ((1 as bv16) << (k - 1)) * 2;
    }
  }

  /**
    The byte length of the table a packed field announces, the source's
    `cond!(p & 0x80 != 0, take!(3 * (1 << ((p & 7) + 1))))` size.
  */
  function TableSize(packed: byte): (r: Option<nat>)
    ensures r.Some? <==> packed >= 0x80
    ensures r.Some? ==> r.value in {6, 12, 24, 48, 96, 192, 384, 768}
    ensures r.Some? ==> r.value == 3 * Pow2(packed % 8 + 1)
  {
    if Bit7(packed) then
      Pow2Small(Low3Bits(packed) + 1);
      Some(3 * Pow2(Low3Bits(packed) + 1))
    else None
  }

  /** The number of table bytes `packed` announces: 0 without a table. */
  function TableLength(packed: byte): nat {
    if TableSize(packed).Some? then TableSize(packed).value else 0
  }

  /**
    The optional colour table after a packed field: present exactly when bit 7
    is set, then the next `TableSize` bytes of the input, which must be there.
  */
  function ParseColorTable(packed: byte, s: Bytes): (r: Result<Option<Bytes>>)
    ensures !r.Error?
    ensures r.Done? ==> (r.value.Some? <==> packed >= 0x80)
    ensures r.Done? && r.value.Some? ==>
              && var n := TableSize(packed).value;
              && n <= |s| && r.value.value == s[..n] && r.rest == s[n..]
    ensures r.Done? && r.value.None? ==> r.rest == s
    ensures r.Incomplete? <==> packed >= 0x80 && |s| < TableSize(packed).value
    ensures r.Incomplete? ==> r.needed == TableSize(packed).value
  {
    match TableSize(packed)
    case None => Done(None, s)
    case Some(n) =>
      var table :- Take(n, s);
      Done(Some(table.0), table.1)
  }

  /** The bytes of an optional colour table. */
  function EncodeColorTable(t: Option<Bytes>): Bytes {
    if t.Some? then t.value else []
  }

  /** A colour table is present exactly when announced, and has the announced size. */
  predicate WellFormedTable(packed: byte, t: Option<Bytes>) {
    match TableSize(packed)
    case None => t.None?
    case Some(n) => t.Some? && |t.value| == n
  }

  /** The colour table parser accepts exactly a well-formed table's bytes. */
  lemma ColorTableEncoding(packed: byte, s: Bytes, t: Option<Bytes>, r: Bytes)
    ensures ParseColorTable(packed, s) == Done(t, r) <==> WellFormedTable(packed, t) && s == EncodeColorTable(t) + r
  {
    if WellFormedTable(packed, t) && s == EncodeColorTable(t) + r && t.Some? {
      assert s[..|t.value|] == t.value && s[|t.value|..] == r;
    }
    if ParseColorTable(packed, s) == Done(t, r) && t.Some? {
      assert s == s[..|t.value|] + s[|t.value|..];
    }
  }
}
