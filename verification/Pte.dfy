/** x86-64 page-table entries as uhyve reads them (uhyve-x86_64.c:142-200): a
    64-bit word is a natural number below 2^64 and the masks are arithmetic. */
module Pte {
  type U64 = x: int | 0 <= x < 0x1_0000_0000_0000_0000

  const PG_PRESENT: U64 := 0x1
  const PG_ACCESSED: U64 := 0x20
  const PG_DIRTY: U64 := 0x40
  const PG_PSE: U64 := 0x80
  const PAGE_SIZE: U64 := 0x1000
  const PAGE_2M_SIZE: U64 := 0x20_0000
  const TWO_63: U64 := 0x8000_0000_0000_0000
  const TWO_51: U64 := 0x8_0000_0000_0000
  const TWO_64: int := 0x1_0000_0000_0000_0000

  /** `e & bit` is nonzero, for a power of two `bit`. */
  predicate Has(e: U64, bit: U64)
    requires bit > 0
  {
    e / bit % 2 == 1
  }

  /** `e & ~bit`. */
  function Without(e: U64, bit: U64): U64
    requires bit > 0
  {
    if e >= bit && Has(e, bit) then e - bit else e
  }

  /** `e & (~0 << log2(size)) & ~PG_XD`. */
  function Masked(e: U64, size: U64): U64
    requires size > 0
  {
    e % TWO_63 / size * size
  }

  /** determine_dest_offset: where in guest memory the page of a stored entry goes. */
  function DestOffset(entry: U64): U64 {
    if Has(entry, PG_PSE) then Masked(entry, PAGE_2M_SIZE) else Masked(entry, PAGE_SIZE)
  }

  /** A page-table word split into fields: the four flags and the frame number
      that the scanner interprets, and the remaining bits 1-4, 8-11 and 63. */
  datatype Word = Word(present: bool, accessed: bool, dirty: bool, pse: bool, frame: nat,
                       low: nat, avl: nat, xd: nat)

  function Decode(e: U64): Word {
    Word(Has(e, PG_PRESENT), Has(e, PG_ACCESSED), Has(e, PG_DIRTY), Has(e, PG_PSE), e / 256 / 16 % TWO_51,
         e / 2 % 16, e / 256 % 16, e / 256 / 16 / TWO_51)
  }

  /** The word with these digits around its flag bits. */
  function Compose(q: nat, b7: nat, b6: nat, b5: nat, r: nat, b0: nat): nat {
    ((((q * 2 + b7) * 2 + b6) * 2 + b5) * 16 + r) * 2 + b0
  }

  lemma Digits(q: nat, b7: nat, b6: nat, b5: nat, r: nat, b0: nat)
    requires b7 < 2 && b6 < 2 && b5 < 2 && r < 16 && b0 < 2
    ensures Compose(q, b7, b6, b5, r, b0) / 256 == q
    ensures Compose(q, b7, b6, b5, r, b0) / 128 % 2 == b7
    ensures Compose(q, b7, b6, b5, r, b0) / 64 % 2 == b6
    ensures Compose(q, b7, b6, b5, r, b0) / 32 % 2 == b5
    ensures Compose(q, b7, b6, b5, r, b0) / 2 % 16 == r
    ensures Compose(q, b7, b6, b5, r, b0) % 2 == b0
  {
    var e := Compose(q, b7, b6, b5, r, b0);
    Halves(e);
    assert e / 2 == (((q * 2 + b7) * 2 + b6) * 2 + b5) * 16 + r;
    assert e / 32 == ((q * 2 + b7) * 2 + b6) * 2 + b5;
    assert e / 64 == (q * 2 + b7) * 2 + b6;
    assert e / 128 == q * 2 + b7;
  }

  lemma Halves(e: nat)
    ensures e / 32 == e / 2 / 16 && e / 64 == e / 32 / 2 && e / 128 == e / 64 / 2 && e / 256 == e / 128 / 2
  {
  }

  /** Every word has such digits. */
  lemma Split(e: nat) returns (q: nat, b7: nat, b6: nat, b5: nat, r: nat, b0: nat)
    ensures b7 < 2 && b6 < 2 && b5 < 2 && r < 16 && b0 < 2
    ensures e == Compose(q, b7, b6, b5, r, b0)
  {
    var h := e / 2;
    var k := h / 16;
    var k1 := k / 2;
    var k2 := k1 / 2;
    q, b7, b6, b5, r, b0 := k2 / 2, k2 % 2, k1 % 2, k % 2, h % 16, e % 2;
  }

  lemma DecodeComposed(e: U64, q: nat, b7: nat, b6: nat, b5: nat, r: nat, b0: nat)
    requires b7 < 2 && b6 < 2 && b5 < 2 && r < 16 && b0 < 2 && e == Compose(q, b7, b6, b5, r, b0)
    ensures Decode(e) == Word(b0 == 1, b5 == 1, b6 == 1, b7 == 1, q / 16 % TWO_51, r, q % 16, q / 16 / TWO_51)
  {
    Digits(q, b7, b6, b5, r, b0);
    hide Compose;
  }

  lemma HighBits(frame: nat, low: nat, xd: nat)
    requires frame < 0x8_0000_0000_0000 && low < 16
    ensures var q := 0x80_0000_0000_0000 * xd + 16 * frame + low;
            q / 16 % TWO_51 == frame && q / 16 / TWO_51 == xd && q % 16 == low
  {
    var q := 0x80_0000_0000_0000 * xd + 16 * frame + low;
    assert q / 16 == 0x8_0000_0000_0000 * xd + frame;
  }

  /** Where the fields are: PRESENT, ACCESSED, DIRTY and PSE are bits 0, 5, 6 and 7, the
      frame is bits 12 to 62. */
  lemma DecodeBits(xd: nat, frame: nat, avl: nat, pse: nat, dirty: nat, accessed: nat, low: nat, present: nat)
    requires xd < 2 && frame < 0x8_0000_0000_0000 && avl < 16 && low < 16
    requires pse < 2 && dirty < 2 && accessed < 2 && present < 2
    ensures var e: U64 := 0x8000_0000_0000_0000 * xd + 0x1000 * frame + 0x100 * avl + 0x80 * pse + 0x40 * dirty
                          + 0x20 * accessed + 2 * low + present;
            Decode(e) == Word(present == 1, accessed == 1, dirty == 1, pse == 1, frame, low, avl, xd)
  {
    var q := 0x80_0000_0000_0000 * xd + 16 * frame + avl;
    var e := 256 * q + 0x80 * pse + 0x40 * dirty + 0x20 * accessed + 2 * low + present;
    assert e == Compose(q, pse, dirty, accessed, low, present);
    hide Compose, Decode;
    DecodeComposed(e, q, pse, dirty, accessed, low, present);
    HighBits(frame, avl, xd);
  }

  /** The fields keep every bit. */
  lemma DecodeInjective(a: U64, b: U64)
    requires Decode(a) == Decode(b)
    ensures a == b
  {
    var q, b7, b6, b5, r, b0 := Split(a);
    Digits(q, b7, b6, b5, r, b0);
    var p, c7, c6, c5, t, c0 := Split(b);
    Digits(p, c7, c6, c5, t, c0);
    assert b7 == c7 && b6 == c6 && b5 == c5 && r == t && b0 == c0;
    assert q / 16 == q / 16 / TWO_51 * TWO_51 + q / 16 % TWO_51;
    assert p / 16 == p / 16 / TWO_51 * TWO_51 + p / 16 % TWO_51;
    assert q / 16 == p / 16;
  }

  /** `pgt[l] & ~(PG_DIRTY|PG_ACCESSED)` and `pgt[l] & ~PG_PSE` clear exactly
      those fields and leave every other bit alone. */
  lemma ClearBits(e: U64)
    ensures Decode(Without(Without(e, PG_DIRTY), PG_ACCESSED)) == Decode(e).(accessed := false, dirty := false)
    ensures Decode(Without(e, PG_PSE)) == Decode(e).(pse := false)
  {
    var q, b7, b6, b5, r, b0 := Split(e);
    var clean := Without(e, PG_DIRTY);
    assert clean == Compose(q, b7, 0, b5, r, b0) by { Digits(q, b7, b6, b5, r, b0); }
    assert Without(clean, PG_ACCESSED) == Compose(q, b7, 0, 0, r, b0) by { Digits(q, b7, 0, b5, r, b0); }
    assert Without(e, PG_PSE) == Compose(q, 0, b6, b5, r, b0) by { Digits(q, b7, b6, b5, r, b0); }
    Digits(q, b7, b6, b5, r, b0);
    Digits(q, b7, 0, 0, r, b0);
    Digits(q, 0, b6, b5, r, b0);
    hide Compose;
  }

  /** The page addresses in terms of the frame number. */
  lemma MaskedDecoded(e: U64)
    ensures Masked(e, PAGE_SIZE) == Decode(e).frame * PAGE_SIZE
    ensures Masked(e, PAGE_2M_SIZE) == Decode(e).frame / 512 * 512 * PAGE_SIZE
  {
    var h, l := e / 256 / 16, e % 256 + e / 256 % 16 * 256;
    var t, f := h / TWO_51, h % TWO_51;
    assert e == t * TWO_63 + f * 4096 + l && 0 <= l < 4096;
    assert e % TWO_63 == f * 4096 + l;
    assert (f * 4096 + l) / 4096 == f;
    assert (f * 4096 + l) / PAGE_2M_SIZE == f / 512;
  }

  /** The destination offset of a record is the address of the page its entry
      maps: PSE decides between the 2 MiB and the 4 KiB base. */
  lemma DestOffsetDecoded(e: U64)
    ensures DestOffset(e) == (if Decode(e).pse then Decode(e).frame / 512 * 512 else Decode(e).frame) * PAGE_SIZE
  {
    MaskedDecoded(e);
  }
}
