/** A set of 32-bit numbers as a bitmap of 65536 pages, each allocated when first written. */
module PagedBitmap {
  import opened Arith

  const NUM_PAGES := 0x10000
  const PAGE_SIZE_IN_BYTES := 0x2000

  /** The byte with only bit k set. */
  function Flag(k: nat): bv8
    requires k < 8
  {
    match k
    case 0 => 0x01 case 1 => 0x02 case 2 => 0x04 case 3 => 0x08
    case 4 => 0x10 case 5 => 0x20 case 6 => 0x40 case 7 => 0x80
  }

  predicate Bit(b: bv8, k: nat)
    requires k < 8
  {
    b & Flag(k) != 0
  }

  function WithBit(b: bv8, k: nat): bv8
    requires k < 8
  {
    b | Flag(k)
  }

  lemma BitOfWithBit(b: bv8, k: nat, j: nat)
    requires k < 8 && j < 8
    ensures Bit(WithBit(b, k), j) <==> j == k || Bit(b, j)
  {
    assert j == 0 || j == 1 || j == 2 || j == 3 || j == 4 || j == 5 || j == 6 || j == 7;
  }

  lemma NoBits(j: nat)
    requires j < 8
    ensures !Bit(0, j)
  {
  }

  /** A page holds its 65536 bits in 8192 bytes. */
  predicate PageHas(page: seq<bv8>, v: nat)
    requires v < NUM_PAGES
  {
    |page| == PAGE_SIZE_IN_BYTES && Bit(page[v / 8], v % 8)
  }

  class Bitmap {
    const pages: array<array?<bv8>>

    ghost predicate Valid()
      reads pages, pages[..]
    {
      && pages.Length == NUM_PAGES
      && (forall i :: 0 <= i < NUM_PAGES && pages[i] != null ==> pages[i].Length == PAGE_SIZE_IN_BYTES)
      && forall i, j :: 0 <= i < j < NUM_PAGES && pages[i] != null ==> pages[i] != pages[j]
    }

    ghost predicate Has(v: int)
      requires Valid()
      reads pages, pages[..]
    {
      0 <= v < 0x1_0000_0000 && pages[v / NUM_PAGES] != null && PageHas(pages[v / NUM_PAGES][..], v % NUM_PAGES)
    }

    /** The numbers that have been set. */
    ghost function Contents(): set<int>
      requires Valid()
      reads pages, pages[..]
    {
      set v | 0 <= v < 0x1_0000_0000 && Has(v)
    }

    constructor ()
      ensures Valid() && Contents() == {} && fresh(pages)
    {
      pages := new array?<bv8>[NUM_PAGES](i => null);
    }

    method Check(v: u32) returns (b: bool)
      requires Valid()
      ensures b <==> v in Contents()
    {
      hide Bit;
      var page := pages[v / NUM_PAGES];
      var bottom := v % NUM_PAGES;
      b := page != null && Bit(page[bottom / 8], bottom % 8);
    }

    method Set(v: u32)
      requires Valid()
      modifies pages, pages[..]
      ensures Valid() && Contents() == old(Contents()) + {v}
      ensures forall i :: 0 <= i < NUM_PAGES ==> pages[i] == old(pages[i]) || fresh(pages[i])
    {
      hide Bit, WithBit;
      ghost var before := Contents();
      var top, bottom := v / NUM_PAGES, v % NUM_PAGES;
      if pages[top] == null {
        pages[top] := new bv8[PAGE_SIZE_IN_BYTES](i => 0);
      }
      var page := pages[top];
      page[bottom / 8] := WithBit(page[bottom / 8], bottom % 8);
      forall u | 0 <= u < 0x1_0000_0000 ensures Has(u) <==> u == v || u in before {
        BitOfWithBit(if old(pages[top]) == null then 0 else old(pages[top][bottom / 8]), bottom % 8, u % NUM_PAGES % 8);
        NoBits(u % NUM_PAGES % 8);
        SamePlace(u, v);
      }
    }
  }

  /** A number is its page, its byte and its bit. */
  lemma SamePlace(u: nat, v: nat)
    ensures u == v <==> u / NUM_PAGES == v / NUM_PAGES && u % NUM_PAGES / 8 == v % NUM_PAGES / 8
                        && u % NUM_PAGES % 8 == v % NUM_PAGES % 8
  {
  }
}
