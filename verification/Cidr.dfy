// Containment of IPv4 address blocks (prefix notation: section 3.1 of RFC 4632). Masking an
// address is shifting its host bits out and zeros back in.
module Cidr {
  import opened Wrappers

  type Address = a: nat | a < 0x1_0000_0000

  datatype Prefix = Prefix(address: Address, bits: nat)

  /** What the library parser yields for IPv4 text: an address and a length. */
  type Block = p: Prefix | p.bits <= 32 witness Prefix(0, 0)

  /** The library parser, which is not part of this model: None for text it rejects. */
  type CidrParser = string -> Option<Block>

  function ShiftOut(a: nat, hostBits: nat): nat
    decreases hostBits
  {
    if hostBits == 0 then a else ShiftOut(a / 2, hostBits - 1)
  }

  function ShiftIn(a: nat, hostBits: nat): nat {
    if hostBits == 0 then a else 2 * ShiftIn(a, hostBits - 1)
  }

  /** The address with the bits beyond the prefix cleared. */
  function Masked(a: nat, bits: nat): nat
    requires bits <= 32
  {
    ShiftIn(ShiftOut(a, 32 - bits), 32 - bits)
  }

  /** The addresses of a block: those with its masked bits. */
  predicate InBlock(p: Block, a: nat) {
    Masked(a, p.bits) == Masked(p.address, p.bits)
  }

  /** The outer prefix is no longer than the inner, and its block holds the inner network
      address. */
  predicate BlockContains(outer: Block, inner: Block) {
    outer.bits <= inner.bits && InBlock(outer, Masked(inner.address, inner.bits))
  }

  predicate CidrContains(parse: CidrParser, outer: string, inner: string) {
    outer != "" && inner != "" && parse(outer).Some? && parse(inner).Some?
    && BlockContains(parse(outer).value, parse(inner).value)
  }

  // ----- shifts -----

  lemma {:induction false} OutAfterIn(a: nat, hostBits: nat)
    ensures ShiftOut(ShiftIn(a, hostBits), hostBits) == a
    decreases hostBits
  {
    if hostBits > 0 {
      OutAfterIn(a, hostBits - 1);
    }
  }

  lemma {:induction false} OutTwice(a: nat, m: nat, n: nat)
    ensures ShiftOut(a, m + n) == ShiftOut(ShiftOut(a, m), n)
    decreases m
  {
    if m > 0 {
      OutTwice(a / 2, m - 1, n);
    }
  }

  lemma {:induction false} ZerosShiftOut(hostBits: nat)
    ensures ShiftOut(0, hostBits) == 0
  {
    if hostBits > 0 {
      ZerosShiftOut(hostBits - 1);
    }
  }

  /** Nothing is left of a 32-bit address after 32 shifts, and of no other number. */
  lemma {:induction false} FitsIn(a: nat, hostBits: nat)
    ensures ShiftOut(a, hostBits) == 0 <==> a < ShiftIn(1, hostBits)
    decreases hostBits
  {
    if hostBits > 0 {
      FitsIn(a / 2, hostBits - 1);
    }
  }

  lemma InBlockByShift(p: Block, a: nat)
    ensures InBlock(p, a) <==> ShiftOut(a, 32 - p.bits) == ShiftOut(p.address, 32 - p.bits)
  {
    OutAfterIn(ShiftOut(a, 32 - p.bits), 32 - p.bits);
    OutAfterIn(ShiftOut(p.address, 32 - p.bits), 32 - p.bits);
  }

  // ----- blocks are slots of the address line -----

  function Pow2(n: nat): nat {
    if n == 0 then 1 else 2 * Pow2(n - 1)
  }

  /** The k-th of the slots that prefixes of this length cut the address line into. */
  ghost predicate InSlot(k: nat, bits: nat, a: nat)
    requires bits <= 32
  {
    k * Pow2(32 - bits) <= a < (k + 1) * Pow2(32 - bits)
  }

  lemma {:induction false} ShiftInMultiplies(k: nat, n: nat)
    ensures ShiftIn(k, n) == k * Pow2(n)
  {
    if n > 0 {
      ShiftInMultiplies(k, n - 1);
    }
  }

  lemma {:induction false} ShiftOutFindsSlot(a: nat, n: nat, k: nat)
    ensures ShiftOut(a, n) == k <==> ShiftIn(k, n) <= a < ShiftIn(k + 1, n)
    decreases n
  {
    if n > 0 {
      ShiftOutFindsSlot(a / 2, n - 1, k);
    }
  }

  /** The addresses of a block are those of the slot of its size that its own address lies in. */
  lemma BlockIsSlot(p: Block, a: nat)
    ensures InBlock(p, a) <==> exists k: nat :: InSlot(k, p.bits, p.address) && InSlot(k, p.bits, a)
  {
    InBlockByShift(p, a);
    forall k: nat
      ensures InSlot(k, p.bits, a) <==> ShiftOut(a, 32 - p.bits) == k
      ensures InSlot(k, p.bits, p.address) <==> ShiftOut(p.address, 32 - p.bits) == k
    {
      SlotByShift(k, p.bits, a);
      SlotByShift(k, p.bits, p.address);
    }
    hide InBlock, InSlot, ShiftOut;
    assert InSlot(ShiftOut(a, 32 - p.bits), p.bits, a);
  }

  lemma SlotByShift(k: nat, bits: nat, a: nat)
    requires bits <= 32
    ensures InSlot(k, bits, a) <==> ShiftOut(a, 32 - bits) == k
  {
    ShiftOutFindsSlot(a, 32 - bits, k);
    ShiftInMultiplies(k, 32 - bits);
    ShiftInMultiplies(k + 1, 32 - bits);
  }

  // ----- containment is inclusion of address sets -----

  ghost predicate Includes(outer: Block, inner: Block) {
    forall a: Address :: InBlock(inner, a) ==> InBlock(outer, a)
  }

  lemma BlockHoldsOwnNetwork(p: Block)
    ensures InBlock(p, p.address) && InBlock(p, Masked(p.address, p.bits))
  {
    OutAfterIn(ShiftOut(p.address, 32 - p.bits), 32 - p.bits);
  }

  /** Where the outer prefix is no longer, any one address of the inner block decides. */
  lemma AnyAddressDecides(outer: Block, inner: Block, a: nat, b: nat)
    requires outer.bits <= inner.bits && InBlock(inner, a) && InBlock(inner, b)
    ensures InBlock(outer, a) <==> InBlock(outer, b)
  {
    InBlockByShift(inner, a);
    InBlockByShift(inner, b);
    InBlockByShift(outer, a);
    InBlockByShift(outer, b);
    OutTwice(a, 32 - inner.bits, inner.bits - outer.bits);
    OutTwice(b, 32 - inner.bits, inner.bits - outer.bits);
  }

  lemma NeighbourSharesUpper(upper: nat, lowBits: nat)
    requires lowBits > 0
    ensures ShiftOut(ShiftIn(upper, lowBits) + 1, lowBits) == upper
  {
    var half := ShiftIn(upper, lowBits - 1);
    assert (2 * half + 1) / 2 == half;
    OutAfterIn(upper, lowBits - 1);
  }

  /** Where the outer prefix is longer, two addresses of the inner block differ under it. */
  lemma TwoOuterBlocks(outer: Block, inner: Block) returns (a: Address)
    requires outer.bits > inner.bits
    ensures InBlock(inner, a) && !InBlock(outer, a)
  {
    hide ShiftOut, ShiftIn, InBlock;
    var h, more := 32 - outer.bits, outer.bits - inner.bits;
    var upper := ShiftOut(inner.address, h + more);
    var low := ShiftIn(upper, more);
    OutAfterIn(upper, more);
    NeighbourSharesUpper(upper, more);
    var pick := if low == ShiftOut(outer.address, h) then low + 1 else low;
    var wide := ShiftIn(pick, h);
    OutAfterIn(pick, h);
    OutTwice(wide, h, more);
    InBlockByShift(inner, wide);
    InBlockByShift(outer, wide);
    StaysAddress(wide, inner.address, h + more);
    a := wide;
  }

  lemma StaysAddress(a: nat, b: Address, hostBits: nat)
    requires hostBits <= 32 && ShiftOut(a, hostBits) == ShiftOut(b, hostBits)
    ensures a < 0x1_0000_0000
  {
    OutTwice(a, hostBits, 32 - hostBits);
    OutTwice(b, hostBits, 32 - hostBits);
    FitsIn(a, 32);
    FitsIn(b, 32);
    AddressSpace();
  }

  lemma {:induction false} InTwice(a: nat, m: nat, n: nat)
    ensures ShiftIn(a, m + n) == ShiftIn(ShiftIn(a, m), n)
  {
    if n > 0 {
      InTwice(a, m, n - 1);
    }
  }

  lemma FourMore(n: nat)
    ensures ShiftIn(1, n + 4) == 16 * ShiftIn(1, n)
  {
    var a := ShiftIn(1, n);
    InTwice(1, n, 4);
    assert ShiftIn(a, 1) == 2 * ShiftIn(a, 0) && ShiftIn(a, 2) == 2 * ShiftIn(a, 1);
    assert ShiftIn(a, 3) == 2 * ShiftIn(a, 2) && ShiftIn(a, 4) == 2 * ShiftIn(a, 3);
  }

  lemma AddressSpace()
    ensures ShiftIn(1, 32) == 0x1_0000_0000
  {
    FourMore(0);
    FourMore(4);
    FourMore(8);
    FourMore(12);
    FourMore(16);
    FourMore(20);
    FourMore(24);
    FourMore(28);
  }

  /** Containment, decided on one address, is inclusion of the address sets. */
  lemma ContainsIsInclusion(outer: Block, inner: Block)
    ensures BlockContains(outer, inner) <==> Includes(outer, inner)
  {
    BlockHoldsOwnNetwork(inner);
    hide Masked;
    if outer.bits <= inner.bits {
      var net := Masked(inner.address, inner.bits);
      AnyAddressDecides(outer, inner, inner.address, net);
      forall a: Address | InBlock(inner, a)
        ensures InBlock(outer, a) <==> InBlock(outer, net)
      {
        AnyAddressDecides(outer, inner, a, net);
      }
    } else {
      var a := TwoOuterBlocks(outer, inner);
    }
  }

  /** The outer text is a block with all addresses of the inner one's. */
  ghost predicate Around(parse: CidrParser, outer: string, inner: string) {
    && outer != "" && inner != "" && parse(outer).Some? && parse(inner).Some?
    && Includes(parse(outer).value, parse(inner).value)
  }

  /** So on texts. */
  lemma ContainsIsAround(parse: CidrParser, outer: string, inner: string)
    ensures CidrContains(parse, outer, inner) <==> Around(parse, outer, inner)
  {
    if parse(outer).Some? && parse(inner).Some? {
      ContainsIsInclusion(parse(outer).value, parse(inner).value);
    }
  }

  /** Hence a preorder. */
  lemma ContainsIsPreorder(a: Block, b: Block, c: Block)
    ensures BlockContains(a, a)
    ensures BlockContains(a, b) && BlockContains(b, c) ==> BlockContains(a, c)
  {
    hide BlockContains, InBlock;
    ContainsIsInclusion(a, a);
    ContainsIsInclusion(a, b);
    ContainsIsInclusion(b, c);
    ContainsIsInclusion(a, c);
  }

  lemma CidrContainsIsTransitive(parse: CidrParser, a: string, b: string, c: string)
    requires CidrContains(parse, a, b) && CidrContains(parse, b, c)
    ensures CidrContains(parse, a, c)
  {
    ContainsIsPreorder(parse(a).value, parse(b).value, parse(c).value);
  }
}
