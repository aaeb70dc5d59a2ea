/** The intrusive list entries and the tagged words that link them. */
module Nodes {
  import opened Bits

  /** What a `Next` word holds: nothing yet, the address of the next entry, the tagged address of
      the owning table, or the word of an unlinked entry with the removal bits or-ed in. */
  datatype Link = Unset | To(node: Node) | End(owner: object) | Removed(was: Link)

  /** A bucket head or an entry. The hash value is the caller's: the table only reads it. */
  class Node {
    const hashValue: u64
    var next: Link

    constructor (hashValue: u64)
      ensures this.hashValue == hashValue && next == Unset
    {
      this.hashValue := hashValue;
      next := Unset;
    }
  }

  /** Bit 0 of the word: set by the sentinel tag, and kept when the word is marked removed. */
  predicate LastLink(l: Link) {
    match l
    case Unset => false
    case To(_) => false
    case End(_) => true
    case Removed(was) => LastLink(was)
  }

  // ---- the words behind the links

  const END_TAG: bv64 := 1
  const REMOVED_TAG: bv64 := 0x8000_0000_0000_0002

  function Encode(l: Link, nodeAt: Node -> bv64, tableAt: object -> bv64): bv64 {
    match l
    case Unset => 0
    case To(n) => nodeAt(n)
    case End(t) => tableAt(t) | END_TAG
    case Removed(was) => Encode(was, nodeAt, tableAt) | REMOVED_TAG
  }

  /** Entries and tables start on multiples of four, so the low two bits of an address are free. */
  predicate Aligned(l: Link, nodeAt: Node -> bv64, tableAt: object -> bv64) {
    match l
    case Unset => true
    case To(n) => nodeAt(n) & 3 == 0
    case End(t) => tableAt(t) & 3 == 0
    case Removed(was) => Aligned(was, nodeAt, tableAt)
  }

  /** `HashBucketLastLink` on the word tests what `LastLink` says of the link, and a link that leads
      to an entry is that entry's address. */
  lemma {:induction false} LastLinkTestsBitZero(l: Link, nodeAt: Node -> bv64, tableAt: object -> bv64)
    requires Aligned(l, nodeAt, tableAt)
    ensures Encode(l, nodeAt, tableAt) & 1 != 0 <==> LastLink(l)
    ensures l.To? ==> Encode(l, nodeAt, tableAt) == nodeAt(l.node)
  {
    match l {
      case Unset =>
      case To(n) => PlainWord(nodeAt(n));
      case End(t) => PlainWord(tableAt(t));
      case Removed(was) =>
        LastLinkTestsBitZero(was, nodeAt, tableAt);
        RemovedWord(Encode(was, nodeAt, tableAt));
    }
  }

  /** Clearing bit 0 of a sentinel word gives back the owning table's address. */
  lemma SentinelDecodes(t: object, nodeAt: Node -> bv64, tableAt: object -> bv64)
    requires Aligned(End(t), nodeAt, tableAt)
    ensures Encode(End(t), nodeAt, tableAt) & !1 == tableAt(t)
  {
    PlainWord(tableAt(t));
  }

  /** Bit 1 of the word tells the unlinked entries from the linked ones, and in the upper half of
      the address space clearing it restores the word the entry had. */
  lemma RemovalIsRecognisable(l: Link, nodeAt: Node -> bv64, tableAt: object -> bv64)
    requires Aligned(l, nodeAt, tableAt)
    ensures Encode(l, nodeAt, tableAt) & 2 != 0 <==> l.Removed?
    ensures !l.Removed? && Encode(l, nodeAt, tableAt) >= 0x8000_0000_0000_0000 ==>
              Encode(Removed(l), nodeAt, tableAt) & !2 == Encode(l, nodeAt, tableAt)
  {
    match l {
      case Unset =>
      case To(n) => PlainWord(nodeAt(n)); RestoredWord(nodeAt(n));
      case End(t) => PlainWord(tableAt(t)); RestoredWord(tableAt(t) | 1);
      case Removed(was) => RemovedWord(Encode(was, nodeAt, tableAt));
    }
  }

  /** The word of a removed entry also has its top bit set. */
  lemma RemovedWordIsHigh(l: Link, nodeAt: Node -> bv64, tableAt: object -> bv64)
    requires l.Removed?
    ensures Encode(l, nodeAt, tableAt) >= 0x8000_0000_0000_0000
  {
    TopBit(Encode(l.was, nodeAt, tableAt));
  }

  lemma TopBit(w: bv64)
    ensures w | 0x8000_0000_0000_0002 >= 0x8000_0000_0000_0000
  {
  }

  lemma PlainWord(a: bv64)
    requires a & 3 == 0
    ensures a & 1 == 0 && a & 2 == 0 && (a | 1) & 1 == 1 && (a | 1) & 2 == 0 && (a | 1) & !1 == a
  {
  }

  lemma RemovedWord(w: bv64)
    ensures (w | 0x8000_0000_0000_0002) & 1 == w & 1 && (w | 0x8000_0000_0000_0002) & 2 == 2
  {
  }

  lemma RestoredWord(w: bv64)
    requires w & 2 == 0
    ensures w >= 0x8000_0000_0000_0000 ==> (w | 0x8000_0000_0000_0002) & !2 == w
  {
  }
}
