/**
 What the code writes into page-structure entries, as the expressions on 64-bit words it
 writes: every change of a decoded entry is the decoding of the word written, so that no
 flag is gained or lost.
 */
module EntryBits {
  import opened PageTree
  import opened PageEntry
  import opened CowFault
  import opened CowSteps
  import PM = PageMap

  /** The list decodes the words of a paging structure. */
  ghost predicate Decodes(es: seq<Entry>, ws: seq<bv64>)
  {
    |es| == |ws| && forall i | 0 <= i < |ws| :: es[i] == Decode(ws[i])
  }

  /** The word with the copy-on-write flag set and the write flag clear, if it is present. */
  function Marked(w: bv64, absent: bv64): (v: bv64)
  {
    if w & PRESENT != 0 then (w | COW) & 0xffff_ffff_ffff_fffd else absent
  }

  /** The copy of a paging structure the page fault handler makes: absent entries become zero. */
  lemma {:induction false} CopiedWords(es: seq<Entry>, ws: seq<bv64>)
    requires Decodes(es, ws)
    ensures Decodes(CowEntries(es), seq(|ws|, i requires 0 <= i < |ws| => Marked(ws[i], 0)))
  {
    hide Decode;
    forall i | 0 <= i < |ws| ensures CowEntries(es)[i] == Decode(Marked(ws[i], 0)) {
      DecodeIs(ws[i]);
      DecodeShared(ws[i]);
      DecodeZero();
    }
  }

  /** The marks thread_clone makes: in the user half only, and absent entries stay. */
  lemma {:induction false} MarkedWords(es: seq<Entry>, ws: seq<bv64>)
    requires Decodes(es, ws)
    ensures Decodes(MarkEntries(es), seq(|ws|, i requires 0 <= i < |ws| => if i < 256 then Marked(ws[i], ws[i]) else ws[i]))
  {
    hide Decode;
    forall i | 0 <= i < |ws| ensures MarkEntries(es)[i] == Decode(if i < 256 then Marked(ws[i], ws[i]) else ws[i]) {
      DecodeIs(ws[i]);
      DecodeShared(ws[i]);
    }
  }

  /** The release of user memory: present entries of the user half become zero. */
  lemma {:induction false} ClearedWords(es: seq<Entry>, ws: seq<bv64>)
    requires Decodes(es, ws)
    ensures Decodes(ClearEntries(es), seq(|ws|, i requires 0 <= i < |ws| => if i < 256 && ws[i] & PRESENT != 0 then 0 else ws[i]))
  {
    hide Decode;
    forall i | 0 <= i < |ws| ensures ClearEntries(es)[i] == Decode(if i < 256 && ws[i] & PRESENT != 0 then 0 else ws[i]) {
      DecodeIs(ws[i]);
      DecodeZero();
    }
  }

  /** The PML4T of a new thread: the parent's words, with one for the thread-local PDPT at 506. */
  lemma {:induction false} ClonedWords(es: seq<Entry>, ws: seq<bv64>, tlp: bv64)
    requires Decodes(es, ws) && tlp & 0xfff == 0
    ensures Decodes(ClonedEntries(es, FrameOf(tlp)),
                    seq(|ws|, i requires 0 <= i < |ws| => if i == 506 then tlp | PRESENT | RW | USER else ws[i]))
  {
    hide Decode;
    DecodeMade(tlp, 0);
    MadeBits(tlp, 0);
    DecodeZero();
    assert tlp | PRESENT | RW | USER == tlp | PRESENT | RW | USER | 0;
  }

  /** The entry of the resolved page or table. */
  lemma ResolvedWord(w: bv64, page: bv64)
    requires page & 0xfff == 0
    ensures Resolved(Decode(w), FrameOf(page)) == Decode((page | RW | (w & FLAGS)) & 0xffff_ffff_ffff_fdff)
  {
    hide Decode, FrameOf;
    DecodeResolved(w, page);
  }

  lemma MadeBits(page: bv64, flags: bv64)
    requires page & 0xfff == 0 && flags & 0xffff_ffff_ffff_f000 == 0
    ensures var v := page | 0x001 | 0x002 | 0x004 | flags;
      && v >> 12 == page >> 12 && v & 0xff8 == flags & 0xff8 && v & 0x007 == 0x007
  {
  }

  lemma OtherBits(v: bv64, w: bv64)
    requires v & 0xff8 == w & 0xff8
    ensures v & 0x080 == w & 0x080 && v & 0x200 == w & 0x200 && v & 0xd78 == w & 0xd78
  {
  }

  lemma LowBits(v: bv64)
    requires v & 0x007 == 0x007
    ensures v & 0x001 == 0x001 && v & 0x002 == 0x002 && v & 0x004 == 0x004
  {
  }

  lemma SameFrame(v: bv64, w: bv64)
    requires v >> 12 == w >> 12
    ensures FrameOf(v) == FrameOf(w)
  {
  }

  lemma {:induction false} MadeFields(v: bv64, page: bv64, flags: bv64)
    requires v >> 12 == page >> 12 && v & 0xff8 == flags & 0xff8 && v & 0x007 == 0x007
    ensures Decode(v) == PM.TableEntry(FrameOf(page), Decode(flags))
  {
    hide Decode, FrameOf;
    OtherBits(v, flags);
    LowBits(v);
    SameFrame(v, page);
    DecodeIs(v);
    DecodeIs(flags);
  }

  /** The entry vm_map_page makes for a new table. */
  lemma {:induction false} DecodeMade(page: bv64, flags: bv64)
    requires page & 0xfff == 0 && flags & 0xffff_ffff_ffff_f000 == 0
    ensures Decode(page | PRESENT | RW | USER | flags) == PM.TableEntry(FrameOf(page), Decode(flags))
  {
    hide Decode, FrameOf, PM.TableEntry;
    MadeBits(page, flags);
    MadeFields(page | PRESENT | RW | USER | flags, page, flags);
  }

  lemma LeafBits(phys: bv64, flags: bv64)
    requires flags & 0xffff_ffff_ffff_f000 == 0
    ensures var v := (phys & 0xffff_ffff_ffff_f000) | 0x001 | flags;
      && v >> 12 == phys >> 12 && v & 0xffe == flags & 0xffe && v & 0x001 == 0x001
  {
  }

  lemma UpperBits(v: bv64, w: bv64)
    requires v & 0xffe == w & 0xffe
    ensures v & 0x002 == w & 0x002 && v & 0x004 == w & 0x004 && v & 0xff8 == w & 0xff8
  {
  }

  lemma {:induction false} LeafFields(v: bv64, phys: bv64, flags: bv64)
    requires v >> 12 == phys >> 12 && v & 0xffe == flags & 0xffe && v & 0x001 == 0x001
    ensures Decode(v) == PM.LeafEntry(FrameOf(phys), Decode(flags))
  {
    hide Decode, FrameOf;
    UpperBits(v, flags);
    OtherBits(v, flags);
    SameFrame(v, phys);
    DecodeIs(v);
    DecodeIs(flags);
  }

  /** The entry vm_map_page makes for the page. */
  lemma {:induction false} DecodeLeaf(phys: bv64, flags: bv64)
    requires flags & 0xffff_ffff_ffff_f000 == 0
    ensures Decode((phys & 0xffff_ffff_ffff_f000) | PRESENT | flags) == PM.LeafEntry(FrameOf(phys), Decode(flags))
  {
    hide Decode, FrameOf, PM.LeafEntry;
    LeafBits(phys, flags);
    LeafFields((phys & 0xffff_ffff_ffff_f000) | PRESENT | flags, phys, flags);
  }
}
