/**
 Page-structure entries as the 64-bit words they are (include/pml/x86_64/memory.h),
 and the correspondence of the kernel's bit expressions with updates of decoded entries.
 */
module PageEntry {
  import opened PageTree

  const PRESENT: bv64 := 0x001
  const RW: bv64 := 0x002
  const USER: bv64 := 0x004
  const SIZE: bv64 := 0x080
  const COW: bv64 := 0x200
  const FLAGS: bv64 := 0xfff    // PAGE_SIZE - 1
  const REST: bv64 := 0xd78     // flag bits that are kept but not interpreted

  function FrameOf(w: bv64): (f: nat)
  {
    (w >> 12) as nat
  }

  function Decode(w: bv64): (e: Entry)
    ensures e.frame == FrameOf(w)
  {
    Entry(FrameOf(w), w & PRESENT != 0, w & RW != 0, w & USER != 0, w & SIZE != 0, w & COW != 0, w & REST)
  }

  lemma NatInjective(x: bv64, y: bv64)
    requires x as nat == y as nat
    ensures x == y
  {
    assert (x as nat) as bv64 == x;
  }

  lemma FrameInjective(v: bv64, w: bv64)
    requires FrameOf(v) == FrameOf(w)
    ensures v >> 12 == w >> 12
  {
    NatInjective(v >> 12, w >> 12);
  }

  lemma DecodeIs(w: bv64)
    ensures var e := Decode(w);
      && e.frame == FrameOf(w) && e.present == (w & PRESENT != 0) && e.rw == (w & RW != 0) && e.user == (w & USER != 0)
      && e.size == (w & SIZE != 0) && e.cow == (w & COW != 0) && e.rest == w & REST
  {
    hide FrameOf;
  }

  lemma WordSplit(v: bv64, w: bv64)
    requires v >> 12 == w >> 12 && v & 0xfff == w & 0xfff
    ensures v == w
  {
  }

  lemma FlagBits(v: bv64, w: bv64)
    requires (v & 0x001 != 0) == (w & 0x001 != 0) && (v & 0x002 != 0) == (w & 0x002 != 0) && (v & 0x004 != 0) == (w & 0x004 != 0)
    requires (v & 0x080 != 0) == (w & 0x080 != 0) && (v & 0x200 != 0) == (w & 0x200 != 0) && v & 0xd78 == w & 0xd78
    ensures v & 0xfff == w & 0xfff
  {
  }

  /** Nothing is lost: different words decode to different entries. */
  lemma DecodeInjective(v: bv64, w: bv64)
    requires Decode(v) == Decode(w)
    ensures v == w
  {
    hide Decode, FrameOf;
    DecodeIs(v);
    DecodeIs(w);
    FrameInjective(v, w);
    FlagBits(v, w);
    WordSplit(v, w);
  }

  lemma KeptBits(v: bv64, w: bv64)
    requires v & 0xdfd == w & 0xdfd
    ensures v & 0x001 == w & 0x001 && v & 0x004 == w & 0x004 && v & 0x080 == w & 0x080 && v & 0xd78 == w & 0xd78
  {
  }

  lemma ResolvedBits(w: bv64, page: bv64)
    requires page & 0xfff == 0
    ensures var v := (page | 0x002 | (w & 0xfff)) & 0xffff_ffff_ffff_fdff;
      v >> 12 == page >> 12 && v & 0xdfd == w & 0xdfd && v & 0x002 == 0x002 && v & 0x200 == 0
  {
  }

  lemma SharedBits(w: bv64)
    ensures var v := (w | 0x200) & 0xffff_ffff_ffff_fffd;
      v >> 12 == w >> 12 && v & 0xdfd == w & 0xdfd && v & 0x002 == 0 && v & 0x200 == 0x200
  {
  }

  /** All the flags that resolution and sharing leave alone, at once. */
  lemma DecodeKept(v: bv64, w: bv64)
    requires v & 0xdfd == w & 0xdfd
    ensures Decode(v) == Decode(w).(frame := FrameOf(v), rw := v & RW != 0, cow := v & COW != 0)
  {
    KeptBits(v, w);
  }

  /** page | PAGE_FLAG_RW | (old & (PAGE_SIZE - 1)), then & ~PAGE_FLAG_COW. */
  lemma DecodeResolved(w: bv64, page: bv64)
    requires page & 0xfff == 0
    ensures Decode((page | RW | (w & FLAGS)) & 0xffff_ffff_ffff_fdff) == Decode(w).(frame := FrameOf(page), rw := true, cow := false)
  {
    hide Decode;
    ResolvedBits(w, page);
    var v := (page | RW | (w & FLAGS)) & 0xffff_ffff_ffff_fdff;
    DecodeKept(v, w);
  }

  /** cp[i] | PAGE_FLAG_COW, then & ~PAGE_FLAG_RW. */
  lemma DecodeShared(w: bv64)
    ensures Decode((w | COW) & 0xffff_ffff_ffff_fffd) == Decode(w).(cow := true, rw := false)
  {
    hide Decode;
    SharedBits(w);
    DecodeKept((w | COW) & 0xffff_ffff_ffff_fffd, w);
  }

  lemma DecodeZero()
    ensures Decode(0) == NO_ENTRY
  {
  }
}
