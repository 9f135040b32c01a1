/** Page-table entries of kern/page-table.h and the hardware's walk over them: 4-level paging, section 4.5
    of the Intel SDM Volume 3A.

    Physical memory is a map from page numbers to frames of 512 words; the walk is the specification. */
module PageWalk {
  import opened Arithmetic

  const KERN_OFFSET: nat := 0xFFFF_FF00_0000_0000
  const SIZE_4K: nat := 0x1000
  const SIZE_2M: nat := 0x20_0000
  const SIZE_1G: nat := 0x4000_0000
  const SIZE_512G: nat := 0x80_0000_0000

  /** Where physical address p appears in the kernel's window. */
  function Kernel(p: nat): nat {
    KERN_OFFSET + p
  }

  const PRESENT: nat := 1
  const READ_WRITE: nat := 2
  const WRITE_THROUGH: nat := 8
  const CACHE_DISABLED: nat := 16
  const HUGE: nat := 128

  type Frame = seq<nat>
  type Memory = map<int, Frame>

  function GetFlag(w: nat, flag: nat): bool
    requires flag > 0
  {
    w / flag % 2 == 1
  }

  function SetFlag(w: nat, flag: nat, b: bool): nat
    requires flag > 0
  {
    if b && !GetFlag(w, flag) then w + flag
    else if !b && GetFlag(w, flag) then
      assert w == flag * (w / flag) + w % flag && flag * (w / flag) >= flag;
      w - flag
    else w
  }

  /** The frame an entry points to: bits 12 to 51. */
  function FrameOf(w: nat): nat {
    w / SIZE_4K % 0x100_0000_0000
  }

  /** physical_address(): the word without its low nine bits. */
  function PhysicalAddress(w: nat): nat {
    w - w % 512
  }

  /** No bits between the flags and the address, and none above it. */
  predicate WordOk(w: nat) {
    w % SIZE_4K < 512 && w < 0x10_0000_0000_0000
  }

  /** An entry built from an address by the constructor and the setters. */
  function MakeEntry(paddr: nat, huge: bool, wt: bool, cd: bool): nat {
    var w := SetFlag(SetFlag(paddr, PRESENT, true), READ_WRITE, true);
    SetFlag(SetFlag(if huge then SetFlag(w, HUGE, true) else w, WRITE_THROUGH, wt), CACHE_DISABLED, cd)
  }

  /** The flags of a word are the flags of its low bits. */
  lemma LowBits(k: nat, c: nat)
    requires c < 512
    ensures var w := SIZE_4K * k + c;
            && w % SIZE_4K == c && w / SIZE_4K == k && w % 512 == c
            && GetFlag(w, PRESENT) == GetFlag(c, PRESENT) && GetFlag(w, READ_WRITE) == GetFlag(c, READ_WRITE)
  {
    var w := SIZE_4K * k + c;
    DivMod(w, SIZE_4K, k, c);
    DivMod(w, 512, 8 * k, c);
    FlagBit(2048 * k, c, 1);
    FlagBit(1024 * k, c, 2);
  }

  /** Bits above a flag's byte do not reach it. */
  lemma FlagBit(k: nat, c: nat, flag: nat)
    requires flag > 0
    ensures GetFlag(2 * flag * k + c, flag) == GetFlag(c, flag)
  {
    var q := c / flag;
    DivMod(2 * flag * k + c, flag, 2 * k + q, c % flag);
    DivMod(2 * k + q, 2, k + q / 2, q % 2);
  }

  lemma LowFlags(k: nat, c: nat)
    requires c < 512
    ensures var w := SIZE_4K * k + c;
            && GetFlag(w, WRITE_THROUGH) == GetFlag(c, WRITE_THROUGH)
            && GetFlag(w, CACHE_DISABLED) == GetFlag(c, CACHE_DISABLED) && GetFlag(w, HUGE) == GetFlag(c, HUGE)
  {
    FlagBit(256 * k, c, 8);
    FlagBit(128 * k, c, 16);
    FlagBit(16 * k, c, 128);
  }

  lemma EntryWord(paddr: nat, huge: bool, wt: bool, cd: bool)
    requires paddr % SIZE_4K == 0
    ensures MakeEntry(paddr, huge, wt, cd) ==
              paddr + 3 + (if huge then 128 else 0) + (if wt then 8 else 0) + (if cd then 16 else 0)
  {
    var k := paddr / SIZE_4K;
    var h := if huge then 131 else 3;
    var t := if wt then h + 8 else h;
    LowBits(k, 0);
    LowBits(k, 1);
    LowFlags(k, 3);
    LowFlags(k, h);
    LowFlags(k, t);
  }

  lemma EntryFields(paddr: nat, huge: bool, wt: bool, cd: bool)
    requires paddr % SIZE_4K == 0 && paddr < 0x10_0000_0000_0000
    ensures var w := MakeEntry(paddr, huge, wt, cd);
            && WordOk(w) && GetFlag(w, PRESENT) && GetFlag(w, READ_WRITE) && GetFlag(w, HUGE) == huge
            && GetFlag(w, WRITE_THROUGH) == wt && GetFlag(w, CACHE_DISABLED) == cd
            && PhysicalAddress(w) == paddr && FrameOf(w) == paddr / SIZE_4K
  {
    hide MakeEntry;
    EntryWord(paddr, huge, wt, cd);
    var k := paddr / SIZE_4K;
    var c := 3 + (if huge then 128 else 0) + (if wt then 8 else 0) + (if cd then 16 else 0);
    LowBits(k, c);
    LowFlags(k, c);
  }

  /** Bytes mapped by an entry of a level-l table; a level-4 entry covers 512 GB. */
  function SizeOf(l: nat): (r: nat)
    requires 1 <= l <= 4
    ensures r > 0
  {
    if l == 1 then SIZE_4K else if l == 2 then SIZE_2M else if l == 3 then SIZE_1G else SIZE_512G
  }

  function Index(v: nat, l: nat): (i: nat)
    requires 1 <= l <= 4
    ensures i < 512
  {
    v / SizeOf(l) % 512
  }

  datatype Translation = Unmapped | Mapped(phys: nat, size: nat, writeThrough: bool, cacheDisabled: bool)

  /** What a leaf entry of a level-l table says of address v. */
  function Leaf(w: nat, l: nat, v: nat): (t: Translation)
    requires 1 <= l <= 3
    ensures t.Mapped?
  {
    Mapped(w / SizeOf(l) * SizeOf(l) % 0x10_0000_0000_0000 + v % SizeOf(l), SizeOf(l),
           GetFlag(w, WRITE_THROUGH), GetFlag(w, CACHE_DISABLED))
  }

  /** A present entry of a level-l table maps a page itself, rather than pointing to a table. */
  predicate IsLeaf(w: nat, l: nat) {
    GetFlag(w, PRESENT) && (l == 1 || (l <= 3 && GetFlag(w, HUGE)))
  }

  predicate Points(w: nat, l: nat) {
    GetFlag(w, PRESENT) && !IsLeaf(w, l)
  }

  /** The hardware's walk from the level-l table in frame f. */
  function Walk(mem: Memory, f: int, l: nat, v: nat): Translation
    requires 1 <= l <= 4
    decreases l
  {
    if f !in mem || |mem[f]| != 512 then Unmapped
    else
      var w := mem[f][Index(v, l)];
      if !GetFlag(w, PRESENT) then Unmapped
      else if IsLeaf(w, l) then Leaf(w, l, v)
      else Walk(mem, FrameOf(w), l - 1, v)
  }
}
