// Two-level page tables in physical memory (section 4.3 of the Intel SDM, Volume 3A).
// Virtual addresses are page numbers; physical memory maps frame numbers to their
// words.

module PageTable {

  const LENGTH: nat := 1024
  const PAGES: nat := 0x10_0000

  type Memory = map<nat, seq<nat>>

  predicate Present(word: nat) {
    word % 2 == 1
  }

  function FrameOf(word: nat): nat {
    word / 4096
  }

  lemma FrameAndFlags(frame: nat, flags: nat)
    requires flags < 4096
    ensures FrameOf(frame * 4096 + flags) == frame && (Present(frame * 4096 + flags) <==> Present(flags))
  {
  }

  function Word(mem: Memory, frame: nat, i: nat): nat {
    if frame in mem && i < |mem[frame]| then mem[frame][i] else 0
  }

  predicate HasTable(mem: Memory, dir: nat, slot: nat) {
    Present(Word(mem, dir, slot))
  }

  // The page table entry of a page, or 0 without a table.
  function Entry(mem: Memory, dir: nat, page: nat): nat {
    if HasTable(mem, dir, page / LENGTH) then Word(mem, FrameOf(Word(mem, dir, page / LENGTH)), page % LENGTH) else 0
  }

  // The flat page map that the two levels stand for: the entry of a mapped page, or 0.
  function Lookup(mem: Memory, dir: nat, page: nat): nat {
    if Present(Entry(mem, dir, page)) then Entry(mem, dir, page) else 0
  }
}
