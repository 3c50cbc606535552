/**
  The 32-bit words the paging unit reads: page-directory and page-table entries.

  `Word` splits a word into the fields that linux-0.11/mm/memory.c looks at (bit 0 present,
  bit 1 writable, bit 2 user, bit 6 dirty, bits 12..31 page frame; Intel 80386 Programmer's
  Reference Manual, section 5.2.4).  `Decode` loses nothing, and every mask expression the C code
  applies to an entry is shown to be a field update, so the paging proofs can work on fields.
*/
module PageWord {

  datatype Word = Word(page: nat, present: bool, writable: bool, user: bool, dirty: bool, rest: bv32)

  const ZERO := Word(0, false, false, false, false, 0)

  /** The entry `page | 7`: present, writable, user. */
  function UserPage(page: nat): Word {
    Word(page, true, true, true, false, 0)
  }

  function Decode(x: bv32): Word {
    Word((x >> 12) as nat, x & 1 != 0, x & 2 != 0, x & 4 != 0, x & 0x40 != 0, x & 0xfb8)
  }

  /** No two 32-bit words have the same fields. */
  lemma DecodeInjective(x: bv32, y: bv32)
    requires Decode(x) == Decode(y)
    ensures x == y
  {
    PageOfInjective(x >> 12, y >> 12);
    assert x == ((x >> 12) << 12) | (x & 0xfb8) | (x & 1) | (x & 2) | (x & 4) | (x & 0x40);
    assert y == ((y >> 12) << 12) | (y & 0xfb8) | (y & 1) | (y & 2) | (y & 4) | (y & 0x40);
  }

  lemma PageOfInjective(a: bv32, b: bv32)
    requires a as nat == b as nat
    ensures a == b
  {
    assert (a as nat) as bv32 == a;
    assert (b as nat) as bv32 == b;
  }

  /** `x & ~2`, `x | 2`, and `x & 0xfffff000` as field updates. */
  lemma MasksAreFieldUpdates(x: bv32)
    ensures Decode(x & 0xfffffffd) == Decode(x).(writable := false)
    ensures Decode(x | 2) == Decode(x).(writable := true)
    ensures Decode(x & 0xfffff000) == Word(Decode(x).page, false, false, false, false, 0)
    ensures Decode(0) == ZERO
  {
    assert (x & 0xfffffffd) >> 12 == x >> 12;
    assert (x | 2) >> 12 == x >> 12;
    assert (x & 0xfffff000) >> 12 == x >> 12;
  }

  /** `addr | 7` on a page-aligned address. */
  lemma OrSeven(addr: bv32)
    requires addr & 0xfff == 0
    ensures Decode(addr | 7) == UserPage((addr >> 12) as nat)
  {
    assert (addr | 7) >> 12 == addr >> 12;
  }

  /** The guards: present, "present and read only", and "clean and present". */
  lemma GuardsAreFieldTests(x: bv32)
    ensures (x & 1 != 0) == Decode(x).present
    ensures (x & 3 == 1) == (Decode(x).present && !Decode(x).writable)
    ensures (x & 0x41 != 1) == !(Decode(x).present && !Decode(x).dirty)
  {
    assert (x & 3 == 1) == (x & 1 != 0 && x & 2 == 0);
    assert (x & 0x41 == 1) == (x & 1 != 0 && x & 0x40 == 0);
  }

  /** For a present entry the comparison of the whole word with LOW_MEM only depends on the frame. */
  lemma AboveLowMem(x: bv32)
    requires x & 1 != 0
    ensures (x > 0x100000) == (Decode(x).page >= 256)
  {
    assert (x > 0x100000) == (x >> 12 >= 256);
    BvOrder(x >> 12);
  }

  lemma BvOrder(a: bv32)
    ensures (a >= 256) == (a as nat >= 256)
  {
  }
}
