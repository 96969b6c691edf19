/**
 The bitmap of known jump destinations (allocate_jump_table, set_bit, is_bit_set, mark_jump and
 has_jump in src/intercept_desc.c): one bit for each byte of the text, refining a set of addresses.
 */
module JumpTable {

  /** 1 << (offset % 8) */
  function BitMask(offset: nat): bv8 {
    (1 as bv8) << (offset % 8)
  }

  /** is_bit_set */
  predicate BitIn(b: bv8, offset: nat) {
    b & BitMask(offset) != 0
  }

  /** Setting one bit of a byte sets that bit and leaves the seven others as they were. */
  lemma SetBitInByte(b: bv8, i: nat, k: nat)
    ensures BitIn(b | BitMask(i), k) <==> BitIn(b, k) || i % 8 == k % 8
  {
    MaskValues(i % 8);
    MaskValues(k % 8);
  }

  lemma MaskValues(k: nat)
    requires k < 8
    ensures (1 as bv8) << k == if k == 0 then 1 else if k == 1 then 2 else if k == 2 then 4 else if k == 3 then 8
                               else if k == 4 then 16 else if k == 5 then 32 else if k == 6 then 64 else 128
  {
  }

  class Bitmap {
    const textStart: int
    const textEnd: int
    const table: array<bv8>

    ghost predicate Valid() {
      textStart < textEnd && table.Length == (textEnd - textStart + 1) / 8 + 1
    }

    /** The address lies in the text and its bit is set. */
    ghost predicate IsMarked(a: int)
      requires Valid()
      reads table
    {
      textStart <= a <= textEnd && BitIn(table[(a - textStart) / 8], a - textStart)
    }

    /** The addresses marked so far; all of them lie in the text. */
    ghost function Marks(): (marks: set<int>)
      requires Valid()
      reads table
    {
      set a | textStart <= a <= textEnd && IsMarked(a)
    }

    /** allocate_jump_table; anonymous mappings start out zeroed. */
    constructor (textStart: int, textEnd: int)
      requires textStart < textEnd
      ensures Valid() && fresh(table)
      ensures this.textStart == textStart && this.textEnd == textEnd
      ensures Marks() == {}
    {
      this.textStart := textStart;
      this.textEnd := textEnd;
      var bytes := textEnd - textStart + 1;
      this.table := new bv8[bytes / 8 + 1](_ => 0);
      new;
      assert forall a :: !IsMarked(a);
    }

    /** has_jump */
    method HasJump(addr: int) returns (marked: bool)
      requires Valid()
      ensures marked <==> addr in Marks()
    {
      if textStart <= addr <= textEnd {
        var offset := addr - textStart;
        assert IsMarked(addr) <==> BitIn(table[offset / 8], offset);
        marked := BitIn(table[offset / 8], offset);
      } else {
        marked := false;
      }
    }

    /** mark_jump: an address outside the text changes nothing. */
    method MarkJump(addr: int)
      requires Valid()
      modifies table
      ensures Marks() == old(Marks()) + (if textStart <= addr <= textEnd then {addr} else {})
    {
      if textStart <= addr <= textEnd {
        var offset := addr - textStart;
        table[offset / 8] := table[offset / 8] | BitMask(offset);
        forall a: int
          ensures IsMarked(a) <==> old(IsMarked(a)) || a == addr
        {
          if textStart <= a <= textEnd {
            SetBitInByte(old(table[offset / 8]), offset, a - textStart);
          }
        }
      }
    }
  }
}
