/**
 The wrapper generated for one patch (relocate_instruction and create_wrapper in src/patcher.c):
 relocated instructions, a copy of the template with two addresses filled in, and the way back.
 */
module WrapperCode {
  import opened Bytes
  import opened Encoding
  import opened Disasm
  import opened Listing
  import opened Plan

  /**
   What every wrapper is made from: the template, the two places in it that hold a movabs to r11, the
   address of intercept_wrapper and the array of patch descriptions.
   */
  datatype Generator = Generator(
    template: seq<Byte>, descAt: nat, level1At: nat, level1: nat, items: nat, itemSize: nat)

  /** The two places are in the template, and apart. */
  ghost predicate ValidGenerator(g: Generator) {
    && g.descAt + MOVABS_SIZE <= |g.template| && g.level1At + MOVABS_SIZE <= |g.template|
    && (g.descAt + MOVABS_SIZE <= g.level1At || g.level1At + MOVABS_SIZE <= g.descAt)
    && g.level1 < TWO_64
  }

  function DescAddress(g: Generator, i: nat): (a: nat)
    ensures a < TWO_64
  {
    (g.items + i * g.itemSize) % TWO_64
  }

  /** b with its bytes from o on replaced by m. */
  function Splice(b: seq<Byte>, o: nat, m: seq<Byte>): (r: seq<Byte>)
    requires o + |m| <= |b|
    ensures |r| == |b|
  {
    b[..o] + m + b[o + |m|..]
  }

  /** The copy of the template for patch number i. */
  function Instance(g: Generator, i: nat): (b: seq<Byte>)
    requires ValidGenerator(g)
    ensures |b| == |g.template|
  {
    Splice(Splice(g.template, g.descAt, MovabsBytes(DescAddress(g, i), 11)), g.level1At, MovabsBytes(g.level1, 11))
  }

  /** The bytes hold a movabs of this value to r11 at o. */
  ghost predicate LoadsR11(b: seq<Byte>, o: nat, value: nat) {
    && o + MOVABS_SIZE <= |b|
    && (var w := b[o..o + MOVABS_SIZE]; IsMovabs(w) && MovabsRegister(w) == 11 && MovabsValue(w) == value)
  }

  /** b is the template, but for the two places: one holds this address, the other that of intercept_wrapper. */
  ghost predicate IsCopy(b: seq<Byte>, g: Generator, address: nat) {
    && |b| == |g.template| && LoadsR11(b, g.descAt, address) && LoadsR11(b, g.level1At, g.level1)
    && forall x :: 0 <= x < |b| ==>
        || b[x] == g.template[x]
        || g.descAt <= x < g.descAt + MOVABS_SIZE || g.level1At <= x < g.level1At + MOVABS_SIZE
  }

  lemma SplicedLoads(b: seq<Byte>, o: nat, value: nat)
    requires o + MOVABS_SIZE <= |b| && value < TWO_64
    ensures LoadsR11(Splice(b, o, MovabsBytes(value, 11)), o, value)
  {
    hide MovabsBytes, IsMovabs, MovabsRegister, MovabsValue;
    var w := MovabsBytes(value, 11);
    assert Splice(b, o, w)[o..o + MOVABS_SIZE] == w == w[..10];
    MovabsRoundTrip(value, 11, w);
  }

  lemma SplicedElsewhere(b: seq<Byte>, o: nat, m: seq<Byte>, o': nat, value: nat)
    requires o + |m| <= |b| && LoadsR11(b, o', value) && (o + |m| <= o' || o' + MOVABS_SIZE <= o)
    ensures LoadsR11(Splice(b, o, m), o', value)
  {
    hide IsMovabs, MovabsRegister, MovabsValue;
    assert Splice(b, o, m)[o'..o' + MOVABS_SIZE] == b[o'..o' + MOVABS_SIZE];
  }

  /** The processor finds both addresses in the copy: that of patch i, and that of intercept_wrapper. */
  lemma InstanceReadsBack(g: Generator, i: nat)
    requires ValidGenerator(g)
    ensures IsCopy(Instance(g, i), g, DescAddress(g, i))
  {
    hide MovabsBytes, LoadsR11, DescAddress;
    var first := Splice(g.template, g.descAt, MovabsBytes(DescAddress(g, i), 11));
    SplicedLoads(g.template, g.descAt, DescAddress(g, i));
    SplicedElsewhere(first, g.level1At, MovabsBytes(g.level1, 11), g.descAt, DescAddress(g, i));
    SplicedLoads(first, g.level1At, g.level1);
  }

  /** The templates of two patches hold different addresses, as long as the array fits the address space. */
  lemma DescriptionsDiffer(g: Generator, i: nat, j: nat)
    requires i < j && 0 < g.itemSize && g.items + j * g.itemSize < TWO_64
    ensures DescAddress(g, i) == g.items + i * g.itemSize < g.items + j * g.itemSize == DescAddress(g, j)
  {
    assert (j - i) * g.itemSize > 0;
    assert i * g.itemSize + (j - i) * g.itemSize == j * g.itemSize;
  }

  /** The instruction can be relocated out of the text bytes, which start at address `start`. */
  ghost predicate Readable(ins: Ins, text: seq<Byte>, start: int) {
    start <= ins.address && ins.address + ins.length <= start + |text| && ins.argRegisterBits < 16
  }

  /** relocate_instruction */
  function Relocated(ins: Ins, text: seq<Byte>, start: int): (b: seq<Byte>)
    requires Readable(ins, text, start)
    ensures |b| == RelocatedSize(ins)
  {
    if ins.IsLeaRip() then MovabsBytes(ins.opr.target % TWO_64, ins.argRegisterBits)
    else text[ins.address - start..ins.address - start + ins.length]
  }

  /** Every instruction that the plan of p moves is readable. */
  ghost predicate ReadablePlan(p: Patch, text: seq<Byte>, start: int) {
    p.form.ViaWindow? ==>
      && (p.form.usesPrev ==> Readable(p.prev, text, start))
      && (p.form.usesPrev && p.form.usesPrev2 ==> Readable(p.prev2, text, start))
      && (p.form.usesNext ==> Readable(p.next, text, start))
  }

  function BytesBefore(p: Patch, text: seq<Byte>, start: int): (b: seq<Byte>)
    requires ReadablePlan(p, text, start)
    ensures |b| == SizeBefore(p)
  {
    if p.form.ViaWindow? && p.form.usesPrev then
      (if p.form.usesPrev2 then Relocated(p.prev2, text, start) else []) + Relocated(p.prev, text, start)
    else []
  }

  function BytesAfter(p: Patch, text: seq<Byte>, start: int): (b: seq<Byte>)
    requires ReadablePlan(p, text, start)
    ensures |b| == SizeAfter(p)
  {
    if p.form.ViaWindow? && p.form.usesNext then Relocated(p.next, text, start) else []
  }

  /** The whole wrapper of patch number i. */
  function WrapperBytes(g: Generator, p: Patch, i: nat, text: seq<Byte>, start: int): (b: seq<Byte>)
    requires ValidGenerator(g) && ReadablePlan(p, text, start)
    ensures |b| == WrapperSize(p, |g.template|)
  {
    BytesBefore(p, text, start) + Instance(g, i) + BytesAfter(p, text, start) + AbsoluteJumpBytes(p.ret)
  }

  // ----- writing it -----

  lemma OverwritesNothing(s: seq<Byte>, i: int)
    requires 0 <= i <= |s|
    ensures Overwrites(s, s, i, [])
  {
  }

  lemma OverwritesAppend(s0: seq<Byte>, s1: seq<Byte>, s2: seq<Byte>, i: int, b: seq<Byte>, c: seq<Byte>)
    requires Overwrites(s0, s1, i, b) && Overwrites(s1, s2, i + |b|, c)
    ensures Overwrites(s0, s2, i, b + c)
  {
    forall j | 0 <= j < |b + c|
      ensures s2[i + j] == (b + c)[j]
    {
      if j >= |b| {
        assert s2[i + |b| + (j - |b|)] == c[j - |b|];
      }
    }
  }

  lemma OverwritesInside(s0: seq<Byte>, s1: seq<Byte>, s2: seq<Byte>, i: int, b: seq<Byte>, o: nat, m: seq<Byte>)
    requires o + |m| <= |b|
    requires Overwrites(s0, s1, i, b) && Overwrites(s1, s2, i + o, m)
    ensures Overwrites(s0, s2, i, Splice(b, o, m))
  {
    var r := Splice(b, o, m);
    forall j | 0 <= j < |r|
      ensures s2[i + j] == r[j]
    {
      if o <= j < o + |m| {
        assert s2[i + o + (j - o)] == m[j - o];
      } else {
        assert s2[i + j] == s1[i + j] == b[j];
      }
    }
  }

  /** relocate_instruction, into the wrapper space mapped at `base`. */
  method RelocateInstruction(space: array<Byte>, base: int, dst: int, ins: Ins, text: array<Byte>, start: int)
    returns (next: int)
    requires Readable(ins, text[..], start)
    requires base <= dst && dst + RelocatedSize(ins) <= base + space.Length && space != text
    modifies space
    ensures Overwrites(old(space[..]), space[..], dst - base, Relocated(ins, text[..], start))
    ensures next == dst + RelocatedSize(ins)
  {
    if ins.IsLeaRip() {
      next := CreateMovabs(space, base, dst, ins.opr.target % TWO_64, ins.argRegisterBits);
    } else {
      var i := ins.address - start;
      assert text[..][i..i + ins.length] == text[i..i + ins.length];
      next := Emit(space, base, dst, text[i..i + ins.length]);
    }
  }

  /** The part of create_wrapper that copies the preceding instructions. */
  method EmitBefore(space: array<Byte>, base: int, dst: int, p: Patch, text: array<Byte>, start: int)
    returns (next: int)
    requires ReadablePlan(p, text[..], start) && space != text
    requires base <= dst && dst + SizeBefore(p) <= base + space.Length
    modifies space
    ensures Overwrites(old(space[..]), space[..], dst - base, BytesBefore(p, text[..], start))
    ensures next == dst + SizeBefore(p)
  {
    hide Relocated, Overwrites;
    next := dst;
    ghost var s0 := space[..];
    OverwritesNothing(s0, dst - base);
    if p.form.ViaWindow? && p.form.usesPrev {
      if p.form.usesPrev2 {
        next := RelocateInstruction(space, base, next, p.prev2, text, start);
      }
      ghost var s1 := space[..];
      next := RelocateInstruction(space, base, next, p.prev, text, start);
      OverwritesAppend(s0, s1, space[..], dst - base,
                       if p.form.usesPrev2 then Relocated(p.prev2, text[..], start) else [],
                       Relocated(p.prev, text[..], start));
    }
  }

  /** The part of create_wrapper that copies the template and fills in its two addresses. */
  method EmitTemplate(space: array<Byte>, base: int, dst: int, g: Generator, i: nat) returns (next: int)
    requires ValidGenerator(g)
    requires base <= dst && dst + |g.template| <= base + space.Length
    modifies space
    ensures Overwrites(old(space[..]), space[..], dst - base, Instance(g, i))
    ensures next == dst + |g.template|
    ensures IsCopy(space[dst - base..next - base], g, (g.items + i * g.itemSize) % TWO_64)
  {
    hide Overwrites, MovabsBytes, LoadsR11, Instance;
    ghost var s0 := space[..];
    next := Emit(space, base, dst, g.template);
    ghost var s1 := space[..];
    var _ := CreateMovabs(space, base, dst + g.descAt, DescAddress(g, i), 11);
    ghost var s2 := space[..];
    OverwritesInside(s0, s1, s2, dst - base, g.template, g.descAt, MovabsBytes(DescAddress(g, i), 11));
    var _ := CreateMovabs(space, base, dst + g.level1At, g.level1, 11);
    OverwritesInside(s0, s2, space[..], dst - base,
                     Splice(g.template, g.descAt, MovabsBytes(DescAddress(g, i), 11)),
                     g.level1At, MovabsBytes(g.level1, 11));
    CopiedInstance(s0, space[..], dst - base, g, i);
  }

  lemma CopiedInstance(before: seq<Byte>, after: seq<Byte>, o: nat, g: Generator, i: nat)
    requires ValidGenerator(g) && Overwrites(before, after, o, Splice(
               Splice(g.template, g.descAt, MovabsBytes(DescAddress(g, i), 11)), g.level1At, MovabsBytes(g.level1, 11)))
    ensures Overwrites(before, after, o, Instance(g, i)) && o + |g.template| <= |after|
    ensures IsCopy(after[o..o + |g.template|], g, (g.items + i * g.itemSize) % TWO_64)
  {
    assert Overwrites(before, after, o, Instance(g, i));
    hide Instance, LoadsR11, MovabsBytes;
    InstanceReadsBack(g, i);
    assert after[o..o + |g.template|] == Instance(g, i);
  }

  /** create_wrapper */
  method CreateWrapper(space: array<Byte>, base: int, dst: int, g: Generator, p: Patch, i: nat, text: array<Byte>,
                       start: int)
    returns (next: int)
    requires ValidGenerator(g) && ReadablePlan(p, text[..], start) && space != text
    requires base <= dst && dst + WrapperSize(p, |g.template|) <= base + space.Length
    modifies space
    ensures Overwrites(old(space[..]), space[..], dst - base, WrapperBytes(g, p, i, text[..], start))
    ensures next == dst + WrapperSize(p, |g.template|)
  {
    hide Relocated, Instance, AbsoluteJumpBytes, Overwrites;
    ghost var s0, o := space[..], dst - base;
    ghost var before, instance := BytesBefore(p, text[..], start), Instance(g, i);
    next := EmitBefore(space, base, dst, p, text, start);
    ghost var s1 := space[..];
    next := EmitTemplate(space, base, next, g, i);
    ghost var s2 := space[..];
    OverwritesAppend(s0, s1, s2, o, before, instance);
    OverwritesNothing(s2, next - base);
    if p.form.ViaWindow? && p.form.usesNext {
      next := RelocateInstruction(space, base, next, p.next, text, start);
    }
    ghost var s3 := space[..];
    OverwritesAppend(s0, s2, s3, o, before + instance, BytesAfter(p, text[..], start));
    next := CreateAbsoluteJump(space, base, next, p.ret);
    OverwritesAppend(s0, s3, space[..], o, before + instance + BytesAfter(p, text[..], start),
                     AbsoluteJumpBytes(p.ret));
  }
}
