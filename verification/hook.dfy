/**
 * The patch primitives of Hook.hpp, over the process's whole address space held
 * in an array of 2^32 bytes. Every in-place operation is specified by the new
 * memory it leaves, written with Machine.Store: these bytes change, no other does.
 *
 * Unprotecting and re-protecting pages around each write (ScopedUnprotect) is
 * an operating-system call and is not part of this model.
 */
module Hook {
  import opened Machine

  const CALL_REL32: byte := 0xE8
  const JMP_REL32: byte := 0xE9
  const JMP_REL8: byte := 0xEB
  /** Opcode FF with ModRM 15 (/2, disp32) is an indirect CALL, with ModRM 25 (/4, disp32) an indirect JMP. */
  const GROUP5: byte := 0xFF
  const CALL_INDIRECT: byte := 0x15
  const JMP_INDIRECT: byte := 0x25
  const NOP: byte := 0x90
  const RET: byte := 0xC3
  const RET_IMM16: byte := 0xC2
  const MOV_AL_IMM8: byte := 0xB0

  /** The 4-byte pointer stored at addr + i (Read<void*>). */
  function PointerAt(m: Memory, addr: u32, i: int): u32
  {
    Pow256Values();
    ReadU(m, Wrap(addr + i), 4)
  }

  /** Read<T> of what Write<T> stored gives the stored value back. */
  lemma ReadAfterStore(m: Memory, a: u32, v: nat, w: nat)
    requires v < Pow256(w) && w <= SPACE
    ensures ReadU(Store(m, a, ToLE(v, w)), a, w) == v
  {
    StoreLoad(m, a, ToLE(v, w));
    FromToLE(v, w);
  }

  /** memcpy: the bytes of src land at addr, addr + 1, ... */
  method MemCpy(mem: array<byte>, addr: u32, src: seq<byte>)
    requires mem.Length == SPACE && |src| < SPACE
    modifies mem
    ensures mem[..] == Store(old(mem[..]), addr, src)
  {
    ghost var before: Memory := mem[..];
    forall i | 0 <= i < SPACE && Offset(i, addr) < |src| {
      mem[i] := src[Offset(i, addr)];
    }
    assert mem[..] == Store(before, addr, src);
  }

  /** Write<T>: stores the w-byte value, skipping the store when it is already there. */
  method Write(mem: array<byte>, addr: u32, w: nat, value: nat)
    requires mem.Length == SPACE && w < SPACE && value < Pow256(w)
    modifies mem
    ensures mem[..] == Store(old(mem[..]), addr, ToLE(value, w))
    ensures ReadU(old(mem[..]), addr, w) == value ==> mem[..] == old(mem[..])
    ensures ReadU(mem[..], addr, w) == value
  {
    if ReadU(mem[..], addr, w) != value {
      MemCpy(mem, addr, ToLE(value, w));
    } else {
      ToFromLE(Load(mem[..], addr, w));
      StoreSame(mem[..], addr, w);
    }
    ReadAfterStore(old(mem[..]), addr, value, w);
  }

  /** memset: size copies of the low byte of value (converted to unsigned char). */
  method Fill(mem: array<byte>, addr: u32, value: int, size: u32)
    requires mem.Length == SPACE && -0x8000_0000 <= value < 0x8000_0000
    modifies mem
    ensures mem[..] == Store(old(mem[..]), addr, seq(size, _ => value % 0x100))
    ensures size == 0 ==> mem[..] == old(mem[..])
  {
    MemCpy(mem, addr, seq(size, _ => value % 0x100));
    StoreEmpty(old(mem[..]), addr);
    assert size == 0 ==> seq(size, _ => value % 0x100) == [];
  }

  method ZeroMem(mem: array<byte>, at: u32, count: u32)
    requires mem.Length == SPACE
    modifies mem
    ensures mem[..] == Store(old(mem[..]), at, seq(count, _ => 0))
  {
    Fill(mem, at, 0, count);
  }

  method MakeNop(mem: array<byte>, at: u32, count: u32)
    requires mem.Length == SPACE
    modifies mem
    ensures mem[..] == Store(old(mem[..]), at, seq(count, _ => NOP))
  {
    Fill(mem, at, NOP, count);
  }

  /** NOPs [at, until): the size is until - at as a size_t, so it wraps when until < at. */
  method MakeRangedNop(mem: array<byte>, at: u32, until: u32)
    requires mem.Length == SPACE
    modifies mem
    ensures mem[..] == Store(old(mem[..]), at, seq(Offset(until, at), _ => NOP))
  {
    MakeNop(mem, at, Offset(until, at));
  }

  /** C3: RET. */
  method MakeRet(mem: array<byte>, at: u32)
    requires mem.Length == SPACE
    modifies mem
    ensures mem[..] == Store(old(mem[..]), at, [RET])
  {
    Write(mem, at, 1, RET);
  }

  /** C2 iw: RET that also pops pop bytes of arguments. */
  method MakeRetPop(mem: array<byte>, at: u32, pop: nat)
    requires mem.Length == SPACE && pop < 0x1_0000
    modifies mem
    ensures mem[..] == Store(old(mem[..]), at, [RET_IMM16, pop % 0x100, pop / 0x100])
  {
    ghost var m0: Memory := mem[..];
    Write(mem, at, 1, RET_IMM16);
    Pow256Values();
    Write(mem, Wrap(at + 1), 2, pop);
    LittleEndian16(pop);
    StoreAppend(m0, at, [RET_IMM16], [pop % 0x100, pop / 0x100]);
  }

  lemma LittleEndian16(v: nat)
    requires v < 0x1_0000
    ensures Pow256(2) == 0x1_0000 && ToLE(v, 2) == [v % 0x100, v / 0x100]
  {
    Pow256Values();
    assert ToLE(v / 0x100 / 0x100, 0) == [];
  }

  /** Three back-to-back stores, a byte, a byte and the rest, are one store of all of them. */
  lemma StoreThree(m: Memory, at: u32, b0: byte, b1: byte, rest: seq<byte>)
    requires |rest| <= 3
    ensures Store(Store(Store(m, at, [b0]), Wrap(at + 1), [b1]), Wrap(Wrap(at + 1) + 1), rest)
         == Store(m, at, [b0, b1] + rest)
  {
    StoreAppend(m, at, [b0], [b1]);
    assert [b0] + [b1] == [b0, b1];
    WrapAdd(at + 1, 1);
    StoreAppend(m, at, [b0, b1], rest);
  }

  /** B0 ib C2 04 00: MOV AL, ret then RET 4. */
  method MakeRETEx(mem: array<byte>, at: u32, ret: byte)
    requires mem.Length == SPACE
    modifies mem
    ensures mem[..] == Store(old(mem[..]), at, [MOV_AL_IMM8, ret, RET_IMM16, 0x04, 0x00])
  {
    ghost var m0: Memory := mem[..];
    Write(mem, at, 1, MOV_AL_IMM8);
    ghost var m1: Memory := mem[..];
    Write(mem, Wrap(at + 1), 1, ret);
    ghost var m2: Memory := mem[..];
    MakeRetPop(mem, Wrap(Wrap(at + 1) + 1), 4);
    StubSteps(m0, m1, m2, mem[..], at, MOV_AL_IMM8, ret, [RET_IMM16, 4 % 0x100, 4 / 0x100]);
  }

  /** The three writes of a stub, byte, byte and tail, add up to one store of the whole stub. */
  lemma StubSteps(m0: Memory, m1: Memory, m2: Memory, m3: Memory, at: u32, b0: byte, b1: byte, rest: seq<byte>)
    requires |rest| <= 3
    requires m1 == Store(m0, at, ToLE(b0, 1))
    requires m2 == Store(m1, Wrap(at + 1), ToLE(b1, 1))
    requires m3 == Store(m2, Wrap(Wrap(at + 1) + 1), rest)
    ensures m3 == Store(m0, at, [b0, b1] + rest)
  {
    assert ToLE(b0, 1) == [b0] && ToLE(b1, 1) == [b1];
    StoreThree(m0, at, b0, b1, rest);
  }

  /** 33 C0 C3: XOR EAX, EAX then RET, so the patched function returns 0. */
  method MakeRet0(mem: array<byte>, at: u32)
    requires mem.Length == SPACE
    modifies mem
    ensures mem[..] == Store(old(mem[..]), at, [0x33, 0xC0, RET])
  {
    ghost var m0: Memory := mem[..];
    Write(mem, at, 1, 0x33);
    ghost var m1: Memory := mem[..];
    Write(mem, Wrap(at + 1), 1, 0xC0);
    ghost var m2: Memory := mem[..];
    MakeRet(mem, Wrap(Wrap(at + 1) + 1));
    StubSteps(m0, m1, m2, mem[..], at, 0x33, 0xC0, [RET]);
  }

  /** The target of a displacement relValue counted from the end of the instruction. */
  function GetAbsoluteOffset(relValue: u32, endOfInstruction: u32): (r: u32)
    ensures Offset(r, endOfInstruction) == relValue
  {
    OffsetOfShift(endOfInstruction, relValue);
    Wrap(endOfInstruction + relValue)
  }

  /** The displacement from the end of the instruction to absValue, as a uint32_t. */
  function GetRelativeOffset(absValue: u32, endOfInstruction: u32): (r: u32)
    ensures GetAbsoluteOffset(r, endOfInstruction) == absValue
  {
    ShiftOfOffset(absValue, endOfInstruction);
    Offset(absValue, endOfInstruction)
  }

  predicate IsDisplacementWidth(w: nat)
  {
    w == 1 || w == 2 || w == 4
  }

  /**
   * Decodes the signed w-byte displacement at at, relative to the end of the
   * field (at + w); a width other than 1, 2 or 4 gives null.
   */
  function ReadRelativeOffset(m: Memory, at: u32, w: nat): (r: u32)
    ensures IsDisplacementWidth(w) ==> Offset(r, Wrap(at + w)) == Wrap(Signed(ReadU(m, at, w), w))
    ensures !IsDisplacementWidth(w) ==> r == 0
  {
    if IsDisplacementWidth(w) then GetAbsoluteOffset(Wrap(Signed(ReadU(m, at, w), w)), Wrap(at + w))
    else 0
  }

  /** The memory MakeRelativeOffset leaves: the displacement truncated to w bytes, stored at at. */
  function PatchRelative(m: Memory, at: u32, dest: u32, w: nat): Memory
  {
    if IsDisplacementWidth(w) then Store(m, at, ToLE(GetRelativeOffset(dest, Wrap(at + w)) % Pow256(w), w))
    else m
  }

  method MakeRelativeOffset(mem: array<byte>, at: u32, dest: u32, w: nat)
    requires mem.Length == SPACE
    modifies mem
    ensures mem[..] == PatchRelative(old(mem[..]), at, dest, w)
    ensures !IsDisplacementWidth(w) ==> mem[..] == old(mem[..])
  {
    if IsDisplacementWidth(w) {
      Write(mem, at, w, GetRelativeOffset(dest, Wrap(at + w)) % Pow256(w));
    }
  }

  /** The displacement to dest fits in w signed bytes. */
  predicate Fits(at: u32, dest: u32, w: nat)
  {
    Pow256Values();
    var s := Signed(GetRelativeOffset(dest, Wrap(at + w)), 4);
    -(Pow256(w) / 2) <= s < Pow256(w) / 2
  }

  /** Every 32-bit displacement fits in a rel32 field. */
  lemma FitsRel32(at: u32, dest: u32)
    ensures Fits(at, dest, 4)
  {
    Pow256Values();
  }

  /** Truncating a displacement that fits to w bytes and sign-extending it back loses nothing. */
  lemma TruncateSigned(u: u32, w: nat)
    requires IsDisplacementWidth(w)
    requires Pow256(4) == SPACE && -(Pow256(w) / 2) <= Signed(u, 4) < Pow256(w) / 2
    ensures Signed(u % Pow256(w), w) == Signed(u, 4)
  {
    Pow256Values();
    var p := Pow256(w);
    var s := Signed(u, 4);
    var q := if w == 1 then 0x100_0000 else if w == 2 then 0x1_0000 else 1;
    assert q * p == SPACE;
    if s >= 0 {
      ModUnique(u, p, 0, u);
    } else {
      ModUnique(u, p, q - 1, s + p);
    }
  }

  /** A displacement that fits, truncated to w bytes and decoded again, reaches the same target. */
  lemma DisplacementRoundTrip(u: u32, w: nat, eoi: u32)
    requires IsDisplacementWidth(w)
    requires Pow256(4) == SPACE && -(Pow256(w) / 2) <= Signed(u, 4) < Pow256(w) / 2
    ensures GetAbsoluteOffset(Wrap(Signed(u % Pow256(w), w)), eoi) == GetAbsoluteOffset(u, eoi)
  {
    TruncateSigned(u, w);
    var s := Signed(u, 4);
    WrapCongruent(s, u, if s == u then 0 else -1);
    WrapIdentity(u);
    assert Wrap(Signed(u % Pow256(w), w)) == u;
  }

  /** MakeRelativeOffset then ReadRelativeOffset gives dest back, whenever the displacement fits. */
  lemma RelativeRoundTrip(m: Memory, at: u32, dest: u32, w: nat)
    requires IsDisplacementWidth(w) && Fits(at, dest, w)
    ensures ReadRelativeOffset(PatchRelative(m, at, dest, w), at, w) == dest
  {
    Pow256Values();
    var eoi := Wrap(at + w);
    var u := GetRelativeOffset(dest, eoi);
    var x := u % Pow256(w);
    ReadAfterStore(m, at, x, w);
    DisplacementRoundTrip(u, w, eoi);
  }

  /**
   * The branch target of the instruction at at, for the forms the library
   * writes: E8 / E9 (rel32 at at + 1), EB (rel8 at at + 1), and FF 15 / FF 25
   * (the 32-bit value stored at the absolute address held in at + 2 .. at + 5).
   * Any other instruction gives null.
   */
  function GetBranchDestination(m: Memory, at: u32): u32
  {
    Pow256Values();
    var op := m[at];
    if op == CALL_REL32 || op == JMP_REL32 then ReadRelativeOffset(m, Wrap(at + 1), 4)
    else if op == JMP_REL8 then ReadRelativeOffset(m, Wrap(at + 1), 1)
    else if op == GROUP5 && (m[Wrap(at + 1)] == CALL_INDIRECT || m[Wrap(at + 1)] == JMP_INDIRECT) then
      ReadU(m, ReadU(m, Wrap(at + 2), 4), 4)
    else 0
  }

  /**
   * What GetBranchDestination decodes: a rel32 counted from the end of the
   * five-byte E8 / E9 instruction, a rel8 counted from the end of the two-byte
   * EB instruction, and null for every opcode (or FF form) it does not know.
   */
  lemma BranchDecoding(m: Memory, at: u32)
    ensures Pow256(4) == SPACE
    ensures (m[at] == CALL_REL32 || m[at] == JMP_REL32) ==>
              Offset(GetBranchDestination(m, at), Wrap(at + 5)) == Wrap(Signed(ReadU(m, Wrap(at + 1), 4), 4))
    ensures m[at] == JMP_REL8 ==>
              Offset(GetBranchDestination(m, at), Wrap(at + 2)) == Wrap(Signed(ReadU(m, Wrap(at + 1), 1), 1))
    ensures m[at] !in {CALL_REL32, JMP_REL32, JMP_REL8, GROUP5} ==> GetBranchDestination(m, at) == 0
    ensures m[at] == GROUP5 && m[Wrap(at + 1)] !in {CALL_INDIRECT, JMP_INDIRECT} ==> GetBranchDestination(m, at) == 0
  {
    Pow256Values();
    WrapAdd(at + 1, 4);
    WrapAdd(at + 1, 1);
  }

  /**
   * FF 15 (call [addr]) and FF 25 (jmp [addr]): the destination is the 32-bit
   * value stored at the address the operand at at + 2 holds.
   */
  lemma IndirectBranchDecoding(m: Memory, at: u32)
    requires m[at] == GROUP5 && m[Wrap(at + 1)] in {CALL_INDIRECT, JMP_INDIRECT}
    ensures ToLE(GetBranchDestination(m, at), 4) == Load(m, PointerAt(m, at, 2), 4)
  {
    ReadUBytes(m, PointerAt(m, at, 2), 4);
  }

  /** The memory MakeJmp / MakeCall / MakeShortJmp leave: the opcode, then the displacement unless dest is null. */
  function BranchPatch(m: Memory, at: u32, op: byte, dest: u32, w: nat): Memory
  {
    var withOpcode := Store(m, at, [op]);
    if dest != 0 then PatchRelative(withOpcode, Wrap(at + 1), dest, w) else withOpcode
  }

  /** A branch written by BranchPatch decodes to its destination. */
  lemma BranchRoundTrip(m: Memory, at: u32, op: byte, dest: u32, w: nat)
    requires ((op == CALL_REL32 || op == JMP_REL32) && w == 4) || (op == JMP_REL8 && w == 1)
    requires dest != 0 && Fits(Wrap(at + 1), dest, w)
    ensures GetBranchDestination(BranchPatch(m, at, op, dest, w), at) == dest
  {
    var withOpcode := Store(m, at, [op]);
    OffsetOfNext(at, at, 1);
    assert BranchPatch(m, at, op, dest, w)[at] == op;
    RelativeRoundTrip(withOpcode, Wrap(at + 1), dest, w);
  }

  /** A branch patched with a null destination keeps the old displacement bytes. */
  lemma NullDestinationKeepsOperand(m: Memory, at: u32, op: byte, w: nat)
    ensures forall i :: 0 <= i < SPACE && i != at ==> BranchPatch(m, at, op, 0, w)[i] == m[i]
  {
    forall i | 0 <= i < SPACE && i != at
      ensures BranchPatch(m, at, op, 0, w)[i] == m[i]
    {
      assert Offset(i, at) != 0;
    }
  }

  /** The writes of PatchBranch: the opcode, then the displacement unless dest is null. */
  method WriteBranch(mem: array<byte>, at: u32, op: byte, dest: u32, w: nat)
    requires mem.Length == SPACE
    modifies mem
    ensures mem[..] == BranchPatch(old(mem[..]), at, op, dest, w)
  {
    ghost var m0: Memory := mem[..];
    Write(mem, at, 1, op);
    assert mem[..] == Store(m0, at, [op]);
    if dest != 0 {
      MakeRelativeOffset(mem, Wrap(at + 1), dest, w);
    }
  }

  method PatchBranch(mem: array<byte>, at: u32, op: byte, dest: u32, w: nat) returns (p: u32)
    requires mem.Length == SPACE
    modifies mem
    ensures p == GetBranchDestination(old(mem[..]), at)
    ensures mem[..] == BranchPatch(old(mem[..]), at, op, dest, w)
  {
    p := GetBranchDestination(mem[..], at);
    WriteBranch(mem, at, op, dest, w);
  }

  /** E9 rel32: returns the old destination; the new one decodes back. */
  method MakeJmp(mem: array<byte>, at: u32, dest: u32) returns (p: u32)
    requires mem.Length == SPACE
    modifies mem
    ensures p == GetBranchDestination(old(mem[..]), at)
    ensures mem[..] == BranchPatch(old(mem[..]), at, JMP_REL32, dest, 4)
    ensures dest != 0 ==> GetBranchDestination(mem[..], at) == dest
  {
    p := PatchBranch(mem, at, JMP_REL32, dest, 4);
    FitsRel32(Wrap(at + 1), dest);
    if dest != 0 {
      BranchRoundTrip(old(mem[..]), at, JMP_REL32, dest, 4);
    }
  }

  /** E8 rel32: returns the old destination; the new one decodes back. */
  method MakeCall(mem: array<byte>, at: u32, dest: u32) returns (p: u32)
    requires mem.Length == SPACE
    modifies mem
    ensures p == GetBranchDestination(old(mem[..]), at)
    ensures mem[..] == BranchPatch(old(mem[..]), at, CALL_REL32, dest, 4)
    ensures dest != 0 ==> GetBranchDestination(mem[..], at) == dest
  {
    p := PatchBranch(mem, at, CALL_REL32, dest, 4);
    FitsRel32(Wrap(at + 1), dest);
    if dest != 0 {
      BranchRoundTrip(old(mem[..]), at, CALL_REL32, dest, 4);
    }
  }

  /** EB rel8: returns the old destination; the new one decodes back when it is within rel8 reach. */
  method MakeShortJmp(mem: array<byte>, at: u32, dest: u32) returns (p: u32)
    requires mem.Length == SPACE
    modifies mem
    ensures p == GetBranchDestination(old(mem[..]), at)
    ensures mem[..] == BranchPatch(old(mem[..]), at, JMP_REL8, dest, 1)
    ensures dest != 0 && Fits(Wrap(at + 1), dest, 1) ==> GetBranchDestination(mem[..], at) == dest
  {
    p := PatchBranch(mem, at, JMP_REL8, dest, 1);
    if dest != 0 && Fits(Wrap(at + 1), dest, 1) {
      BranchRoundTrip(old(mem[..]), at, JMP_REL8, dest, 1);
    }
  }

  predicate InWindow(p: u32, lo: u32, hi: u32)
  {
    lo <= p <= hi
  }

  /** The first offset k < n whose pointer lies in [lo, hi], or -1 if there is none. */
  function FirstHit(m: Memory, addr: u32, lo: u32, hi: u32, n: nat): (k: int)
    ensures -1 <= k < n
    ensures k >= 0 ==> InWindow(PointerAt(m, addr, k), lo, hi)
    ensures forall j :: 0 <= j < n && (k == -1 || j < k) ==> !InWindow(PointerAt(m, addr, j), lo, hi)
  {
    if n == 0 then -1
    else
      var k := FirstHit(m, addr, lo, hi, n - 1);
      if k >= 0 then k
      else if InWindow(PointerAt(m, addr, n - 1), lo, hi) then n - 1
      else -1
  }

  /** A hit at i with none before it is the first hit among any n > i offsets. */
  lemma FirstHitIsFirst(m: Memory, addr: u32, lo: u32, hi: u32, i: nat, n: nat)
    requires i < n && FirstHit(m, addr, lo, hi, i) == -1
    requires InWindow(PointerAt(m, addr, i), lo, hi)
    ensures FirstHit(m, addr, lo, hi, n) == i
  {
    var k := FirstHit(m, addr, lo, hi, n);
    assert k != -1 && !(k < i) && !(i < k);
  }

  /** Moves p from the default image to the replacement one, keeping its distance from the base. */
  function Relocate(p: u32, defaultBase: u32, replacementBase: u32): (r: u32)
    ensures Offset(r, replacementBase) == Offset(p, defaultBase)
  {
    GetAbsoluteOffset(Offset(p, defaultBase), replacementBase)
  }

  /**
   * AdjustPointer: looks at the pointers stored at addr + 0 .. addr + maxSearch - 1
   * and rewrites the first one inside [defaultBase, defaultEnd] to the same
   * place relative to replacementBase, returning the new value; null if none.
   */
  method AdjustPointer(mem: array<byte>, addr: u32, replacementBase: u32, defaultBase: u32, defaultEnd: u32,
                       maxSearch: u32) returns (r: u32)
    requires mem.Length == SPACE
    modifies mem
    ensures var k := FirstHit(old(mem[..]), addr, defaultBase, defaultEnd, maxSearch);
      (k == -1 ==> r == 0 && mem[..] == old(mem[..])) &&
      (k >= 0 ==> r == Relocate(PointerAt(old(mem[..]), addr, k), defaultBase, replacementBase) &&
                  mem[..] == Store(old(mem[..]), Wrap(addr + k), ToLE(r, 4)))
  {
    Pow256Values();
    ghost var m0: Memory := mem[..];
    for i := 0 to maxSearch
      invariant mem[..] == m0
      invariant FirstHit(m0, addr, defaultBase, defaultEnd, i) == -1
    {
      var ptr := PointerAt(mem[..], addr, i);
      if defaultBase <= ptr <= defaultEnd {
        r := Relocate(ptr, defaultBase, replacementBase);
        FirstHitIsFirst(m0, addr, defaultBase, defaultEnd, i, maxSearch);
        Write(mem, Wrap(addr + i), 4, r);
        return;
      }
    }
    return 0;
  }
}
