/**
 * Inline injection (Assembly.hpp): the RegPack a callback receives, and the
 * bytes MakeInline writes at the patched site.
 *
 * The trampoline that builds a RegPack (PUSHAD, PUSHFD, call, POPFD, POPAD) is
 * machine code and is not modelled; what is modelled is the layout it relies on:
 * PUSHAD's frame read upward from the stack pointer is exactly the slot order of
 * RegName. The trampoline's address is a parameter (stub) of the MakeInline methods.
 */
module Assembly {
  import opened Machine
  import opened Hook

  /** m_registers slots; the declaration order is the slot number. */
  datatype RegName = Edi | Esi | Ebp | Esp | Ebx | Edx | Ecx | Eax {
    function Slot(): (i: nat)
      ensures i < 8
    {
      match this
      case Edi => 0
      case Esi => 1
      case Ebp => 2
      case Esp => 3
      case Ebx => 4
      case Edx => 5
      case Ecx => 6
      case Eax => 7
    }
  }

  /** Bit positions of the EFLAGS flags (Intel SDM Vol. 1, section 3.4.3). */
  datatype EfFlag = Carry | Parity | Adjust | Zero | Sign | Direction | Overflow {
    function Position(): (bit: nat)
      ensures bit < 32
    {
      match this
      case Carry => 0
      case Parity => 2
      case Adjust => 4
      case Zero => 6
      case Sign => 7
      case Direction => 10
      case Overflow => 11
    }
  }

  /** No two flags share a bit. */
  lemma FlagPositionsDistinct()
    ensures forall f: EfFlag, g: EfFlag :: f.Position() == g.Position() ==> f == g
  {
  }

  /** The order in which PUSHAD pushes the general registers. */
  const PUSHAD_ORDER: seq<RegName> := [Eax, Ecx, Edx, Ebx, Esp, Ebp, Esi, Edi]

  /**
   * The stack, lowest address first, after pushing the registers of order onto
   * stack one by one: each push lands just below the previous one.
   */
  function PushAll(stack: seq<u32>, order: seq<RegName>, value: RegName -> u32): (r: seq<u32>)
    ensures |r| == |stack| + |order|
    decreases order
  {
    if order == [] then stack else PushAll([value(order[0])] + stack, order[1..], value)
  }

  /** The last register pushed is on top, then the one before, ...; the old stack lies above them. */
  lemma {:induction false} PushAllPrepends(stack: seq<u32>, order: seq<RegName>, value: RegName -> u32)
    ensures forall k :: 0 <= k < |order| ==> PushAll(stack, order, value)[k] == value(order[|order| - 1 - k])
    ensures PushAll(stack, order, value)[|order|..] == stack
    decreases order
  {
    if order != [] {
      PushAllPrepends([value(order[0])] + stack, order[1..], value);
    }
  }

  /** The eight words PUSHAD leaves, read upward from the new stack pointer. */
  function PushadFrame(value: RegName -> u32): (frame: seq<u32>)
    ensures |frame| == 8
  {
    PushAll([], PUSHAD_ORDER, value)
  }

  /** Slot r.Slot() of the PUSHAD frame holds register r: the enum order is the reverse push order. */
  lemma PushadLayout(value: RegName -> u32)
    ensures forall r: RegName :: PushadFrame(value)[r.Slot()] == value(r)
  {
    PushAllPrepends([], PUSHAD_ORDER, value);
  }

  class RegPack {
    /** PUSHFD's copy of EFLAGS. */
    var eflags: bv32
    /** PUSHAD's frame. */
    const registers: array<u32>

    ghost predicate Valid()
      reads this
    {
      registers.Length == 8
    }

    /**
     * The pack the trampoline hands to the callback: the flags and the frame of
     * the register values at the patched site; every named accessor then yields
     * the register it names.
     */
    constructor (flags: bv32, value: RegName -> u32)
      ensures Valid() && fresh(registers)
      ensures eflags == flags
      ensures forall r: RegName :: Reg(r) == value(r)
    {
      eflags := flags;
      var frame := PushadFrame(value);
      registers := new u32[8](i requires 0 <= i < 8 => frame[i]);
      new;
      PushadLayout(value);
    }

    /** operator[]: slot i. */
    function At(i: nat): u32
      reads this, registers
      requires Valid() && i < 8
    {
      registers[i]
    }

    /** edi() ... eax(): the named register's slot. */
    function Reg(r: RegName): u32
      reads this, registers
      requires Valid()
    {
      At(r.Slot())
    }

    /** Assigning through operator[]: slot i, and so the register named by it, now holds v. */
    method SetAt(i: nat, v: u32)
      requires Valid() && i < 8
      modifies registers
      ensures registers[..] == old(registers[..])[i := v]
      ensures forall r: RegName :: Reg(r) == if r.Slot() == i then v else old(Reg(r))
    {
      registers[i] := v;
    }

    /** Flag<bit>(): whether bit `bit` of the saved EFLAGS is set. */
    function Flag(bit: nat): (on: bool)
      reads this
      requires bit < 32
      ensures on <==> (eflags >> bit) & 1 == 1
    {
      eflags & (1 << bit) != 0
    }

    /** jnb (jump if not below) is taken iff the carry flag, bit 0, is clear. */
    function Jnb(): (jump: bool)
      reads this
      ensures jump <==> eflags & 1 == 0
    {
      Flag(Carry.Position()) == false
    }
  }

  /** Setting one flag in the saved EFLAGS leaves every other flag as it was. */
  lemma FlagsIndependent(p: RegPack, q: RegPack, f: EfFlag, g: EfFlag)
    requires q.eflags == p.eflags | (1 << f.Position())
    ensures q.Flag(g.Position()) <==> f == g || p.Flag(g.Position())
  {
    FlagPositionsDistinct();
  }

  /** The memory MakeInline(at, end) leaves: [at, end) NOPed, then a call to stub at at. */
  function InlinePatch(m: Memory, at: u32, end: u32, stub: u32): Memory
  {
    BranchPatch(Store(m, at, seq(Offset(end, at), _ => NOP)), at, CALL_REL32, stub, 4)
  }

  /** MakeInline(at): a near call from at to the trampoline. */
  method MakeInline(mem: array<byte>, at: u32, stub: u32)
    requires mem.Length == SPACE
    modifies mem
    ensures mem[..] == BranchPatch(old(mem[..]), at, CALL_REL32, stub, 4)
    ensures stub != 0 ==> GetBranchDestination(mem[..], at) == stub
  {
    var _ := MakeCall(mem, at, stub);
  }

  /** MakeInline(at, end): NOP the range [at, end), then MakeInline(at). */
  method MakeInlineRange(mem: array<byte>, at: u32, end: u32, stub: u32)
    requires mem.Length == SPACE
    modifies mem
    ensures mem[..] == InlinePatch(old(mem[..]), at, end, stub)
  {
    MakeRangedNop(mem, at, end);
    MakeInline(mem, at, stub);
  }

  /**
   * The layout MakeInline(at, end) leaves when the range holds a call: E8 at at,
   * the rel32 to stub in the next four bytes, NOPs up to end, and every byte
   * outside [at, end) unchanged.
   */
  lemma InlineLayout(m: Memory, at: u32, end: u32, stub: u32)
    requires Offset(end, at) >= 5
    ensures forall i :: 0 <= i < SPACE && Offset(i, at) >= Offset(end, at) ==> InlinePatch(m, at, end, stub)[i] == m[i]
    ensures forall i :: 0 <= i < SPACE && 5 <= Offset(i, at) < Offset(end, at) ==> InlinePatch(m, at, end, stub)[i] == NOP
    ensures InlinePatch(m, at, end, stub)[at] == CALL_REL32
    ensures stub != 0 ==> GetBranchDestination(InlinePatch(m, at, end, stub), at) == stub
  {
    var n := Offset(end, at);
    var m1 := Store(m, at, seq(n, _ => NOP));
    var r := InlinePatch(m, at, end, stub);
    forall i | 0 <= i < SPACE && Offset(i, at) >= 5
      ensures r[i] == m1[i]
    {
      OffsetOfNext(i, at, 1);
    }
    OffsetOfNext(at, at, 1);
    if stub != 0 {
      FitsRel32(Wrap(at + 1), stub);
      BranchRoundTrip(m1, at, CALL_REL32, stub, 4);
    }
  }

  /**
   * MakeInline<at>: the range is [at, at + 5), exactly one near call, so the
   * NOPs are all overwritten and the result is the call alone.
   */
  method MakeInlineAt(mem: array<byte>, at: u32, stub: u32)
    requires mem.Length == SPACE
    modifies mem
    ensures mem[..] == InlinePatch(old(mem[..]), at, Wrap(at + 5), stub)
    ensures stub != 0 ==> mem[..] == BranchPatch(old(mem[..]), at, CALL_REL32, stub, 4)
  {
    ghost var m0: Memory := mem[..];
    MakeInlineRange(mem, at, Wrap(at + 5), stub);
    if stub != 0 {
      InlineAtIsCall(m0, at, stub);
    }
  }

  /** With a non-null stub, NOPing the five bytes of the call first makes no difference. */
  lemma InlineAtIsCall(m: Memory, at: u32, stub: u32)
    requires stub != 0
    ensures InlinePatch(m, at, Wrap(at + 5), stub) == BranchPatch(m, at, CALL_REL32, stub, 4)
  {
    OffsetOfShift(at, 5);
    var lhs := InlinePatch(m, at, Wrap(at + 5), stub);
    var rhs := BranchPatch(m, at, CALL_REL32, stub, 4);
    forall i | 0 <= i < SPACE
      ensures lhs[i] == rhs[i]
    {
      OffsetOfNext(i, at, 1);
    }
  }
}
