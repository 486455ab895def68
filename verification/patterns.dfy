/**
 * The Pattern object of Pattern.hpp / Pattern.cpp: a compiled signature, the
 * range it scans, and a memoised match list (matches, matched). Queries trigger
 * at most one scan; Clear forgets it.
 *
 * The process memory a scan reads is passed in as a Memory value. The size of
 * the module's code section, which the source reads from the module's PE header,
 * is passed in as codeSize.
 */
module Patterns {
  import opened Machine
  import opened Signature
  import opened Scanner

  const UINT32_MAX: nat := 0xFFFF_FFFF
  /** The preferred image base of an x86 executable. */
  const IMAGE_BASE: u32 := 0x40_0000

  datatype Option<T> = None | Some(value: T)

  /** A found address; Get(offset) is the address displaced by offset bytes. */
  datatype PatternMatch = PatternMatch(pointer: u32) {
    /** char* plus a ptrdiff_t: 32-bit wrap-around pointer arithmetic. */
    function Get(offset: int): (r: u32)
      requires -0x8000_0000 <= offset < 0x8000_0000
      ensures Offset(r, pointer) == Wrap(offset)
      ensures 0 <= pointer + offset < SPACE ==> r == pointer + offset
    {
      WrapAdd(pointer + offset, -(pointer as int));
      Wrap(pointer + offset)
    }
  }

  /** An executable range [begin, end) (the explicit-range ExecutableMeta). */
  datatype ExecutableMeta = ExecutableMeta(begin: u32, end: u32)

  class Pattern {
    var bytes: seq<byte>
    var mask: seq<char>
    var matches: seq<u32>
    var matched: bool
    /** Shares its storage with the module handle: for a module pattern this is the module base. */
    var rangeStart: u32
    var rangeEnd: u32

    ghost predicate Valid()
      reads this
    {
      WellFormed(bytes, mask)
    }

    /** Pattern(module) + Initialize: a pattern over a module's code section. */
    constructor ForModule(moduleBase: u32, text: string)
      ensures Valid()
      ensures bytes == Run(text).data && mask == Run(text).mask
      ensures rangeStart == moduleBase && rangeEnd == 0
      ensures matches == [] && !matched
    {
      var data, msk := TransformPattern(text);
      RunConsistent(text);
      bytes, mask := data, msk;
      rangeStart, rangeEnd := moduleBase, 0;
      matches, matched := [], false;
    }

    /** Pattern(begin, end) + Initialize: a pattern over an explicit range. */
    constructor ForRange(begin: u32, end: u32, text: string)
      ensures Valid()
      ensures bytes == Run(text).data && mask == Run(text).mask
      ensures rangeStart == begin && rangeEnd == end
      ensures matches == [] && !matched
    {
      var data, msk := TransformPattern(text);
      RunConsistent(text);
      bytes, mask := data, msk;
      rangeStart, rangeEnd := begin, end;
      matches, matched := [], false;
    }

    /** The range a scan covers: the explicit one iff both ends are non-zero, else the module's code. */
    function Executable(codeSize: u32): (r: ExecutableMeta)
      reads this
      ensures (rangeStart != 0 && rangeEnd != 0) ==> r == ExecutableMeta(rangeStart, rangeEnd)
      ensures (rangeStart == 0 || rangeEnd == 0) ==> r.begin == rangeStart && Offset(r.end, r.begin) == codeSize
    {
      if rangeStart != 0 && rangeEnd != 0 then ExecutableMeta(rangeStart, rangeEnd)
      else
        OffsetOfShift(rangeStart, codeSize);
        ExecutableMeta(rangeStart, Wrap(rangeStart + codeSize))
    }

    /** The match list once a scan with this limit has been asked for. */
    function Scanned(mem: Memory, codeSize: u32, maxCount: nat): seq<u32>
      reads this
      requires Valid()
    {
      if matched then matches
      else
        var range := Executable(codeSize);
        matches + Truncate(AllMatches(mem, bytes, mask, range.begin, range.end), |matches|, maxCount)
    }

    /** A no-op once a scan has run; otherwise scans and appends, then marks the pattern matched. */
    method EnsureMatches(mem: Memory, codeSize: u32, maxCount: nat)
      requires Valid()
      modifies this`matches, this`matched
      ensures Valid() && matched
      ensures matches == old(Scanned(mem, codeSize, maxCount))
      ensures old(matched) ==> matches == old(matches)
    {
      if matched {
        return;
      }
      var executable := Executable(codeSize);
      var found := Scan(mem, bytes, mask, executable.begin, executable.end, |matches|, maxCount);
      matches := matches + found;
      matched := true;
    }

    /** Appends offset iff the window there matches; compares left to right. */
    method ConsiderMatch(mem: Memory, offset: u32) returns (ok: bool)
      requires Valid()
      modifies this`matches
      ensures ok == MatchesAt(mem, bytes, mask, offset)
      ensures matches == if ok then old(matches) + [offset] else old(matches)
    {
      for i := 0 to |mask|
        invariant forall k :: 0 <= k < i ==> mask[k] == WILDCARD || bytes[k] == ByteAt(mem, offset, k)
      {
        if mask[i] == WILDCARD {
          continue;
        }
        if bytes[i] != ByteAt(mem, offset, i) {
          return false;
        }
      }
      matches := matches + [offset];
      return true;
    }

    /** Scans with limit expected; ok is the verdict of the source's assert (false aborts the process). */
    method Count(mem: Memory, codeSize: u32, expected: u32) returns (ok: bool)
      requires Valid()
      modifies this`matches, this`matched
      ensures Valid() && matched
      ensures matches == old(Scanned(mem, codeSize, expected))
      ensures ok <==> |matches| == expected
    {
      EnsureMatches(mem, codeSize, expected);
      ok := |matches| == expected;
    }

    /** Count without the assert. */
    method CountHint(mem: Memory, codeSize: u32, expected: u32)
      requires Valid()
      modifies this`matches, this`matched
      ensures Valid() && matched
      ensures matches == old(Scanned(mem, codeSize, expected))
    {
      EnsureMatches(mem, codeSize, expected);
    }

    /** Forgets the cached scan, so the next query rescans. */
    method Clear()
      requires Valid()
      modifies this`matches, this`matched
      ensures Valid()
      ensures matches == [] && !matched
    {
      matches := [];
      matched := false;
    }

    method Size(mem: Memory, codeSize: u32) returns (n: nat)
      requires Valid()
      modifies this`matches, this`matched
      ensures Valid() && matched
      ensures matches == old(Scanned(mem, codeSize, UINT32_MAX))
      ensures n == |matches|
    {
      EnsureMatches(mem, codeSize, UINT32_MAX);
      n := |matches|;
    }

    method Empty(mem: Memory, codeSize: u32) returns (e: bool)
      requires Valid()
      modifies this`matches, this`matched
      ensures Valid() && matched
      ensures matches == old(Scanned(mem, codeSize, UINT32_MAX))
      ensures e <==> matches == []
    {
      var n := Size(mem, codeSize);
      e := n == 0;
    }

    /** The index-th match; the source does not check the index, so callers must keep it below Size(). */
    method Get(mem: Memory, codeSize: u32, index: nat) returns (m: PatternMatch)
      requires Valid()
      requires index < |Scanned(mem, codeSize, UINT32_MAX)|
      modifies this`matches, this`matched
      ensures Valid() && matched
      ensures matches == old(Scanned(mem, codeSize, UINT32_MAX))
      ensures m == PatternMatch(matches[index])
    {
      EnsureMatches(mem, codeSize, UINT32_MAX);
      m := PatternMatch(matches[index]);
    }

    /** Count(1) then the first match; None when Count's assert fires. */
    method GetOne(mem: Memory, codeSize: u32) returns (r: Option<PatternMatch>)
      requires Valid()
      modifies this`matches, this`matched
      ensures Valid() && matched
      ensures matches == old(Scanned(mem, codeSize, 1))
      ensures r == if |matches| == 1 then Some(PatternMatch(matches[0])) else None
    {
      var ok := Count(mem, codeSize, 1);
      if !ok {
        return None;
      }
      r := Some(PatternMatch(matches[0]));
    }

    /** GetOne().Get(offset): the single match displaced by offset. */
    method GetFirst(mem: Memory, codeSize: u32, offset: int) returns (r: Option<u32>)
      requires Valid()
      requires -0x8000_0000 <= offset < 0x8000_0000
      modifies this`matches, this`matched
      ensures Valid() && matched
      ensures matches == old(Scanned(mem, codeSize, 1))
      ensures r == if |matches| == 1 then Some(PatternMatch(matches[0]).Get(offset)) else None
    {
      var one := GetOne(mem, codeSize);
      if one.None? {
        return None;
      }
      r := Some(one.value.Get(offset));
    }
  }

  /**
   * On a fresh pattern, Count(n) succeeds iff at least n matches exist in the
   * range (for n = 0: iff none does), and every match it keeps is a genuine one,
   * in ascending order.
   */
  lemma FreshCountVerdict(mem: Memory, data: seq<byte>, mask: seq<char>, range: ExecutableMeta, n: nat)
    requires |data| == |mask|
    ensures var all := AllMatches(mem, data, mask, range.begin, range.end);
      (|Truncate(all, 0, n)| == n <==> (if n == 0 then |all| == 0 else |all| >= n)) &&
      (forall k :: 0 <= k < |Truncate(all, 0, n)| ==> MatchesAt(mem, data, mask, Truncate(all, 0, n)[k])) &&
      (forall k1, k2 :: 0 <= k1 < k2 < |Truncate(all, 0, n)| ==> Truncate(all, 0, n)[k1] < Truncate(all, 0, n)[k2])
  {
    var all := AllMatches(mem, data, mask, range.begin, range.end);
    CountVerdict(all, n);
    MatchesBetweenExact(mem, data, mask, range.begin, LastStart(range.end, |mask|) + 1);
    MatchesBetweenAscending(mem, data, mask, range.begin, LastStart(range.end, |mask|) + 1);
  }

  /**
   * The process-wide base displacement of SetBase: address - 0x400000 taken as
   * an unsigned word and reinterpreted as a signed one.
   */
  function BaseDifference(address: u32): (d: int)
    ensures -0x8000_0000 <= d < 0x8000_0000
    ensures Wrap(d + IMAGE_BASE) == address
  {
    var d := Signed(Wrap(address - IMAGE_BASE), 4);
    WrapAdd(address - IMAGE_BASE, IMAGE_BASE);
    WrapCongruent(d + IMAGE_BASE, Wrap(address - IMAGE_BASE) + IMAGE_BASE, if d == Wrap(address - IMAGE_BASE) then 0 else -1);
    d
  }

  /** The global baseAddressDifference and the functions that write and use it. */
  class ImageBase {
    var baseAddressDifference: int

    method SetBase(address: u32)
      modifies this
      ensures baseAddressDifference == BaseDifference(address)
    {
      baseAddressDifference := Signed(Wrap(address - IMAGE_BASE), 4);
    }

    /**
     * x86 GetRVA: first SetBase() to the process's main module (its base is a
     * parameter here, the source asks the OS), then base difference + 0x400000 + rva.
     */
    method GetRVA(processBase: u32, rva: u32) returns (r: u32)
      modifies this
      ensures baseAddressDifference == BaseDifference(processBase)
      ensures r == Wrap(processBase + rva)
    {
      SetBase(processBase);
      r := Wrap(baseAddressDifference + IMAGE_BASE + rva);
      WrapAdd(baseAddressDifference + IMAGE_BASE, rva);
    }
  }
}
