/**
 * The signature scanner of Pattern::EnsureMatches: a Horspool-style search that
 * compares right to left and, on a mismatch against memory byte b at pattern
 * index j, advances by max(1, j - Last[b]).
 *
 * MatchesBetween is the reference definition (every matching window start, in
 * ascending order); Scan is the loop, proved to return exactly that list, cut
 * short where the source's match limit stops it.
 */
module Scanner {
  import opened Machine
  import opened Signature

  /** The byte k places after address at (the source's ptr[k]). */
  function ByteAt(mem: Memory, at: u32, k: int): byte
  {
    mem[Wrap(at + k)]
  }

  /** The window at `at` matches: every non-wildcard pattern byte equals memory. */
  predicate MatchesAt(mem: Memory, data: seq<byte>, mask: seq<char>, at: u32)
    requires |data| == |mask|
  {
    forall k {:trigger ByteAt(mem, at, k)} :: 0 <= k < |mask| ==> mask[k] == WILDCARD || data[k] == ByteAt(mem, at, k)
  }

  /** Every matching window start in [lo, hi), in ascending order. */
  function MatchesBetween(mem: Memory, data: seq<byte>, mask: seq<char>, lo: nat, hi: int): seq<u32>
    requires |data| == |mask| && hi <= SPACE
    decreases hi - lo
  {
    if hi <= lo then []
    else MatchesBetween(mem, data, mask, lo, hi - 1) + (if MatchesAt(mem, data, mask, hi - 1) then [hi - 1] else [])
  }

  /** The last window start of a range: the window [end - n, end) is the last one inside it. */
  function LastStart(end: u32, n: nat): int
  {
    end - n
  }

  /** i, capped at h. */
  function Below(i: int, h: int): int
  {
    if i < h then i else h
  }

  /** Every window lying wholly inside [begin, end) that matches, ascending. */
  function AllMatches(mem: Memory, data: seq<byte>, mask: seq<char>, begin: u32, end: u32): seq<u32>
    requires |data| == |mask|
  {
    MatchesBetween(mem, data, mask, begin, LastStart(end, |mask|) + 1)
  }

  /**
   * What a scan that started with `already` recorded matches appends: the scan
   * stops right after the match that brings the total to maxCount, so it keeps
   * the first maxCount - already matches when that many exist; a total already at
   * or past maxCount is never equal to it after an append, so nothing is cut.
   */
  function Truncate(found: seq<u32>, already: nat, maxCount: nat): (r: seq<u32>)
    ensures r <= found
    ensures already < maxCount <= already + |found| ==> already + |r| == maxCount
    ensures !(already < maxCount <= already + |found|) ==> r == found
  {
    if already < maxCount <= already + |found| then found[..maxCount - already] else found
  }

  /** Soundness and completeness of the reference list: exactly the matching starts in [lo, hi). */
  lemma {:induction false} MatchesBetweenExact(mem: Memory, data: seq<byte>, mask: seq<char>, lo: nat, hi: int)
    requires |data| == |mask| && hi <= SPACE
    ensures forall k :: 0 <= k < |MatchesBetween(mem, data, mask, lo, hi)| ==>
              var a := MatchesBetween(mem, data, mask, lo, hi)[k];
              lo <= a < hi && MatchesAt(mem, data, mask, a)
    ensures forall a: u32 :: lo <= a < hi && MatchesAt(mem, data, mask, a) ==> a in MatchesBetween(mem, data, mask, lo, hi)
    decreases hi - lo
  {
    if hi > lo {
      MatchesBetweenExact(mem, data, mask, lo, hi - 1);
    }
  }

  /** The reference list is strictly ascending. */
  lemma {:induction false} MatchesBetweenAscending(mem: Memory, data: seq<byte>, mask: seq<char>, lo: nat, hi: int)
    requires |data| == |mask| && hi <= SPACE
    ensures forall k1, k2 :: 0 <= k1 < k2 < |MatchesBetween(mem, data, mask, lo, hi)| ==>
              MatchesBetween(mem, data, mask, lo, hi)[k1] < MatchesBetween(mem, data, mask, lo, hi)[k2]
    decreases hi - lo
  {
    if hi > lo {
      MatchesBetweenAscending(mem, data, mask, lo, hi - 1);
      MatchesBetweenExact(mem, data, mask, lo, hi - 1);
    }
  }

  /** Matches found below h1 are a prefix of those found below any h2 >= h1. */
  lemma {:induction false} MatchesBetweenPrefix(mem: Memory, data: seq<byte>, mask: seq<char>, lo: nat, h1: int, h2: int)
    requires |data| == |mask| && h1 <= h2 <= SPACE
    ensures MatchesBetween(mem, data, mask, lo, h1) <= MatchesBetween(mem, data, mask, lo, h2)
    decreases h2 - h1
  {
    if h1 < h2 {
      MatchesBetweenPrefix(mem, data, mask, lo, h1, h2 - 1);
      if h2 > lo {
        assert MatchesBetween(mem, data, mask, lo, h2 - 1) <= MatchesBetween(mem, data, mask, lo, h2);
      }
    }
  }

  /** Skipping a stretch without matches loses nothing. */
  lemma {:induction false} MatchesBetweenGap(mem: Memory, data: seq<byte>, mask: seq<char>, lo: nat, h1: int, h2: int)
    requires |data| == |mask| && lo <= h1 <= h2 <= SPACE
    requires forall a: u32 :: h1 <= a < h2 ==> !MatchesAt(mem, data, mask, a)
    ensures MatchesBetween(mem, data, mask, lo, h2) == MatchesBetween(mem, data, mask, lo, h1)
    decreases h2 - h1
  {
    if h1 < h2 {
      MatchesBetweenGap(mem, data, mask, lo, h1, h2 - 1);
    }
  }

  /** The source's m_mask.find_last_of('?'): the last wildcard index, or -1. */
  function LastWild(mask: seq<char>): (r: int)
    ensures -1 <= r < |mask|
  {
    if mask == [] then -1
    else if mask[|mask| - 1] == WILDCARD then |mask| - 1
    else LastWild(mask[..|mask| - 1])
  }

  /** LastWild finds the last wildcard: there is one at r and none after it. */
  lemma {:induction false} LastWildSpec(mask: seq<char>)
    ensures var r := LastWild(mask);
      (r >= 0 ==> mask[r] == WILDCARD) && forall k :: r < k < |mask| ==> mask[k] != WILDCARD
  {
    if mask != [] && mask[|mask| - 1] != WILDCARD {
      LastWildSpec(mask[..|mask| - 1]);
    }
  }

  /** The last index of b in data, or -1 when b does not occur. */
  function LastIndex(data: seq<byte>, b: int): (r: int)
    ensures -1 <= r < |data|
  {
    if data == [] then -1
    else if data[|data| - 1] == b then |data| - 1
    else LastIndex(data[..|data| - 1], b)
  }

  /** LastIndex finds the last occurrence: b is at r and nowhere after it. */
  lemma {:induction false} LastIndexSpec(data: seq<byte>, b: int)
    ensures var r := LastIndex(data, b);
      (r >= 0 ==> data[r] == b) && forall i :: r < i < |data| ==> data[i] != b
  {
    if data != [] && data[|data| - 1] != b {
      LastIndexSpec(data[..|data| - 1], b);
    }
  }

  function Max(x: int, y: int): int
  {
    if x < y then y else x
  }

  /**
   * The bad-character table: for every byte value b, Last[b] is the larger of
   * the last wildcard index and the last index holding b (wildcard positions
   * hold byte 0 and count too), or -1 when there is neither.
   */
  function LastTable(data: seq<byte>, mask: seq<char>): (last: seq<int>)
    ensures |last| == 256
  {
    seq(256, b => Max(LastWild(mask), LastIndex(data, b)))
  }

  /** What the skip rule needs of the table. */
  ghost predicate IsLastTable(last: seq<int>, data: seq<byte>, mask: seq<char>)
    requires |data| == |mask|
  {
    |last| == 256 &&
    forall b :: 0 <= b < 256 ==>
      LastWild(mask) <= last[b] < |mask| &&
      (forall i :: 0 <= i < |data| && data[i] == b ==> i <= last[b]) &&
      (last[b] == LastWild(mask) || (0 <= last[b] && data[last[b]] == b))
  }

  /**
   * For every byte b, Last[b] is at least the last wildcard index and at least
   * every index holding b, and is one of the two.
   */
  lemma LastTableSound(data: seq<byte>, mask: seq<char>)
    requires |data| == |mask|
    ensures IsLastTable(LastTable(data, mask), data, mask)
  {
    LastWildSpec(mask);
    forall b | 0 <= b < 256 {
      LastIndexSpec(data, b);
    }
  }

  /** Builds Last[256]: fill with the last wildcard index, then raise by every pattern byte. */
  method BuildLast(data: seq<byte>, mask: seq<char>) returns (last: seq<int>)
    requires |data| == |mask|
    ensures last == LastTable(data, mask)
  {
    var lastWild := LastWild(mask);
    var table := new int[256](_ => lastWild);
    for i := 0 to |mask|
      invariant forall b :: 0 <= b < 256 ==> table[b] == Max(lastWild, LastIndex(data[..i], b))
    {
      assert data[..i + 1][..i] == data[..i];
      if table[data[i]] < i {
        table[data[i]] := i;
      }
    }
    assert data[..|mask|] == data;
    last := table[..];
  }

  /**
   * The skip never jumps over a match: after comparing the window at i and
   * finding memory byte b = mem[i + j] at pattern index j, no window starting
   * d bytes later, for 0 < d < j - Last[b], can match.
   */
  lemma SkipIsSafe(mem: Memory, data: seq<byte>, mask: seq<char>, last: seq<int>, i: u32, j: nat, d: int)
    requires |data| == |mask| && IsLastTable(last, data, mask)
    requires j < |mask| && i + j < SPACE
    requires 0 < d < j - last[mem[i + j]]
    ensures !MatchesAt(mem, data, mask, i + d)
  {
    var b := mem[i + j];
    var p := j - d;
    LastWildSpec(mask);
    assert mask[p] != WILDCARD;
    assert data[p] != b;
    assert Wrap(i + d + p) == i + j;
    assert !(mask[p] == WILDCARD || data[p] == ByteAt(mem, i + d, p));
  }

  /** The source's std::max(1, j - Last[b]). */
  function Skip(j: int, lastB: int): (s: int)
    ensures s >= 1
  {
    if j - lastB > 1 then j - lastB else 1
  }

  /**
   * A mismatch at pattern index j of the window at i: that window does not match,
   * and advancing by Skip loses no match below h.
   */
  lemma AdvanceAfterMismatch(mem: Memory, data: seq<byte>, mask: seq<char>, lo: nat, i: u32, j: nat, next: int, h: int)
    requires |data| == |mask|
    requires j < |mask| && i + j < SPACE && lo <= i < h <= SPACE
    requires mask[j] != WILDCARD && data[j] != mem[i + j]
    requires next == i + Skip(j, LastTable(data, mask)[mem[i + j]])
    ensures i < next <= i + j + 1
    ensures MatchesBetween(mem, data, mask, lo, Below(next, h)) == MatchesBetween(mem, data, mask, lo, i)
  {
    var last := LastTable(data, mask);
    LastTableSound(data, mask);
    assert ByteAt(mem, i, j) == mem[i + j];
    assert !MatchesAt(mem, data, mask, i);
    forall a: u32 | i < a < next
      ensures !MatchesAt(mem, data, mask, a)
    {
      SkipIsSafe(mem, data, mask, last, i, j, a - i);
    }
    MatchesBetweenGap(mem, data, mask, lo, i, Below(next, h));
  }

  /**
   * Where the scan returns: either the limit was reached after recording the
   * matches below lim, or the scan ran past the last window with the limit not
   * reached; either way the result is the truncated reference list.
   */
  lemma ScanResult(mem: Memory, data: seq<byte>, mask: seq<char>, begin: u32, end: u32, lim: int,
                   found: seq<u32>, already: nat, maxCount: nat)
    requires |data| == |mask| && lim <= LastStart(end, |mask|) + 1
    requires found == MatchesBetween(mem, data, mask, begin, lim)
    requires (already + |found| == maxCount && found != []) ||
             (lim == LastStart(end, |mask|) + 1 && !(already < maxCount <= already + |found|))
    ensures found == Truncate(AllMatches(mem, data, mask, begin, end), already, maxCount)
  {
    var all := AllMatches(mem, data, mask, begin, end);
    MatchesBetweenPrefix(mem, data, mask, begin, lim, LastStart(end, |mask|) + 1);
    assert found <= all;
    if already + |found| == maxCount && found != [] {
      assert all[..|found|] == found;
    } else {
      assert found == all;
    }
  }

  /** A window that compared equal at every index matches, and is the next entry of the list. */
  lemma AdvanceAfterMatch(mem: Memory, data: seq<byte>, mask: seq<char>, lo: nat, i: u32, next: int, h: int)
    requires |data| == |mask| && i + |mask| <= SPACE && lo <= i < h <= SPACE
    requires MatchesAt(mem, data, mask, i) && next == i + 1
    ensures MatchesBetween(mem, data, mask, lo, Below(next, h)) ==
            MatchesBetween(mem, data, mask, lo, i) + [i]
  {
  }

  /**
   * Compares the window at i right to left and returns the index of the
   * rightmost mismatch, or -1 when every non-wildcard position matches.
   */
  method CompareWindow(mem: Memory, data: seq<byte>, mask: seq<char>, i: u32) returns (j: int)
    requires |data| == |mask| && i + |mask| <= SPACE
    ensures -1 <= j < |mask|
    ensures j == -1 <==> MatchesAt(mem, data, mask, i)
    ensures j >= 0 ==> mask[j] != WILDCARD && data[j] != mem[i + j]
    ensures forall k :: j < k < |mask| ==> mask[k] == WILDCARD || data[k] == ByteAt(mem, i, k)
  {
    j := |mask| - 1;
    while j >= 0 && (mask[j] == WILDCARD || data[j] == mem[i + j])
      invariant -1 <= j < |mask|
      invariant forall k :: j < k < |mask| ==> mask[k] == WILDCARD || data[k] == ByteAt(mem, i, k)
    {
      assert ByteAt(mem, i, j) == mem[i + j];
      j := j - 1;
    }
    if j >= 0 {
      assert ByteAt(mem, i, j) == mem[i + j];
    }
  }

  /**
   * The scan loop of EnsureMatches over [begin, end). `already` is the number of
   * matches recorded before the scan; the scan stops as soon as the total reaches
   * maxCount. A window is compared right to left; after a match the offset
   * advances by exactly 1, so overlapping matches are found.
   */
  method Scan(mem: Memory, data: seq<byte>, mask: seq<char>, begin: u32, end: u32, already: nat, maxCount: nat)
    returns (found: seq<u32>)
    requires |data| == |mask|
    ensures found == Truncate(AllMatches(mem, data, mask, begin, end), already, maxCount)
  {
    var last := BuildLast(data, mask);
    var n := |mask|;
    var lastStart := LastStart(end, n);
    ghost var h := lastStart + 1;
    found := [];
    var i: int := begin;
    while i <= lastStart
      invariant begin <= i
      invariant found == MatchesBetween(mem, data, mask, begin, Below(i, h))
      invariant !(already < maxCount <= already + |found|)
      decreases lastStart + 1 - i
    {
      var hit, next := Step(mem, data, mask, last, i, begin, h);
      if hit {
        found := found + [i];
        if already + |found| == maxCount {
          ScanResult(mem, data, mask, begin, end, Below(next, h), found, already, maxCount);
          return;
        }
      }
      i := next;
    }
    ScanResult(mem, data, mask, begin, end, Below(i, h), found, already, maxCount);
  }

  /**
   * One iteration of the scan loop: compares the window at i and returns whether
   * it matched and the next window start (i + 1 after a match, i + skip after a
   * mismatch). Nothing in [i, next) is lost: the matches below next are those
   * below i plus i itself when it matched.
   */
  method Step(mem: Memory, data: seq<byte>, mask: seq<char>, last: seq<int>, i: u32, ghost lo: nat, ghost h: int)
    returns (hit: bool, next: int)
    requires |data| == |mask| && i + |mask| <= SPACE && lo <= i < h <= SPACE
    requires last == LastTable(data, mask)
    ensures hit <==> MatchesAt(mem, data, mask, i)
    ensures hit ==> next == i + 1
    ensures i < next <= i + |mask| || next == i + 1
    ensures MatchesBetween(mem, data, mask, lo, Below(next, h)) ==
            MatchesBetween(mem, data, mask, lo, Below(i, h)) + (if hit then [i] else [])
  {
    var j := CompareWindow(mem, data, mask, i);
    next := if j < 0 then i + 1 else i + Skip(j, last[mem[i + j]]);
    Advance(mem, data, mask, lo, i, j, next, h);
    hit := j < 0;
  }

  /** One step of the scan: the window at i is compared (j) and the offset moves to next. */
  lemma Advance(mem: Memory, data: seq<byte>, mask: seq<char>, lo: nat, i: u32, j: int, next: int, h: int)
    requires |data| == |mask| && i + |mask| <= SPACE && lo <= i < h <= SPACE
    requires -1 <= j < |mask|
    requires j == -1 <==> MatchesAt(mem, data, mask, i)
    requires j >= 0 ==> mask[j] != WILDCARD && data[j] != mem[i + j]
    requires next == if j < 0 then i + 1 else i + Skip(j, LastTable(data, mask)[mem[i + j]])
    ensures i < next <= i + |mask| || next == i + 1
    ensures MatchesBetween(mem, data, mask, lo, Below(next, h)) ==
            MatchesBetween(mem, data, mask, lo, i) + (if j < 0 then [i] else [])
  {
    if j < 0 {
      AdvanceAfterMatch(mem, data, mask, lo, i, next, h);
    } else {
      AdvanceAfterMismatch(mem, data, mask, lo, i, j, next, h);
    }
  }

  /**
   * Count's verdict on a fresh pattern: scanning with limit n leaves exactly n
   * matches iff at least n exist (surplus matches are cut, not rejected); for
   * n = 0 the scan is never cut, so it succeeds only when nothing matches.
   */
  lemma CountVerdict(all: seq<u32>, n: nat)
    ensures |Truncate(all, 0, n)| == n <==> (if n == 0 then |all| == 0 else |all| >= n)
  {
  }

  /** The overlapping case: pattern AA AA over memory AA AA AA matches at both offsets. */
  lemma OverlappingMatches(mem: Memory, a: u32)
    requires a + 3 < SPACE
    requires mem[a] == 0xAA && mem[a + 1] == 0xAA && mem[a + 2] == 0xAA
    ensures AllMatches(mem, [0xAA, 0xAA], [EXACT, EXACT], a, a + 3) == [a, a + 1]
  {
    var data, mask := [0xAA, 0xAA], [EXACT, EXACT];
    assert Wrap(a + 0) == a && Wrap(a + 1) == a + 1 && Wrap(a + 1 + 1) == a + 2;
    assert MatchesAt(mem, data, mask, a);
    assert MatchesAt(mem, data, mask, a + 1);
    assert MatchesBetween(mem, data, mask, a, a) == [];
    assert MatchesBetween(mem, data, mask, a, a + 1) == [a];
    assert MatchesBetween(mem, data, mask, a, a + 2) == [a, a + 1];
  }

  /**
   * As written, Pattern.cpp computes the last start as the unsigned
   * `end - maskSize`; for a range ending below the pattern length it wraps to
   * the top of the address space, and the window starting there reaches far past
   * `end`. LastStart, used above, is the intended signed bound.
   */
  function ScanLimitAsWritten(end: u32, n: nat): (r: u32)
    requires n < SPACE
    ensures n <= end ==> r == end - n
    ensures end < n ==> r == end - n + SPACE
  {
    if n <= end then
      WrapIdentity(end - n);
      Wrap(end - n)
    else
      WrapCongruent(end - n, end - n + SPACE, -1);
      WrapIdentity(end - n + SPACE);
      Wrap(end - n)
  }

  lemma ScanLimitWraps()
    ensures ScanLimitAsWritten(2, 3) == 0xFFFF_FFFF
    ensures ScanLimitAsWritten(2, 3) + 3 > 2
    ensures LastStart(2, 3) < 0
  {
  }

  /** With the intended bound every reported window lies wholly inside [begin, end). */
  lemma AllMatchesInRange(mem: Memory, data: seq<byte>, mask: seq<char>, begin: u32, end: u32)
    requires |data| == |mask|
    ensures forall k :: 0 <= k < |AllMatches(mem, data, mask, begin, end)| ==>
              begin <= AllMatches(mem, data, mask, begin, end)[k] &&
              AllMatches(mem, data, mask, begin, end)[k] + |mask| <= end
  {
    MatchesBetweenExact(mem, data, mask, begin, LastStart(end, |mask|) + 1);
  }
}
