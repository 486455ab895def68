/**
 * The signature compiler: turns IDA-style text such as "8B 45 ?? 89 45 F0" into
 * a byte string and a parallel mask ('x' = byte must match, '?' = don't care).
 *
 * The compiler is a left-to-right character loop with two pieces of running
 * state, the pending high nibble (tempDigit) and whether one is pending
 * (tempFlag). Step is one iteration of that loop, Run the loop over a whole
 * prefix; the method TransformPattern is the loop itself.
 */
module Signature {
  import opened Machine
  import opened Bits

  const WILDCARD: char := '?'
  const EXACT: char := 'x'

  predicate IsHexDigit(ch: char)
  {
    ('0' <= ch <= '9') || ('A' <= ch <= 'F') || ('a' <= ch <= 'f')
  }

  /** The value of one hex digit, upper or lower case (the source's `tol`). */
  function HexValue(ch: char): (v: nat)
    requires IsHexDigit(ch)
    ensures v < 16
    ensures ch == HexDigit(v) || ch == LowerHexDigit(v)
  {
    if 'A' <= ch <= 'F' then ch as int - 'A' as int + 10
    else if 'a' <= ch <= 'f' then ch as int - 'a' as int + 10
    else ch as int - '0' as int
  }

  /** The upper-case hex digit for a nibble. */
  function HexDigit(v: nat): (ch: char)
    requires v < 16
  {
    "0123456789ABCDEF"[v]
  }

  /** The lower-case hex digit for a nibble. */
  function LowerHexDigit(v: nat): (ch: char)
    requires v < 16
  {
    "0123456789abcdef"[v]
  }

  /** The compiler's state: output so far plus the pending nibble. */
  datatype Compiled = Compiled(data: seq<byte>, mask: seq<char>, tempDigit: byte, tempFlag: bool)

  const Init: Compiled := Compiled([], [], 0, false)

  /** The invariant the loop keeps: a pending digit occupies only the high nibble. */
  ghost predicate Consistent(st: Compiled)
  {
    |st.data| == |st.mask| &&
    (forall i :: 0 <= i < |st.mask| ==> st.mask[i] == EXACT || st.mask[i] == WILDCARD) &&
    (forall i :: 0 <= i < |st.mask| && st.mask[i] == WILDCARD ==> st.data[i] == 0) &&
    (st.tempFlag ==> st.tempDigit % 16 == 0)
  }

  /** The byte `tempDigit |= thisDigit` leaves: the pending high nibble with the digit below it. */
  function OrNibble(pending: byte, lo: nat): (b: byte)
    requires pending % 16 == 0 && lo < 16
    ensures b == pending + lo
    ensures b / 16 == pending / 16 && b % 16 == lo
  {
    OrIsSum(pending, lo);
    BitOr(pending, lo)
  }

  /**
   * One loop iteration. A space or any other non-hex character is skipped; '?'
   * emits a wildcard byte (data 0); a hex digit either becomes the pending high
   * nibble or completes a byte by ORing the low nibble into the pending one.
   */
  function Step(st: Compiled, ch: char): (r: Compiled)
    requires st.tempFlag ==> st.tempDigit % 16 == 0
    ensures r.tempFlag ==> r.tempDigit % 16 == 0
  {
    if ch == ' ' then st
    else if ch == WILDCARD then st.(data := st.data + [0], mask := st.mask + [WILDCARD])
    else if IsHexDigit(ch) then
      if !st.tempFlag then st.(tempDigit := HexValue(ch) * 16, tempFlag := true)
      else
        var b := OrNibble(st.tempDigit, HexValue(ch));
        st.(data := st.data + [b], mask := st.mask + [EXACT], tempDigit := b, tempFlag := false)
    else st
  }

  /** The loop run from state st over the characters of s. */
  function RunFrom(st: Compiled, s: string): (r: Compiled)
    requires st.tempFlag ==> st.tempDigit % 16 == 0
    ensures r.tempFlag ==> r.tempDigit % 16 == 0
  {
    if s == [] then st else Step(RunFrom(st, s[..|s| - 1]), s[|s| - 1])
  }

  function Run(s: string): Compiled
  {
    RunFrom(Init, s)
  }

  /** The loop of TransformPattern (Pattern.cpp), pushing onto data and mask. */
  method TransformPattern(pattern: string) returns (data: seq<byte>, mask: seq<char>)
    ensures data == Run(pattern).data && mask == Run(pattern).mask
    ensures |data| == |mask|
    ensures forall i :: 0 <= i < |mask| ==> mask[i] == EXACT || mask[i] == WILDCARD
  {
    data, mask := [], [];
    var tempDigit: byte := 0;
    var tempFlag := false;
    for k := 0 to |pattern|
      invariant Compiled(data, mask, tempDigit, tempFlag) == Run(pattern[..k])
    {
      var ch := pattern[k];
      assert pattern[..k + 1][..k] == pattern[..k];
      if ch == ' ' {
        continue;
      } else if ch == WILDCARD {
        data := data + [0];
        mask := mask + [WILDCARD];
      } else if IsHexDigit(ch) {
        var thisDigit := HexValue(ch);
        if !tempFlag {
          tempDigit := thisDigit * 16;
          tempFlag := true;
        } else {
          tempDigit := OrNibble(tempDigit, thisDigit);
          tempFlag := false;
          data := data + [tempDigit];
          mask := mask + [EXACT];
        }
      }
    }
    assert pattern[..|pattern|] == pattern;
    RunConsistent(pattern);
  }

  /** Number of occurrences of c in s. */
  function Occurrences(c: char, s: string): nat
  {
    if s == [] then 0 else Occurrences(c, s[..|s| - 1]) + (if s[|s| - 1] == c then 1 else 0)
  }

  /** Number of hex-digit characters in s. */
  function HexDigits(s: string): nat
  {
    if s == [] then 0 else HexDigits(s[..|s| - 1]) + (if IsHexDigit(s[|s| - 1]) then 1 else 0)
  }

  /**
   * What the compiled signature holds: one wildcard per '?', one exact byte per
   * complete pair of hex digits (an unpaired trailing digit is left pending and
   * never emitted), data and mask of equal length, and only 'x' / '?' in the mask.
   */
  lemma {:induction false} RunConsistent(s: string)
    ensures Consistent(Run(s))
    ensures Occurrences(WILDCARD, Run(s).mask) == Occurrences(WILDCARD, s)
    ensures |Run(s).mask| == Occurrences(WILDCARD, s) + HexDigits(s) / 2
    ensures Run(s).tempFlag <==> HexDigits(s) % 2 == 1
  {
    if s != [] {
      var p := s[..|s| - 1];
      RunConsistent(p);
      var st := Run(p);
      var ch := s[|s| - 1];
      assert Run(s) == Step(st, ch);
      var r := Step(st, ch);
      if ch == WILDCARD {
        assert r.mask[..|r.mask| - 1] == st.mask;
      } else if IsHexDigit(ch) && st.tempFlag {
        assert r.mask[..|r.mask| - 1] == st.mask;
      }
    }
  }

  /** Running over s then t is running over s + t. */
  lemma {:induction false} RunFromAppend(st: Compiled, s: string, t: string)
    requires st.tempFlag ==> st.tempDigit % 16 == 0
    ensures RunFrom(st, s + t) == RunFrom(RunFrom(st, s), t)
  {
    if t == [] {
      assert s + t == s;
    } else {
      var t' := t[..|t| - 1];
      assert (s + t)[..|s + t| - 1] == s + t';
      RunFromAppend(st, s, t');
    }
  }

  /**
   * A pending high nibble survives any stretch of text without hex digits
   * (spaces, '?', junk): "A ? B" compiles the wildcard first, then the byte AB.
   */
  lemma {:induction false} PendingSurvives(st: Compiled, t: string)
    requires st.tempFlag ==> st.tempDigit % 16 == 0
    requires HexDigits(t) == 0
    ensures RunFrom(st, t).tempFlag == st.tempFlag
    ensures RunFrom(st, t).tempDigit == st.tempDigit
    ensures RunFrom(st, t).data == st.data + seq(Occurrences(WILDCARD, t), _ => 0)
    ensures RunFrom(st, t).mask == st.mask + seq(Occurrences(WILDCARD, t), _ => WILDCARD)
  {
    if t != [] {
      var t' := t[..|t| - 1];
      PendingSurvives(st, t');
    }
  }

  /** Upper-casing a hex letter; every other character is kept. */
  function UpperHex(ch: char): (r: char)
    ensures IsHexDigit(r) <==> IsHexDigit(ch)
    ensures IsHexDigit(ch) ==> HexValue(r) == HexValue(ch)
  {
    if 'a' <= ch <= 'f' then (ch as int - 'a' as int + 'A' as int) as char else ch
  }

  /** Hex digits are read case-insensitively: upper-casing the text changes nothing. */
  lemma {:induction false} CaseInsensitive(s: string)
    ensures Run(seq(|s|, i requires 0 <= i < |s| => UpperHex(s[i]))) == Run(s)
  {
    var u := seq(|s|, i requires 0 <= i < |s| => UpperHex(s[i]));
    if s != [] {
      var p := s[..|s| - 1];
      var up := seq(|p|, i requires 0 <= i < |p| => UpperHex(p[i]));
      assert u[..|u| - 1] == up;
      CaseInsensitive(p);
      StepUpper(Run(p), s[|s| - 1]);
    }
  }

  /** One step reads an upper-cased character as it reads the original. */
  lemma StepUpper(st: Compiled, ch: char)
    requires st.tempFlag ==> st.tempDigit % 16 == 0
    ensures Step(st, UpperHex(ch)) == Step(st, ch)
  {
  }

  /** A well-formed compiled signature: parallel arrays, 'x'/'?' mask, zero data under '?'. */
  ghost predicate WellFormed(data: seq<byte>, mask: seq<char>)
  {
    Consistent(Compiled(data, mask, 0, false))
  }

  /** One position of a signature written out as text: "? " or two upper-case hex digits and a space. */
  function Token(b: byte, m: char): string
  {
    if m == WILDCARD then [WILDCARD, ' '] else [HexDigit(b / 16), HexDigit(b % 16), ' ']
  }

  /** A compiled signature written back out as text. */
  function Render(data: seq<byte>, mask: seq<char>): string
    requires |data| == |mask|
  {
    if data == [] then []
    else Render(data[..|data| - 1], mask[..|mask| - 1]) + Token(data[|data| - 1], mask[|mask| - 1])
  }

  /** Compiling the text of a well-formed signature gives that signature back. */
  lemma {:induction false} CompileRender(data: seq<byte>, mask: seq<char>)
    requires WellFormed(data, mask)
    ensures Run(Render(data, mask)).data == data
    ensures Run(Render(data, mask)).mask == mask
    ensures !Run(Render(data, mask)).tempFlag
  {
    if data != [] {
      var n := |data|;
      var d, m := data[..n - 1], mask[..n - 1];
      var b, c := data[n - 1], mask[n - 1];
      assert data == d + [b] && mask == m + [c];
      assert WellFormed(d, m);
      CompileRender(d, m);
      var pre := Render(d, m);
      var tok := Token(b, c);
      assert Render(data, mask) == pre + tok;
      RunFromAppend(Init, pre, tok);
      assert Run(Render(data, mask)) == RunFrom(Run(pre), tok);
      assert c == WILDCARD ==> b == 0;
      RunToken(Run(pre), b, c);
      assert c != WILDCARD ==> c == EXACT;
    }
  }

  /** Compiling one token appends exactly its byte and mask character. */
  lemma RunToken(st: Compiled, b: byte, m: char)
    requires !st.tempFlag
    requires m == WILDCARD ==> b == 0
    ensures RunFrom(st, Token(b, m)).data == st.data + [b]
    ensures RunFrom(st, Token(b, m)).mask == st.mask + [if m == WILDCARD then WILDCARD else EXACT]
    ensures !RunFrom(st, Token(b, m)).tempFlag
  {
    if m == WILDCARD {
      RunWildcardToken(st);
    } else {
      RunHexToken(st, b);
    }
  }

  lemma RunWildcardToken(st: Compiled)
    requires !st.tempFlag
    ensures RunFrom(st, [WILDCARD, ' ']) == st.(data := st.data + [0], mask := st.mask + [WILDCARD])
  {
    var tok := [WILDCARD, ' '];
    assert tok[..1][..0] == [];
    var s1 := Step(st, WILDCARD);
    assert RunFrom(st, tok[..1]) == s1;
    assert RunFrom(st, tok) == Step(s1, ' ');
  }

  lemma RunHexToken(st: Compiled, b: byte)
    requires !st.tempFlag
    ensures RunFrom(st, [HexDigit(b / 16), HexDigit(b % 16), ' ']) ==
            st.(data := st.data + [b], mask := st.mask + [EXACT], tempDigit := b, tempFlag := false)
  {
    var hi, lo := b / 16, b % 16;
    var tok := [HexDigit(hi), HexDigit(lo), ' '];
    HexRoundTrip(hi);
    HexRoundTrip(lo);
    assert tok[..1][..0] == [] && tok[..2][..1] == tok[..1];
    var s1 := Step(st, HexDigit(hi));
    assert s1 == st.(tempDigit := hi * 16, tempFlag := true);
    assert RunFrom(st, tok[..1]) == s1;
    assert OrNibble(hi * 16, lo) == b;
    var s2 := Step(s1, HexDigit(lo));
    assert s2 == st.(data := st.data + [b], mask := st.mask + [EXACT], tempDigit := b, tempFlag := false);
    assert RunFrom(st, tok[..2]) == s2;
    assert RunFrom(st, tok) == Step(s2, ' ');
  }

  lemma HexRoundTrip(v: nat)
    requires v < 16
    ensures IsHexDigit(HexDigit(v)) && HexValue(HexDigit(v)) == v
    ensures IsHexDigit(LowerHexDigit(v)) && HexValue(LowerHexDigit(v)) == v
  {
  }
}
