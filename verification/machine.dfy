/**
 * Machine-level vocabulary shared by the whole model: bytes, 32-bit words,
 * wrap-around arithmetic on x86 addresses, little-endian encoding and the
 * flat 4 GiB byte memory that the patching and scanning code reads and writes.
 */
module Machine {

  /** Size of the 32-bit address space; every address is taken modulo this. */
  const SPACE: int := 0x1_0000_0000

  type byte = b: int | 0 <= b < 0x100
  type u32 = x: int | 0 <= x < 0x1_0000_0000

  /** The whole address space of the process, one byte per address. */
  type Memory = m: seq<byte> | |m| == SPACE witness seq(SPACE, _ => 0)

  /** Unsigned 32-bit wrap-around, as uintptr_t / size_t arithmetic does it on x86. */
  function Wrap(x: int): u32
  {
    x % SPACE
  }

  /** x and Wrap(x) differ by a whole number of address spaces. */
  lemma WrapResidue(x: int) returns (k: int)
    ensures x == Wrap(x) + k * SPACE
  {
    k := x / SPACE;
  }

  /** x and Wrap(x) are congruent modulo 2^32. */
  lemma WrapDifference(x: int)
    ensures (x - Wrap(x)) % SPACE == 0
  {
    var k := WrapResidue(x);
    DivModUnique(x - Wrap(x), k, 0);
  }

  lemma WrapIdentity(x: int)
    requires 0 <= x < SPACE
    ensures Wrap(x) == x
  {
  }

  /** Two numbers with the same residue wrap to the same word. */
  lemma WrapCongruent(x: int, y: int, k: int)
    requires x == y + k * SPACE
    ensures Wrap(x) == Wrap(y)
  {
    var q, r := y / SPACE, y % SPACE;
    assert y == q * SPACE + r;
    assert x == (q + k) * SPACE + r;
    DivModUnique(x, q + k, r);
  }

  lemma DivModUnique(x: int, q: int, r: int)
    requires 0 <= r < SPACE && x == q * SPACE + r
    ensures x % SPACE == r && x / SPACE == q
  {
    var q', r' := x / SPACE, x % SPACE;
    assert x == q' * SPACE + r';
    assert (q - q') * SPACE == r' - r;
  }

  /** Wrapping is compatible with addition: only the residues of the summands matter. */
  lemma WrapAdd(x: int, y: int)
    ensures Wrap(Wrap(x) + y) == Wrap(x + y)
    ensures Wrap(x + Wrap(y)) == Wrap(x + y)
  {
    var kx := WrapResidue(x);
    WrapCongruent(x + y, Wrap(x) + y, kx);
    var ky := WrapResidue(y);
    WrapCongruent(x + y, x + Wrap(y), ky);
  }

  /** Wrapped addition associates. */
  lemma WrapAssociates(x: int, y: int, z: int)
    ensures Wrap(Wrap(x + y) + z) == Wrap(x + Wrap(y + z))
  {
    WrapAdd(x + y, z);
    WrapAdd(x, y + z);
  }

  /** 256^n: the number of values an n-byte integer can hold. */
  function Pow256(n: nat): (r: nat)
    ensures r >= 1
  {
    if n == 0 then 1 else 256 * Pow256(n - 1)
  }

  /** Reads a little-endian unsigned integer from its bytes, least significant first. */
  function FromLE(s: seq<byte>): (r: nat)
    ensures r < Pow256(|s|)
  {
    if s == [] then 0 else s[0] + 256 * FromLE(s[1..])
  }

  /** The n-byte little-endian encoding of v, least significant byte first. */
  function ToLE(v: nat, n: nat): (s: seq<byte>)
    requires v < Pow256(n)
    ensures |s| == n
  {
    if n == 0 then [] else [v % 256] + ToLE(v / 256, n - 1)
  }

  lemma {:induction false} FromToLE(v: nat, n: nat)
    requires v < Pow256(n)
    ensures FromLE(ToLE(v, n)) == v
  {
    if n > 0 {
      FromToLE(v / 256, n - 1);
      assert ToLE(v, n)[1..] == ToLE(v / 256, n - 1);
    }
  }

  lemma DivMod256(x: int, lo: int, hi: int)
    requires 0 <= lo < 256 && x == lo + 256 * hi
    ensures x % 256 == lo && x / 256 == hi
  {
  }

  lemma {:induction false} ToFromLE(s: seq<byte>)
    ensures ToLE(FromLE(s), |s|) == s
  {
    if s != [] {
      ToFromLE(s[1..]);
      DivMod256(FromLE(s), s[0], FromLE(s[1..]));
    }
  }

  /** Two's-complement reading of an unsigned n-byte value (n > 0). */
  function Signed(u: nat, n: nat): (r: int)
    requires 0 < n && u < Pow256(n)
    ensures r + Pow256(n) / 2 >= 0 && r < Pow256(n) / 2
    ensures r == u || r == u - Pow256(n)
  {
    HalfPow(n);
    if u < Pow256(n) / 2 then u else u - Pow256(n)
  }

  lemma HalfPow(n: nat)
    requires 0 < n
    ensures Pow256(n) == 256 * Pow256(n - 1) && Pow256(n) / 2 == 128 * Pow256(n - 1)
  {
  }

  /** The distance from address a up to address i, going forward round the address space. */
  function Offset(i: int, a: u32): u32
  {
    Wrap(i - a)
  }

  lemma OffsetOfShift(a: u32, k: int)
    requires 0 <= k < SPACE
    ensures Offset(Wrap(a + k), a) == k
  {
    WrapAdd(a + k, -(a as int));
  }

  lemma ShiftOfOffset(i: int, a: u32)
    requires 0 <= i < SPACE
    ensures Wrap(a + Offset(i, a)) == i
  {
    WrapAdd(i - a, a);
    assert Wrap(i - a) + a == a + Offset(i, a);
  }

  /** The n bytes at address a (wrapping at the top of the address space). */
  function Load(m: Memory, a: u32, n: nat): (s: seq<byte>)
    ensures |s| == n
    ensures forall k :: 0 <= k < n ==> s[k] == m[Wrap(a + k)]
  {
    seq(n, k requires 0 <= k < n => m[Wrap(a + k)])
  }

  /**
   * m with the bytes v placed at a, a+1, ... (wrapping); every other byte is kept.
   * This is the one raw write the whole model is built on.
   */
  function Store(m: Memory, a: u32, v: seq<byte>): (r: Memory)
    requires |v| <= SPACE
    ensures forall i :: 0 <= i < SPACE && Offset(i, a) >= |v| ==> r[i] == m[i]
    ensures forall i :: 0 <= i < SPACE && Offset(i, a) < |v| ==> r[i] == v[Offset(i, a)]
  {
    seq(SPACE, i requires 0 <= i < SPACE => if Offset(i, a) < |v| then v[Offset(i, a)] else m[i])
  }

  /** Reading back what was just stored yields it. */
  lemma StoreLoad(m: Memory, a: u32, v: seq<byte>)
    requires |v| <= SPACE
    ensures Load(Store(m, a, v), a, |v|) == v
  {
    var r := Store(m, a, v);
    forall k | 0 <= k < |v|
      ensures Load(r, a, |v|)[k] == v[k]
    {
      OffsetOfShift(a, k);
    }
  }

  /** Storing the bytes that are already there changes nothing. */
  lemma StoreSame(m: Memory, a: u32, n: nat)
    requires n <= SPACE
    ensures Store(m, a, Load(m, a, n)) == m
  {
    var r := Store(m, a, Load(m, a, n));
    forall i | 0 <= i < SPACE
      ensures r[i] == m[i]
    {
      if Offset(i, a) < n {
        ShiftOfOffset(i, a);
      }
    }
  }

  lemma Pow256Values()
    ensures Pow256(1) == 0x100 && Pow256(2) == 0x1_0000 && Pow256(4) == SPACE
  {
    assert Pow256(2) == 256 * Pow256(1);
    assert Pow256(3) == 256 * Pow256(2);
    assert Pow256(4) == 256 * Pow256(3);
  }

  /** Division with remainder by any positive modulus has a unique answer. */
  lemma ModUnique(x: int, d: int, q: int, r: int)
    requires 0 < d && 0 <= r < d && x == q * d + r
    ensures x % d == r
  {
    var q', r' := x / d, x % d;
    assert (q - q') * d == r' - r;
    if q != q' {
      var e := if q > q' then q - q' else q' - q;
      MulAtLeast(e, d);
    }
  }

  lemma MulAtLeast(e: int, d: int)
    requires e >= 1 && d > 0
    ensures e * d >= d
  {
    assert e * d == (e - 1) * d + d;
  }

  /** Storing nothing changes nothing. */
  lemma StoreEmpty(m: Memory, a: u32)
    ensures Store(m, a, []) == m
  {
  }

  /** Where the second of two back-to-back stores starts, measured from the first. */
  lemma OffsetOfNext(i: int, a: u32, n: nat)
    requires 0 <= i < SPACE && n < SPACE
    ensures Offset(i, a) >= n ==> Offset(i, Wrap(a + n)) == Offset(i, a) - n
    ensures Offset(i, a) < n ==> Offset(i, Wrap(a + n)) == Offset(i, a) - n + SPACE
  {
    WrapAdd(i - a, -(n as int));
    var k := WrapResidue(a + n);
    WrapCongruent(i - Wrap(a + n), i - a - n, k);
    var d := Offset(i, a) - n;
    assert Offset(i, Wrap(a + n)) == Wrap(d);
    if d < 0 {
      WrapCongruent(d, d + SPACE, -1);
      WrapIdentity(d + SPACE);
    } else {
      WrapIdentity(d);
    }
  }

  /** Two adjacent stores are one store of the concatenation. */
  lemma StoreAppend(m: Memory, a: u32, u: seq<byte>, v: seq<byte>)
    requires |u| + |v| <= SPACE
    ensures Store(Store(m, a, u), Wrap(a + |u|), v) == Store(m, a, u + v)
  {
    var lhs := Store(Store(m, a, u), Wrap(a + |u|), v);
    var rhs := Store(m, a, u + v);
    forall i | 0 <= i < SPACE
      ensures lhs[i] == rhs[i]
    {
      if |u| < SPACE {
        OffsetOfNext(i, a, |u|);
      } else {
        assert v == [];
        StoreEmpty(Store(m, a, u), Wrap(a + |u|));
      }
    }
  }

  /** Reads an n-byte little-endian unsigned value at address a. */
  function ReadU(m: Memory, a: u32, n: nat): (r: nat)
    ensures r < Pow256(n)
  {
    FromLE(Load(m, a, n))
  }

  /** Read<T>: the value read is the one whose little-endian bytes are those at a. */
  lemma ReadUBytes(m: Memory, a: u32, n: nat)
    ensures ToLE(ReadU(m, a, n), n) == Load(m, a, n)
  {
    ToFromLE(Load(m, a, n));
  }
}
