/** Words, the two-word Prefix key of the chain table, and the rolling hash
    the table uses for that key. */
module Prefixes {

  /** One byte of the UTF-8 corpus text. */
  newtype byte = x: int | 0 <= x < 256

  /** An unsigned 32-bit machine word. */
  newtype u32 = x: int | 0 <= x < 0x1_0000_0000

  const U32_MODULUS: int := 0x1_0000_0000

  /** The hash multiplier. */
  const MULTIPLIER: int := 31

  /** A word is the byte content of one whitespace-delimited token. */
  type Word = seq<byte>

  /** The two words immediately preceding the next word. Equality is
      structural on both words, in order. */
  datatype Prefix = Prefix(a: Word, b: Word)
  {
    /** The hash of the key: the rolling hash run over the bytes of `a`
        and then over the bytes of `b`, with 32-bit wrap-around. */
    method Hash() returns (h: u32)
      ensures h == HashBytes(a + b)
    {
      h := 0;
      for i := 0 to |a|
        invariant h == HashBytes(a[..i])
      {
        assert a[..i + 1][..i] == a[..i];
        h := Mix(h, a[i]);
      }
      assert a[..|a|] == a && a + b[..0] == a;
      for j := 0 to |b|
        invariant h == HashBytes(a + b[..j])
      {
        assert (a + b[..j + 1])[..|a| + j] == a + b[..j];
        h := Mix(h, b[j]);
      }
      assert b[..|b|] == b;
    }
  }

  /** One step of the rolling hash, `MULTIPLIER * h + p` on u32 with
      wrap-around. */
  function Mix(h: u32, p: byte): u32
  {
    ((MULTIPLIER * h as int + p as int) % U32_MODULUS) as u32
  }

  /** The hash of a byte sequence: Mix folded over the bytes from the left,
      starting from 0. */
  function HashBytes(s: seq<byte>): u32
  {
    if s == [] then 0 else Mix(HashBytes(s[..|s| - 1]), s[|s| - 1])
  }

  function Pow(base: nat, e: nat): nat
  {
    if e == 0 then 1 else base * Pow(base, e - 1)
  }

  /** Reference definition of the hash without wrap-around: the polynomial
      s[0]*31^(n-1) + s[1]*31^(n-2) + ... + s[n-1]. */
  function Poly(s: seq<byte>): nat
  {
    if s == [] then 0 else s[0] as nat * Pow(MULTIPLIER, |s| - 1) + Poly(s[1..])
  }

  lemma {:induction false} PolySnoc(s: seq<byte>, x: byte)
    ensures Poly(s + [x]) == MULTIPLIER * Poly(s) + x as nat
  {
    if s == [] {
      assert s + [x] == [x];
      assert [x][1..] == [];
    } else {
      var t := s + [x];
      assert t[1..] == s[1..] + [x];
      PolySnoc(s[1..], x);
      var c := s[0] as nat;
      var p := Pow(MULTIPLIER, |s| - 1);
      var q := Poly(s[1..]);
      assert Pow(MULTIPLIER, |t| - 1) == MULTIPLIER * p;
      assert Poly(t) == c * (MULTIPLIER * p) + (MULTIPLIER * q + x as nat);
      assert c * (MULTIPLIER * p) + MULTIPLIER * q == MULTIPLIER * (c * p + q);
    }
  }

  /** Reducing modulo 2^32 before or after one hash step gives the same
      value: the two arguments differ by a multiple of 2^32. */
  lemma MixMod(v: nat, x: nat)
    ensures (MULTIPLIER * (v % U32_MODULUS) + x) % U32_MODULUS == (MULTIPLIER * v + x) % U32_MODULUS
  {
  }

  /** The wrapping rolling hash is the polynomial reduced modulo 2^32. */
  lemma {:induction false} HashIsPolynomial(s: seq<byte>)
    ensures HashBytes(s) as int == Poly(s) % U32_MODULUS
  {
    if s != [] {
      var u := s[..|s| - 1];
      var x := s[|s| - 1];
      assert s == u + [x];
      HashIsPolynomial(u);
      PolySnoc(u, x);
      MixMod(Poly(u), x as nat);
    }
  }

  /** Equal prefixes hash equal, but the hash only sees the concatenation
      `a + b`: ("ab", "c") and ("a", "bc") are different keys with the
      same hash, so the table must compare keys by equality. */
  lemma HashCollision(p: Prefix, q: Prefix)
    requires p == Prefix([97, 98], [99]) && q == Prefix([97], [98, 99])
    ensures p != q
    ensures HashBytes(p.a + p.b) == HashBytes(q.a + q.b)
  {
    assert p.a + p.b == q.a + q.b;
  }
}
