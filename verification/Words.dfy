/** Bytes, and little-endian words of any width inside a byte sequence. */
module Words {
  type byte = x: int | 0 <= x < 256
  type u32 = x: int | 0 <= x < TWO32

  const TWO16: nat := 0x1_0000
  const TWO32: nat := 0x1_0000_0000
  const TWO64: nat := 0x1_0000_0000_0000_0000

  /** What is left of `x` in an unsigned 32-bit variable: `x` modulo 2^32. */
  function U32(x: nat): (r: nat)
    ensures r < TWO32 && (x < TWO32 ==> r == x)
  {
    if x < TWO32 then x else U32(x - TWO32)
  }

  lemma {:induction false} U32IsModulo(x: nat)
    ensures U32(x) == x % TWO32
  {
    if x >= TWO32 {
      U32IsModulo(x - TWO32);
    }
  }

  /** What is left of `x` in an unsigned 64-bit variable: `x` modulo 2^64. */
  function U64(x: nat): (r: nat)
    ensures r < TWO64 && (x < TWO64 ==> r == x)
  {
    if x < TWO64 then x else U64(x - TWO64)
  }

  lemma {:induction false} U64IsModulo(x: nat)
    ensures U64(x) == x % TWO64
  {
    if x >= TWO64 {
      U64IsModulo(x - TWO64);
    }
  }

  lemma {:induction false} U32Absorbs(a: nat, b: nat)
    ensures U32(U32(a) + b) == U32(a + b)
  {
    if a >= TWO32 {
      U32Absorbs(a - TWO32, b);
    }
  }

  /** Cutting a summand first makes no difference to the sum in the variable. */
  lemma {:induction false} U64Absorbs(a: nat, b: nat)
    ensures U64(U64(a) + b) == U64(a + b)
  {
    if a >= TWO64 {
      U64Absorbs(a - TWO64, b);
    }
  }

  function Lesser(a: nat, b: nat): nat { if a <= b then a else b }

  function Reversed<T>(s: seq<T>): (r: seq<T>)
    ensures |r| == |s|
    ensures forall i :: 0 <= i < |s| ==> r[i] == s[|s| - 1 - i]
  {
    if s == [] then [] else Reversed(s[1..]) + [s[0]]
  }

  // 256 to the power `w`: the number of values of a word of `w` bytes.
  function Span(w: nat): (p: nat)
    ensures p > 0
  {
    if w == 0 then 1 else 256 * Span(w - 1)
  }

  lemma Spans()
    ensures Span(2) == TWO16 && Span(4) == TWO32 && Span(8) == TWO64
  {
    assert Span(1) == 256 && Span(3) == 0x100_0000;
    assert Span(5) == 0x100_0000_0000 && Span(6) == 0x1_0000_0000_0000 && Span(7) == 0x100_0000_0000_0000;
  }

  function Value(s: seq<byte>): (v: nat)
    ensures v < Span(|s|)
  {
    if s == [] then 0 else s[0] + 256 * Value(s[1..])
  }

  function Encode(v: nat, w: nat): (s: seq<byte>)
    ensures |s| == w
  {
    if w == 0 then [] else [v % 256] + Encode(v / 256, w - 1)
  }

  lemma {:induction false} ModStep(v: nat, p: nat)
    requires p > 0
    ensures v % 256 + 256 * ((v / 256) % p) == v % (256 * p)
  {
    var q, r := (v / 256) / p, (v / 256) % p;
    assert v == 256 * (v / 256) + v % 256;
    assert v / 256 == p * q + r;
    assert 256 * (p * q) == (256 * p) * q;
    assert v == (256 * p) * q + (v % 256 + 256 * r);
    DivUnique(v, 256 * p, q, v % 256 + 256 * r);
  }

  lemma MulAtLeast(m: int, k: int)
    requires m > 0 && k >= 1
    ensures m * k >= m
  {
    assert m * k == m * (k - 1) + m;
  }

  lemma DivUnique(x: int, m: int, q: int, r: int)
    requires m > 0 && 0 <= r < m && x == m * q + r
    ensures x / m == q && x % m == r
  {
    var k := q - x / m;
    assert x == m * (x / m) + x % m;
    assert m * k == m * q - m * (x / m);
    if k >= 1 {
      MulAtLeast(m, k);
    }
    if k <= -1 {
      MulAtLeast(m, -k);
    }
  }

  /** Decoding what was encoded gives the value back, modulo the word's size. */
  lemma {:induction false} ValueOfEncode(v: nat, w: nat)
    ensures Value(Encode(v, w)) == v % Span(w)
  {
    if w > 0 {
      ValueOfEncode(v / 256, w - 1);
      assert Encode(v, w)[1..] == Encode(v / 256, w - 1);
      ModStep(v, Span(w - 1));
    }
  }

  /** Two words with the same value are the same bytes. */
  lemma {:induction false} ValueInjective(s: seq<byte>, t: seq<byte>)
    requires |s| == |t| && Value(s) == Value(t)
    ensures s == t
  {
    if s != [] {
      assert s[0] == Value(s) % 256 && t[0] == Value(t) % 256;
      ValueInjective(s[1..], t[1..]);
      assert s == [s[0]] + s[1..] && t == [t[0]] + t[1..];
    }
  }

  function Read(m: seq<byte>, a: nat, w: nat): (v: nat)
    requires a + w <= |m|
    ensures v < Span(w)
  {
    Value(m[a..a + w])
  }

  function Write(m: seq<byte>, a: nat, w: nat, v: nat): (m': seq<byte>)
    requires a + w <= |m|
    ensures |m'| == |m|
  {
    m[..a] + Encode(v, w) + m[a + w..]
  }

  // What is left of `v` in a word of `w` bytes.
  function Low(v: nat, w: nat): nat {
    Value(Encode(v, w))
  }

  lemma LowIsModulo(v: nat, w: nat)
    ensures w == 2 ==> Low(v, w) == v % TWO16
    ensures w == 4 ==> Low(v, w) == v % TWO32
    ensures w == 8 ==> Low(v, w) == v % TWO64
  {
    Spans();
    ValueOfEncode(v, w);
  }

  lemma LowIsTruncation(v: nat, w: nat)
    ensures w == 4 ==> Low(v, w) == U32(v)
    ensures w == 8 ==> Low(v, w) == U64(v)
  {
    LowIsModulo(v, w);
    if w == 4 {
      U32IsModulo(v);
    } else {
      U64IsModulo(v);
    }
  }

  // A value that fits its word is kept.
  lemma LowKeeps(v: nat, w: nat)
    requires v < Span(w)
    ensures Low(v, w) == v
  {
    ValueOfEncode(v, w);
    DivUnique(v, Span(w), 0, v);
  }

  lemma ReadWritten(m: seq<byte>, a: nat, w: nat, v: nat)
    requires a + w <= |m|
    ensures Read(Write(m, a, w, v), a, w) == Low(v, w)
    ensures forall i :: 0 <= i < |m| && !(a <= i < a + w) ==> Write(m, a, w, v)[i] == m[i]
  {
    assert Write(m, a, w, v)[a..a + w] == Encode(v, w);
  }

  lemma ReadApart(m: seq<byte>, a: nat, w: nat, v: nat, b: nat, u: nat)
    requires a + w <= |m| && b + u <= |m|
    requires a + w <= b || b + u <= a
    ensures Read(Write(m, a, w, v), b, u) == Read(m, b, u)
  {
    assert Write(m, a, w, v)[b..b + u] == m[b..b + u];
  }

  /** Stores the low `w` bytes of `v` at `a`, as a word store does. */
  method Store(mem: array<byte>, a: nat, w: nat, v: nat)
    requires a + w <= mem.Length
    modifies mem
    ensures mem[..] == Write(old(mem[..]), a, w, v)
  {
    var bytes := Encode(v, w);
    forall i | 0 <= i < w {
      mem[a + i] := bytes[i];
    }
  }
}
