/**
 The Internet checksum: one's complement sums of big-endian 16-bit words. RFC 1071,
 section 1.
 */
module Checksum {
  import opened Words

  /** The word with the given high and low bytes. */
  function Join(hi: byte, lo: byte): (w: nat)
    ensures w < TWO16
  {
    hi as int * 256 + lo
  }

  function Word(s: seq<byte>, k: nat): (w: nat)
    requires k + 1 < |s|
    ensures w < TWO16
  {
    Join(s[k], s[k + 1])
  }

  /** The sum of the big-endian words; an odd last byte is padded with a zero byte. */
  function WordSum(s: seq<byte>): (n: nat)
    ensures n <= 32768 * |s| + 32767
  {
    if s == [] then 0
    else if |s| == 1 then Join(s[0], 0)
    else Word(s, 0) + WordSum(s[2..])
  }

  /** The one's complement sum of 16-bit words with the plain sum `n`: carries come back in. */
  function OnesSum(n: nat): (r: nat)
    ensures r < TWO16 && (n == 0 <==> r == 0)
  {
    if n < TWO16 then n else OnesSum(n - 65535)
  }

  function Sum(s: seq<byte>): (c: nat)
    ensures c < TWO16
  {
    65535 - OnesSum(WordSum(s))
  }

  // ---------------------------------------------------------------- arithmetic of the sum

  lemma {:induction false} OnesTurns(x: nat, m: nat)
    requires x > 0
    ensures OnesSum(x + 65535 * m) == OnesSum(x)
  {
    if m > 0 {
      OnesTurns(x, m - 1);
      assert x + 65535 * m - 65535 == x + 65535 * (m - 1);
    }
  }

  // The turns taken out of a sum.
  lemma {:induction false} Turns(n: nat) returns (m: nat)
    ensures n == OnesSum(n) + 65535 * m
  {
    if n < TWO16 {
      m := 0;
    } else {
      m := Turns(n - 65535);
      m := m + 1;
    }
  }

  /** The one's complement sum is the sum modulo 65535, with 65535 for the nonzero multiples. */
  lemma OnesIsModulo(n: nat)
    ensures OnesSum(n) == if n == 0 then 0 else 1 + (n - 1) % 65535
  {
    if n > 0 {
      var m := Turns(n);
      DivUnique(n - 1, 65535, m, OnesSum(n) - 1);
    }
  }

  /** Two sums have the same one's complement sum exactly when they are both zero, or neither
      is and they differ by a multiple of 65535. */
  lemma SameOnesIff(a: nat, b: nat)
    requires a > 0 && b > 0
    ensures OnesSum(a) == OnesSum(b) <==> exists m: int :: a == b + 65535 * m
  {
    var i: int := Turns(a);
    var j: int := Turns(b);
    if OnesSum(a) == OnesSum(b) {
      var d: int := i - j;
      assert a == b + 65535 * d;
    }
    if m: int :| a == b + 65535 * m {
      if m >= 0 {
        OnesTurns(b, m);
      } else {
        OnesTurns(a, -m);
        assert a + 65535 * -m == b;
      }
    }
  }

  // One turn of the folding loop.
  lemma FoldStep(sum: nat)
    requires sum >= TWO16
    ensures var next := sum % TWO16 + sum / TWO16; next < sum && OnesSum(next) == OnesSum(sum)
  {
    var q, r := sum / TWO16, sum % TWO16;
    assert sum == (q + r) + 65535 * q;
    OnesTurns(q + r, q);
  }

  /** net_checksum. The running sum is a 32-bit variable that never overflows. */
  method NetChecksum(buf: array<byte>, len: nat) returns (r: nat)
    requires len <= buf.Length && len < TWO16
    ensures r == Sum(buf[..len])
  {
    hide WordSum, OnesSum;
    ghost var s := buf[..len];
    var sum: u32 := 0;
    var i := 0;
    assert s[0..] == s;
    while len - i > 1
      invariant i <= len && buf[..len] == s
      invariant sum <= 32768 * i && sum + WordSum(s[i..]) == WordSum(s)
    {
      NextWord(s, i);
      sum := sum + Join(buf[i], buf[i + 1]);
      i := i + 2;
    }
    LastByte(s, i);
    if len - i == 1 {
      sum := sum + Join(buf[i], 0);
    }
    assert sum == WordSum(s);
    while sum / TWO16 != 0
      invariant OnesSum(sum) == OnesSum(WordSum(s))
      decreases sum
    {
      FoldStep(sum);
      sum := sum % TWO16 + sum / TWO16;
    }
    Folded(sum);
    return 65535 - sum;
  }

  lemma NextWord(s: seq<byte>, i: nat)
    requires i + 1 < |s|
    ensures WordSum(s[i..]) == Word(s, i) + WordSum(s[i + 2..])
  {
    assert s[i..][2..] == s[i + 2..];
  }

  lemma LastByte(s: seq<byte>, i: nat)
    requires |s| - 1 <= i <= |s|
    ensures WordSum(s[i..]) == if i < |s| then Join(s[i], 0) else 0
  {
  }

  lemma Folded(sum: nat)
    requires sum < TWO16
    ensures OnesSum(sum) == sum
  {
  }

  // ---------------------------------------------------------------- laws

  /** The checksum is minus the sum of the words modulo 65535, and 65535 for a zero sum only. */
  lemma SumIsMinus(s: seq<byte>)
    ensures (Sum(s) + WordSum(s)) % 65535 == 0
    ensures Sum(s) == 65535 <==> forall i :: 0 <= i < |s| ==> s[i] == 0
  {
    hide WordSum;
    var m := Turns(WordSum(s));
    DivUnique(Sum(s) + WordSum(s), 65535, m + 1, 0);
    ZeroSum(s);
  }

  lemma {:induction false} ZeroSum(s: seq<byte>)
    ensures WordSum(s) == 0 <==> forall i :: 0 <= i < |s| ==> s[i] == 0
  {
    if |s| == 1 {
    } else if |s| > 1 {
      ZeroSum(s[2..]);
      assert forall i :: 2 <= i < |s| ==> s[i] == s[2..][i - 2];
      assert forall i :: 0 <= i < |s| - 2 ==> s[2..][i] == s[i + 2];
    }
  }

  /** A byte counts 256 times at an even place and once at an odd one, whatever the length of
      the message: an odd last byte is padded behind, not in front. */
  lemma {:induction false} ByteWeight(s: seq<byte>, k: nat, b: byte)
    requires k < |s|
    ensures WordSum(s[k := b]) - WordSum(s) == (b - s[k]) * if k % 2 == 0 then 256 else 1
  {
    var r := s[k := b];
    if k < 2 {
      assert |s| > 1 ==> r[2..] == s[2..];
    } else {
      ByteWeight(s[2..], k - 2, b);
      assert r[2..] == s[2..][k - 2 := b] && Word(r, 0) == Word(s, 0);
    }
  }

  // A message with the word at `k` replaced.
  function PutWord(s: seq<byte>, k: nat, v: nat): (r: seq<byte>)
    requires k + 1 < |s| && v < TWO16
    ensures |r| == |s|
  {
    s[k := v / 256][k + 1 := v % 256]
  }

  lemma {:induction false} PutWordSum(s: seq<byte>, k: nat, v: nat)
    requires k + 1 < |s| && k % 2 == 0 && v < TWO16
    ensures WordSum(PutWord(s, k, v)) + Word(s, k) == WordSum(s) + v && Word(PutWord(s, k, v), k) == v
  {
    var r := PutWord(s, k, v);
    if k == 0 {
      assert r[2..] == s[2..];
    } else {
      PutWordSum(s[2..], k - 2, v);
      assert r[2..] == PutWord(s[2..], k - 2, v);
      assert Word(r, 0) == Word(s, 0);
    }
  }

  /** With a zero field at `k` filled in big-endian, the whole sums to zero exactly when the
      field is the checksum, up to the two ways to write zero. */
  lemma SumsToZeroIff(s: seq<byte>, k: nat, v: nat)
    requires k + 1 < |s| && k % 2 == 0 && v < TWO16 && Word(s, k) == 0
    ensures Sum(PutWord(s, k, v)) == 0 <==> v == Sum(s) || (v == 65535 && Sum(s) == 0)
  {
    var w := WordSum(s);
    PutWordSum(s, k, v);
    OnesIsModulo(65535);
    if w + v > 0 {
      SameOnesIff(w + v, 65535);
      var m := Turns(w);
      if j: int :| w + v == 65535 + 65535 * j {
        assert OnesSum(w) + v == 65535 * (1 + j - m);
        Multiple(OnesSum(w) + v, 1 + j - m);
      }
      if v == Sum(s) {
        assert w + v == 65535 + 65535 * m;
      } else if v == 65535 && Sum(s) == 0 {
        assert w + v == 65535 + 65535 * (m + 1);
      }
    }
  }

  lemma Multiple(x: nat, m: int)
    requires x == 65535 * m && x <= 2 * 65535
    ensures m == 0 || m == 1 || m == 2
  {
  }

  lemma SmallMultiple(x: int, m: int)
    requires x == 65535 * m && -65536 < x < 65536
    ensures x == -65535 || x == 0 || x == 65535
  {
  }

  predicate AllZero(s: seq<byte>) {
    forall i :: 0 <= i < |s| ==> s[i] == 0
  }

  /** Replacing one word of a message, neither before nor after all zeros, keeps its checksum
      exactly when the word stays or goes from one way to write zero to the other. */
  lemma OneWordIff(s: seq<byte>, k: nat, v: nat)
    requires k + 1 < |s| && k % 2 == 0 && v < TWO16
    requires !AllZero(s) && !AllZero(PutWord(s, k, v))
    ensures Sum(PutWord(s, k, v)) == Sum(s)
      <==> v == Word(s, k) || (v == 0 && Word(s, k) == 65535) || (v == 65535 && Word(s, k) == 0)
  {
    hide WordSum, OnesSum;
    var r := PutWord(s, k, v);
    ZeroSum(s);
    ZeroSum(r);
    PutWordSum(s, k, v);
    var a, b := WordSum(r), WordSum(s);
    SameOnesIff(a, b);
    if m: int :| a == b + 65535 * m {
      SmallMultiple(v - Word(s, k), m);
    }
    if v == 0 && Word(s, k) == 65535 {
      assert a == b + 65535 * -1;
    } else if v == 65535 && Word(s, k) == 0 {
      assert a == b + 65535 * 1;
    } else if v == Word(s, k) {
      assert a == b + 65535 * 0;
    }
  }
}
