/**
 Printing a number digit by digit with an in-place reversal, and parsing dotted quads.
 */
module Itoa {
  import opened Bits
  import opened Words

  // ---------------------------------------------------------------- numerals

  predicate IsBase(b: int) { 2 <= b <= 16 }

  function DigitChar(d: nat, upper: bool): (c: char)
    requires d < 16
  {
    if d < 10 then '0' + d as char else (if upper then 'A' else 'a') + (d - 10) as char
  }

  function DigitOf(c: char): nat {
    if '0' <= c <= '9' then (c - '0') as nat
    else if 'a' <= c <= 'f' then (c - 'a') as nat + 10
    else if 'A' <= c <= 'F' then (c - 'A') as nat + 10
    else 0
  }

  lemma DigitBack(d: nat, upper: bool)
    requires d < 16
    ensures DigitOf(DigitChar(d, upper)) == d && DigitChar(d, upper) != '\0'
    ensures d < 10 ==> '0' <= DigitChar(d, upper) <= '9'
    ensures DigitChar(d, upper) == '0' <==> d == 0
  {
  }

  /** The sixteen digits. */
  lemma DigitLetters(d: nat)
    requires d < 16
    ensures DigitChar(d, true) == "0123456789ABCDEF"[d] && DigitChar(d, false) == "0123456789abcdef"[d]
  {
  }

  /** The numeral of a value: most significant digit first. */
  function Digits(v: nat, b: nat, upper: bool): (s: string)
    requires IsBase(b)
    ensures s != ""
  {
    if v < b then [DigitChar(v, upper)] else Digits(v / b, b, upper) + [DigitChar(v % b, upper)]
  }

  /** The value of a numeral. */
  function Eval(s: string, b: nat): nat {
    if s == "" then 0 else b * Eval(s[..|s| - 1], b) + DigitOf(s[|s| - 1])
  }

  /** The digits evaluate back to the value, with no leading zero. */
  lemma {:induction false} EvalOfDigits(v: nat, b: nat, upper: bool)
    requires IsBase(b)
    ensures Eval(Digits(v, b, upper), b) == v
    ensures v > 0 ==> Digits(v, b, upper)[0] != '0'
    decreases v
  {
    var s := Digits(v, b, upper);
    DigitBack(v % b, upper);
    if v < b {
      DigitBack(v, upper);
      assert s[..0] == "";
    } else {
      QuotientSmaller(v, b);
      EvalOfDigits(v / b, b, upper);
      assert s[..|s| - 1] == Digits(v / b, b, upper);
    }
  }

  lemma QuotientSmaller(v: nat, b: nat)
    requires b >= 2 && v >= b
    ensures 0 < v / b < v && v == b * (v / b) + v % b && 0 <= v % b < b
  {
  }

  function Pow(b: nat, n: nat): nat {
    if n == 0 then 1 else b * Pow(b, n - 1)
  }

  /** A value has at most `n` digits exactly when it is less than the `n`th power of the base. */
  lemma {:induction false} LengthIff(v: nat, b: nat, upper: bool, n: nat)
    requires IsBase(b) && n > 0
    ensures |Digits(v, b, upper)| <= n <==> v < Pow(b, n)
    decreases n
  {
    if n == 1 {
      assert Pow(b, 1) == b * Pow(b, 0) == b;
    } else if v < b {
      PowAtLeast(b, n);
    } else {
      LengthIff(v / b, b, upper, n - 1);
      QuotientBelowIff(v, b, Pow(b, n - 1));
    }
  }

  lemma QuotientBelowIff(v: nat, b: nat, p: nat)
    requires b > 0
    ensures v / b < p <==> v < b * p
  {
    var q := v / b;
    assert v == b * q + v % b;
    if q < p {
      assert b * p == b * q + b * (p - q);
      MulAtLeast(b, p - q);
    } else {
      assert b * q == b * p + b * (q - p);
    }
  }

  lemma {:induction false} PowAtLeast(b: nat, n: nat)
    requires b >= 1 && n >= 1
    ensures Pow(b, n) >= b && Pow(b, n) > 0
  {
    if n == 1 {
      assert Pow(b, 1) == b * Pow(b, 0) == b;
    } else {
      PowAtLeast(b, n - 1);
      MulAtLeast(b, Pow(b, n - 1));
    }
  }

  lemma {:induction false} PowGrows(b: nat, c: nat, n: nat)
    requires b <= c
    ensures Pow(b, n) <= Pow(c, n)
  {
    if n > 0 {
      PowGrows(b, c, n - 1);
      assert b * Pow(b, n - 1) <= c * Pow(c, n - 1) by {
        MulGrows(b, c, Pow(b, n - 1), Pow(c, n - 1));
      }
    }
  }

  lemma MulGrows(a: nat, b: nat, x: nat, y: nat)
    requires a <= b && x <= y
    ensures a * x <= b * y
  {
    assert b * y == a * x + a * (y - x) + (b - a) * y;
  }

  lemma {:induction false} PowSum(b: nat, m: nat, n: nat)
    ensures Pow(b, m + n) == Pow(b, m) * Pow(b, n)
  {
    if m > 0 {
      PowSum(b, m - 1, n);
      assert b * (Pow(b, m - 1) * Pow(b, n)) == b * Pow(b, m - 1) * Pow(b, n);
    }
  }

  /** The printing buffer of 32 characters holds every 64-bit value exactly for the bases
      from 5 on; in base 10 at most 20 digits are used, in base 16 at most 16. */
  lemma BufferFitsIff(b: nat, upper: bool)
    requires IsBase(b)
    ensures (forall v :: 0 <= v < TWO64 ==> |Digits(v, b, upper)| + 1 <= 32) <==> b >= 5
    ensures forall v :: 0 <= v < TWO64 ==> |Digits(v, 10, upper)| <= 20 && |Digits(v, 16, upper)| <= 16
  {
    Powers();
    if b >= 5 {
      PowGrows(5, b, 31);
      forall v | 0 <= v < TWO64
        ensures |Digits(v, b, upper)| + 1 <= 32
      {
        LengthIff(v, b, upper, 31);
      }
    } else {
      PowGrows(b, 4, 31);
      LengthIff(TWO64 - 1, b, upper, 31);
    }
    forall v | 0 <= v < TWO64
      ensures |Digits(v, 10, upper)| <= 20 && |Digits(v, 16, upper)| <= 16
    {
      LengthIff(v, 10, upper, 20);
      LengthIff(v, 16, upper, 16);
    }
  }

  lemma Powers()
    ensures Pow(5, 31) >= TWO64 && Pow(4, 31) < TWO64 && Pow(10, 20) >= TWO64 && Pow(16, 16) == TWO64
  {
    Fourths(5);
    Fourths(4);
    Fourths(10);
    Fourths(16);
    PowSum(5, 16, 8);
    PowSum(5, 24, 7);
    PowSum(4, 16, 8);
    PowSum(4, 24, 7);
    PowSum(10, 16, 4);
  }

  lemma Fourths(b: nat)
    ensures Pow(b, 4) == b * b * b * b && Pow(b, 7) == b * b * b * Pow(b, 4)
    ensures Pow(b, 8) == Pow(b, 4) * Pow(b, 4) && Pow(b, 16) == Pow(b, 8) * Pow(b, 8)
  {
    assert Pow(b, 1) == b && Pow(b, 2) == b * b && Pow(b, 3) == b * (b * b);
    assert Pow(b, 3) == b * b * b;
    PowSum(b, 3, 4);
    PowSum(b, 4, 4);
    PowSum(b, 8, 8);
  }

  // ---------------------------------------------------------------- printing

  lemma ReverseTwice(s: string)
    ensures Reversed(Reversed(s)) == s
  {
  }

  lemma {:induction false} ReverseAppend(s: string, c: char)
    ensures Reversed(s + [c]) == [c] + Reversed(s)
  {
    if s == "" {
      assert s + [c] == [c];
    } else {
      ReverseAppend(s[1..], c);
      assert (s + [c])[1..] == s[1..] + [c];
    }
  }

  /** itoa_base: the digits come out backwards and are turned round in place. */
  method ItoaBase(value: nat, str: array<char>, base: nat, upper: bool)
    requires value < TWO64 && IsBase(base) && |Digits(value, base, upper)| + 1 <= str.Length
    modifies str
    ensures var s := Digits(value, base, upper);
      str[..|s|] == s && str[|s|] == '\0' && str[|s| + 1..] == old(str[|s| + 1..])
  {
    hide Reversed, DigitChar;
    if value == 0 {
      DigitBack(0, upper);
      str[0] := '0';
      str[1] := '\0';
      return;
    }
    ghost var s := Digits(value, base, upper);
    var len := Emit(value, str, base, upper);
    str[len] := '\0';
    ReverseTwice(s);
    TurnRound(str, len);
  }

  // Writes the digits, the last one first.
  method Emit(value: nat, str: array<char>, base: nat, upper: bool) returns (len: nat)
    requires value > 0 && IsBase(base) && |Digits(value, base, upper)| + 1 <= str.Length
    modifies str
    ensures len == |Digits(value, base, upper)| && str[..len] == Reversed(Digits(value, base, upper))
    ensures str[len + 1..] == old(str[len + 1..])
  {
    hide Digits, Reversed, DigitChar, Left;
    EmptyLeft(value, base, upper);
    ghost var goal := Left(value, base, upper);
    var v: nat := value;
    len := 0;
    assert goal == str[..0] + goal;
    while v > 0
      invariant len <= |goal| < str.Length && goal == str[..len] + Left(v, base, upper)
      invariant str[|goal| + 1..] == old(str[|goal| + 1..])
      decreases v
    {
      PutDigit(v, str, base, upper, len);
      len := len + 1;
      v := v / base;
    }
    assert str[..len] + "" == str[..len];
  }

  method PutDigit(v: nat, str: array<char>, base: nat, upper: bool, len: nat)
    requires v > 0 && IsBase(base) && len < str.Length
    modifies str
    ensures v / base < v && str[..len + 1] + Left(v / base, base, upper) == old(str[..len]) + Left(v, base, upper)
    ensures str[len + 1..] == old(str[len + 1..])
  {
    hide Left, DigitChar;
    LeftStep(v, base, upper);
    var c := DigitChar(v % base, upper);
    Regroup(str[..len], c, Left(v / base, base, upper));
    str[len] := c;
    assert str[..len + 1] == old(str[..len]) + [c];
  }

  lemma Regroup(a: string, c: char, rest: string)
    ensures a + [c] + rest == a + ([c] + rest)
  {
  }

  // The digits still to be written, backwards.
  function Left(v: nat, b: nat, upper: bool): string
    requires IsBase(b)
  {
    if v == 0 then "" else Reversed(Digits(v, b, upper))
  }

  lemma EmptyLeft(v: nat, b: nat, upper: bool)
    requires IsBase(b)
    ensures Left(0, b, upper) == "" && |Left(v, b, upper)| <= |Digits(v, b, upper)|
    ensures v > 0 ==> Left(v, b, upper) == Reversed(Digits(v, b, upper))
  {
  }

  lemma LeftStep(v: nat, b: nat, upper: bool)
    requires IsBase(b) && v > 0
    ensures v / b < v && Left(v, b, upper) == [DigitChar(v % b, upper)] + Left(v / b, b, upper)
  {
    if v < b {
      DivUnique(v, b, 0, v);
      assert Digits(v, b, upper) == "" + [DigitChar(v, upper)];
      ReverseAppend("", DigitChar(v, upper));
    } else {
      QuotientSmaller(v, b);
      ReverseAppend(Digits(v / b, b, upper), DigitChar(v % b, upper));
    }
  }

  // Reverses the first `n` characters by swapping from both ends.
  method TurnRound(str: array<char>, n: nat)
    requires 0 < n <= str.Length
    modifies str
    ensures str[..n] == Reversed(old(str[..n])) && str[n..] == old(str[n..])
  {
    hide Reversed;
    var low, high := 0, n - 1;
    while low < high
      invariant 0 <= low <= n && low + high == n - 1
      invariant forall k :: 0 <= k < str.Length ==>
                  str[k] == old(str[..])[if k < n && (k < low || high < k) then n - 1 - k else k]
    {
      str[low], str[high] := str[high], str[low];
      low, high := low + 1, high - 1;
    }
    ghost var was := old(str[..n]);
    assert forall k :: 0 <= k < n ==> str[k] == was[n - 1 - k];
    IsReverse(str[..n], was);
  }

  lemma IsReverse(r: string, s: string)
    requires |r| == |s| && forall k :: 0 <= k < |s| ==> r[k] == s[|s| - 1 - k]
    ensures r == Reversed(s)
  {
  }

  // ---------------------------------------------------------------- dotted quads

  /** ip_from_bytes. */
  function IpFromBytes(a: nat, b: nat, c: nat, d: nat): nat {
    BitOr(BitOr(BitOr(U32(a * 0x100_0000), U32(b * 0x1_0000)), U32(c * 0x100)), d)
  }

  /** The bytes of an address do not overlap: each can be read back. */
  lemma IpIsSum(a: nat, b: nat, c: nat, d: nat)
    requires a < 256 && b < 256 && c < 256 && d < 256
    ensures IpFromBytes(a, b, c, d) == a * 0x100_0000 + b * 0x1_0000 + c * 0x100 + d
  {
    OrOfBytes(a, b, c, d);
  }

  datatype Scan = Bad | Parts(parts: seq<nat>)

  predicate IsDigit(c: char) { '0' <= c <= '9' }

  // The scan over the rest of a string, with the part that is being read.
  function ScanFrom(parts: seq<nat>, part: nat, s: string): (r: Scan)
    requires |parts| == 4
    ensures r.Parts? ==> |r.parts| == 4
    decreases |s|
  {
    if s == "" || part >= 4 then Parts(parts)
    else if s[0] == '.' then ScanFrom(parts, part + 1, s[1..])
    else if IsDigit(s[0]) then ScanFrom(parts[part := U32(parts[part] * 10 + DigitOf(s[0]))], part, s[1..])
    else Bad
  }

  function Parse(s: string): nat {
    match ScanFrom([0, 0, 0, 0], 0, s)
    case Bad => 0
    case Parts(p) => IpFromBytes(p[0], p[1], p[2], p[3])
  }

  /** tcp_parse_ipv4. */
  method ParseIpv4(s: string) returns (ip: nat)
    ensures ip == Parse(s)
  {
    var parts := new nat[4](_ => 0);
    var part, p := 0, 0;
    assert parts[..] == [0, 0, 0, 0] && s[0..] == s;
    while p < |s| && part < 4
      invariant p <= |s| && part <= 4
      invariant ScanFrom([0, 0, 0, 0], 0, s) == ScanFrom(parts[..], part, s[p..])
    {
      assert s[p..][1..] == s[p + 1..];
      if s[p] == '.' {
        part := part + 1;
      } else if '0' <= s[p] <= '9' {
        ghost var was := parts[..];
        parts[part] := U32(parts[part] * 10 + DigitOf(s[p]));
        assert parts[..] == was[part := U32(was[part] * 10 + DigitOf(s[p]))];
      } else {
        return 0;
      }
      p := p + 1;
    }
    return IpFromBytes(parts[0], parts[1], parts[2], parts[3]);
  }

  // Scanning a decimal numeral reads its value.
  lemma {:induction false} ScanDigits(parts: seq<nat>, part: nat, v: nat, rest: string)
    requires |parts| == 4 && part < 4 && v < TWO32
    ensures ScanFrom(parts[part := 0], part, Digits(v, 10, false) + rest) == ScanFrom(parts[part := v], part, rest)
    decreases v
  {
    var z, d := parts[part := 0], v % 10;
    var c := DigitChar(d, false);
    DigitBack(d, false);
    assert ([c] + rest)[1..] == rest;
    if v < 10 {
      assert z[part := v] == parts[part := v];
    } else {
      var q := v / 10;
      ScanDigits(parts, part, q, [c] + rest);
      assert Digits(v, 10, false) + rest == Digits(q, 10, false) + ([c] + rest);
      assert parts[part := q][part := v] == parts[part := v];
    }
  }

  function Dots(s: string): nat {
    if s == "" then 0 else Dots(s[..|s| - 1]) + if s[|s| - 1] == '.' then 1 else 0
  }

  lemma {:induction false} DotsInFront(c: char, s: string)
    ensures Dots([c] + s) == Dots(s) + if c == '.' then 1 else 0
  {
    if s == "" {
      assert [c][..0] == "" && [c] + s == [c];
    } else {
      DotsInFront(c, s[..|s| - 1]);
      assert ([c] + s)[..|s|] == [c] + s[..|s| - 1];
    }
  }

  predicate Refused(s: string, part: nat, i: nat)
    requires i < |s|
  {
    s[i] != '.' && !('0' <= s[i] <= '9') && part + Dots(s[..i]) < 4
  }

  /** A string is rejected exactly for a character that is neither digit nor dot and stands
      before the fourth dot. */
  lemma {:induction false} BadIff(parts: seq<nat>, part: nat, s: string)
    requires |parts| == 4 && part <= 4
    ensures ScanFrom(parts, part, s).Bad? <==> exists i :: 0 <= i < |s| && Refused(s, part, i)
    decreases |s|
  {
    if s != "" {
      var rest := s[1..];
      assert s == [s[0]] + rest;
      forall i | 0 <= i < |rest|
        ensures Dots(s[..i + 1]) == Dots(rest[..i]) + if s[0] == '.' then 1 else 0
      {
        DotsInFront(s[0], rest[..i]);
        assert s[..i + 1] == [s[0]] + rest[..i];
      }
      if part < 4 && (s[0] == '.' || IsDigit(s[0])) {
        var next := if s[0] == '.' then part + 1 else part;
        BadIff(if s[0] == '.' then parts else parts[part := U32(parts[part] * 10 + DigitOf(s[0]))], next, rest);
        assert forall i :: 0 <= i < |rest| ==> (Refused(s, part, i + 1) <==> Refused(rest, next, i));
        assert !Refused(s, part, 0);
        if i :| 0 <= i < |s| && Refused(s, part, i) {
          assert Refused(rest, next, i - 1);
        }
      } else if part < 4 {
        assert Refused(s, part, 0);
      }
    }
  }

  predicate Numeral(s: string) {
    forall i :: 0 <= i < |s| ==> '0' <= s[i] <= '9'
  }

  lemma {:induction false} ScanNumeral(parts: seq<nat>, part: nat, s: string, rest: string)
    requires |parts| == 4 && part < 4 && Numeral(s)
    ensures ScanFrom(parts[part := 0], part, s + rest) == ScanFrom(parts[part := Eval(s, 10) % TWO32], part, rest)
    decreases |s|
  {
    if s == "" {
      assert s + rest == rest;
    } else {
      var front, c := s[..|s| - 1], s[|s| - 1];
      var v := Eval(front, 10) % TWO32;
      ScanNumeral(parts, part, front, [c] + rest);
      assert s + rest == front + ([c] + rest) && ([c] + rest)[1..] == rest;
      NextDigit(Eval(front, 10), DigitOf(c));
      assert parts[part := v][part := U32(v * 10 + DigitOf(c))] == parts[part := Eval(s, 10) % TWO32];
    }
  }

  lemma NextDigit(v: nat, d: nat)
    ensures U32(v % TWO32 * 10 + d) == (10 * v + d) % TWO32
  {
    U32IsModulo(v % TWO32 * 10 + d);
    var q := v / TWO32;
    assert 10 * v + d == v % TWO32 * 10 + d + TWO32 * (10 * q);
    SameRest(v % TWO32 * 10 + d, 10 * q);
  }

  lemma SameRest(x: nat, k: nat)
    ensures (x + TWO32 * k) % TWO32 == x % TWO32
  {
    DivUnique(x + TWO32 * k, TWO32, x / TWO32 + k, x % TWO32);
  }

  function JoinDots(parts: seq<string>): string
    requires parts != []
  {
    if |parts| == 1 then parts[0] else parts[0] + "." + JoinDots(parts[1..])
  }

  // The values of the parts, cut to 32 bits, from place `part` on.
  function WithValues(values: seq<nat>, part: nat, parts: seq<string>): (r: seq<nat>)
    requires |values| == 4 && part + |parts| <= 4
    ensures |r| == 4
    decreases |parts|
  {
    if parts == [] then values else WithValues(values[part := Eval(parts[0], 10) % TWO32], part + 1, parts[1..])
  }

  lemma {:induction false} ScanParts(values: seq<nat>, part: nat, parts: seq<string>, tail: string)
    requires |values| == 4 && parts != [] && part + |parts| <= 4
    requires forall k :: part <= k < 4 ==> values[k] == 0
    requires forall k :: 0 <= k < |parts| ==> Numeral(parts[k])
    requires tail == "" || (part + |parts| == 4 && tail[0] == '.')
    ensures ScanFrom(values, part, JoinDots(parts) + tail) == Parts(WithValues(values, part, parts))
    decreases |parts|
  {
    hide Eval, ScanFrom;
    assert values[part := 0] == values;
    var next := values[part := Eval(parts[0], 10) % TWO32];
    if |parts| == 1 {
      ScanNumeral(values, part, parts[0], tail);
      ScanEnds(next, part, tail);
      assert WithValues(values, part, parts) == next;
    } else {
      var rest := JoinDots(parts[1..]) + tail;
      ScanNumeral(values, part, parts[0], "." + rest);
      assert JoinDots(parts) + tail == parts[0] + ("." + rest);
      ScanDot(next, part, rest);
      ScanParts(next, part + 1, parts[1..], tail);
    }
  }

  lemma ScanEnds(values: seq<nat>, part: nat, tail: string)
    requires |values| == 4 && (tail == "" || (part + 1 == 4 && tail[0] == '.'))
    ensures ScanFrom(values, part, tail) == Parts(values)
  {
  }

  /** What any other string parses to: one to four runs of digits, each modulo 2^32, missing
      ones zero, shifted to their places and or-ed; what follows a fourth dot is not read. */
  lemma ParseIs(parts: seq<string>, tail: string)
    requires 1 <= |parts| <= 4 && forall k :: 0 <= k < |parts| ==> Numeral(parts[k])
    requires tail == "" || (|parts| == 4 && tail[0] == '.')
    ensures var v := WithValues([0, 0, 0, 0], 0, parts);
      Parse(JoinDots(parts) + tail) == IpFromBytes(v[0], v[1], v[2], v[3])
  {
    ScanParts([0, 0, 0, 0], 0, parts, tail);
  }

  function Dotted(a: nat, b: nat, c: nat, d: nat): string {
    Digits(a, 10, false) + ("." + (Digits(b, 10, false) + ("." + (Digits(c, 10, false) + ("." + Digits(d, 10, false))))))
  }

  /** Parsing undoes printing: four octets printed in decimal and joined by dots give the
      address made of them. */
  lemma ParseOfDotted(a: nat, b: nat, c: nat, d: nat)
    requires a < 256 && b < 256 && c < 256 && d < 256
    ensures Parse(Dotted(a, b, c, d)) == IpFromBytes(a, b, c, d)
    ensures Parse(Dotted(a, b, c, d)) == a * 0x100_0000 + b * 0x1_0000 + c * 0x100 + d
  {
    var sd := Digits(d, 10, false) + "";
    var sc := Digits(c, 10, false) + ("." + sd);
    var sb := Digits(b, 10, false) + ("." + sc);
    assert sd == Digits(d, 10, false);
    ScanPart([0, 0, 0, 0], 0, a, "." + sb, [a, 0, 0, 0]);
    ScanDot([a, 0, 0, 0], 0, sb);
    ScanPart([a, 0, 0, 0], 1, b, "." + sc, [a, b, 0, 0]);
    ScanDot([a, b, 0, 0], 1, sc);
    ScanPart([a, b, 0, 0], 2, c, "." + sd, [a, b, c, 0]);
    ScanDot([a, b, c, 0], 2, sd);
    ScanPart([a, b, c, 0], 3, d, "", [a, b, c, d]);
    IpIsSum(a, b, c, d);
  }

  lemma ScanPart(parts: seq<nat>, part: nat, v: nat, rest: string, after: seq<nat>)
    requires |parts| == 4 && part < 4 && v < TWO32 && parts[part] == 0 && after == parts[part := v]
    ensures ScanFrom(parts, part, Digits(v, 10, false) + rest) == ScanFrom(after, part, rest)
  {
    assert parts[part := 0] == parts;
    ScanDigits(parts, part, v, rest);
  }

  lemma ScanDot(parts: seq<nat>, part: nat, rest: string)
    requires |parts| == 4 && part < 4
    ensures ScanFrom(parts, part, "." + rest) == ScanFrom(parts, part + 1, rest)
  {
    assert ("." + rest)[1..] == rest;
  }
}
