/**
 Building and receiving IPv4 headers as bytes in memory. The checksum field is written and
 compared as a word of the little-endian machine, as the code does; the other fields are
 in network order. The header is that of RFC 791, section 3.1.
 */
module IpHeader {
  import opened Bits
  import opened Words
  import opened Checksum

  const HEADER := 20
  const CHECKSUM_AT := 10
  const MAX_HEADER := 60
  const ICMP := 1
  const BROADCAST: nat := 0xFFFF_FFFF

  // ---------------------------------------------------------------- byte order

  // A word of `w` bytes with its bytes in the other order.
  function Swapped(v: nat, w: nat): (r: nat)
    ensures r < Span(w)
  {
    Value(Reversed(Encode(v, w)))
  }

  /** net_htons, which net_ntohs is too. */
  function Htons(host: nat): nat {
    BitOr(BitAnd(host, 0xFF) * 0x100, BitAnd(host / 0x100, 0xFF))
  }

  /** net_htonl, which net_ntohl is too. */
  function Htonl(host: nat): nat {
    BitOr(BitOr(BitOr(U32(BitAnd(host, 0xFF) * 0x100_0000), BitAnd(host, 0xFF00) * 0x100),
                BitAnd(host, 0xFF_0000) / 0x100),
          BitAnd(host / 0x100_0000, 0xFF))
  }

  /** The shifts and masks of the two functions turn the bytes of a word round. */
  lemma ShiftsSwap(v: nat)
    ensures v < TWO16 ==> Htons(v) == Swapped(v, 2)
    ensures v < TWO32 ==> Htonl(v) == Swapped(v, 4)
  {
    hide Swapped, BitAnd, BitOr;
    var (b0, b1, b2, b3) := (v % 256, v / 0x100 % 256, v / 0x1_0000 % 256, v / 0x100_0000 % 256);
    LowByte(v);
    LowByte(v / 0x100);
    LowByte(v / 0x1_0000);
    LowByte(v / 0x100_0000);
    UpperBytes(v);
    OrOfTwo(b0, b1);
    OrOfBytes(b0, b1, b2, b3);
    SpelledOut(v, b0, b1, b2, b3);
  }

  lemma LowByte(v: nat)
    ensures BitAnd(v, 0xFF) == v % 256
  {
    Powers();
    MaskIsRemainder(v, 8);
  }

  lemma UpperBytes(v: nat)
    ensures BitAnd(v, 0xFF00) == BitAnd(v / 0x100, 0xFF) * 0x100
    ensures BitAnd(v, 0xFF_0000) == BitAnd(v / 0x1_0000, 0xFF) * 0x1_0000
  {
    Powers();
    MaskShifted(v, 0xFF, 8);
    MaskShifted(v, 0xFF, 16);
    ShiftByBytes(v);
  }

  lemma SpelledOut(v: nat, b0: nat, b1: nat, b2: nat, b3: nat)
    requires b0 == v % 256 && b1 == v / 0x100 % 256 && b2 == v / 0x1_0000 % 256 && b3 == v / 0x100_0000 % 256
    ensures Swapped(v, 2) == b0 * 0x100 + b1
    ensures Swapped(v, 4) == b0 * 0x100_0000 + b1 * 0x1_0000 + b2 * 0x100 + b3
  {
    hide Value, Span, Reversed, Encode;
    EncodeTwo(v, b0, b1);
    EncodeFour(v, b0, b1, b2, b3);
    var two: seq<byte>, four: seq<byte> := [b0, b1], [b0, b1, b2, b3];
    assert Reversed(two) == [b1, b0] && Reversed(four) == [b3, b2, b1, b0];
    ValueTwo(b1, b0);
    ValueFour(b3, b2, b1, b0);
  }

  lemma EncodeFour(v: nat, b0: nat, b1: nat, b2: nat, b3: nat)
    requires b0 == v % 256 && b1 == v / 0x100 % 256 && b2 == v / 0x1_0000 % 256 && b3 == v / 0x100_0000 % 256
    ensures Encode(v, 4) == [b0, b1, b2, b3]
  {
    hide Encode;
    var w := v / 0x1_0000;
    assert w == v / 256 / 256 && b3 == w / 256 % 256;
    EncodeTwo(w, b2, b3);
    EncodeStep(v, 3);
    EncodeStep(v / 256, 2);
  }

  lemma EncodeStep(v: nat, w: nat)
    ensures Encode(v, w + 1) == [v % 256] + Encode(v / 256, w)
  {
  }

  lemma EncodeTwo(v: nat, b0: nat, b1: nat)
    requires b0 == v % 256 && b1 == v / 256 % 256
    ensures Encode(v, 2) == [b0, b1]
  {
    assert Encode(v / 256, 1) == [b1] + Encode(v / 256 / 256, 0);
  }

  lemma ValueTwo(x: byte, y: byte)
    ensures Value([x, y]) == x + y * 0x100
  {
    assert [x, y][1..] == [y] && [y][1..] == [];
    assert Value([y]) == y;
  }

  lemma ValueFour(x: byte, y: byte, z: byte, w: byte)
    ensures Value([x, y, z, w]) == x + y * 0x100 + z * 0x1_0000 + w * 0x100_0000
  {
    ValueTwo(z, w);
    assert [x, y, z, w][1..] == [y, z, w] && [y, z, w][1..] == [z, w];
  }

  lemma EncodeOfValue(s: seq<byte>)
    ensures Encode(Value(s), |s|) == s
  {
    LowKeeps(Value(s), |s|);
    ValueInjective(Encode(Value(s), |s|), s);
  }

  // Storing a swapped word writes it in network order.
  lemma SwappedBytes(v: nat, w: nat)
    ensures Encode(Swapped(v, w), w) == Reversed(Encode(v, w))
  {
    EncodeOfValue(Reversed(Encode(v, w)));
  }

  lemma SwappedTwice(v: nat, w: nat)
    requires v < Span(w)
    ensures Swapped(Swapped(v, w), w) == v
  {
    SwappedBytes(v, w);
    assert Reversed(Reversed(Encode(v, w))) == Encode(v, w);
    LowKeeps(v, w);
  }

  /** Converting to network order and back gives the value again. */
  lemma ConvertedTwice(v: nat)
    ensures v < TWO16 ==> Htons(v) < TWO16 && Htons(Htons(v)) == v
    ensures v < TWO32 ==> Htonl(v) < TWO32 && Htonl(Htonl(v)) == v
  {
    hide Htons, Htonl, Swapped, Span;
    Spans();
    ShiftsSwap(v);
    if v < TWO16 {
      ShiftsSwap(Htons(v));
      SwappedTwice(v, 2);
    }
    if v < TWO32 {
      ShiftsSwap(Htonl(v));
      SwappedTwice(v, 4);
    }
  }

  // ---------------------------------------------------------------- building

  // The bytes of a word in network order.
  function Net(v: nat, w: nat): (s: seq<byte>)
    ensures |s| == w
  {
    Reversed(Encode(v, w))
  }

  /** A header with a zero checksum field. */
  function Zeroed(src: nat, dst: nat, proto: byte, totalLen: nat): (h: seq<byte>)
    ensures |h| == HEADER && h[0] == 0x45
  {
    var (n, s, d) := (Net(totalLen, 2), Net(src, 4), Net(dst, 4));
    [0x45, 0, n[0], n[1], 0, 0, 0, 0, 64, proto, 0, 0, s[0], s[1], s[2], s[3], d[0], d[1], d[2], d[3]]
  }

  lemma ZeroedFields(src: nat, dst: nat, proto: byte, totalLen: nat)
    ensures var h := Zeroed(src, dst, proto, totalLen);
      && h[CHECKSUM_AT] == h[CHECKSUM_AT + 1] == 0 && h[9] == proto
      && h[12..16] == Net(src, 4) && h[16..20] == Net(dst, 4) && h[2..4] == Net(totalLen, 2)
  {
    hide Net;
  }

  function Built(src: nat, dst: nat, proto: byte, totalLen: nat): (h: seq<byte>)
    ensures |h| == HEADER
  {
    var z := Zeroed(src, dst, proto, totalLen);
    Write(z, CHECKSUM_AT, 2, Sum(z))
  }

  /** net_build_ip. The total length is cut to 16 bits. */
  method BuildIp(ip: array<byte>, src: u32, dst: u32, proto: byte, dataLen: nat)
    requires ip.Length >= HEADER && dataLen < TWO16
    modifies ip
    ensures ip[..HEADER] == Built(src, dst, proto, (20 + dataLen) % TWO16) && ip[HEADER..] == old(ip[HEADER..])
  {
    hide Net, Zeroed, Swapped, Sum, Write;
    var totalLen := (20 + dataLen) % TWO16;
    PutFields(ip, src, dst, proto, totalLen);
    ghost var z := Zeroed(src, dst, proto, totalLen);
    var sum := NetChecksum(ip, HEADER);
    ghost var rest := ip[HEADER..];
    ghost var was := ip[..];
    Store(ip, CHECKSUM_AT, 2, sum);
    WriteInFront(was, CHECKSUM_AT, 2, sum, HEADER);
  }

  lemma WriteInFront(m: seq<byte>, a: nat, w: nat, v: nat, n: nat)
    requires a + w <= n <= |m|
    ensures Write(m, a, w, v)[..n] == Write(m[..n], a, w, v) && Write(m, a, w, v)[n..] == m[n..]
  {
  }

  // The fields but for the checksum.
  method PutFields(ip: array<byte>, src: u32, dst: u32, proto: byte, totalLen: nat)
    requires ip.Length >= HEADER && totalLen < TWO16
    modifies ip
    ensures ip[..HEADER] == Zeroed(src, dst, proto, totalLen) && ip[HEADER..] == old(ip[HEADER..])
  {
    hide Net, Zeroed;
    ghost var behind := ip[HEADER..];
    ip[0], ip[1] := 0x45, 0;
    PutNet(ip, 2, 2, totalLen);
    ip[4], ip[5], ip[6], ip[7] := 0, 0, 0, 0;
    ip[8], ip[9] := 64, proto;
    ip[10], ip[11] := 0, 0;
    PutNet(ip, 12, 4, src);
    PutNet(ip, 16, 4, dst);
    assert forall j :: HEADER <= j < ip.Length ==> ip[j] == behind[j - HEADER];
    assert ip[HEADER..] == behind;
    IsZeroed(ip[..HEADER], src, dst, proto, totalLen);
  }

  lemma IsZeroed(h: seq<byte>, src: nat, dst: nat, proto: byte, totalLen: nat)
    requires |h| == HEADER && h[0] == 0x45 && h[1] == 0 && h[8] == 64 && h[9] == proto && h[10] == h[11] == 0
    requires h[4] == h[5] == h[6] == h[7] == 0
    requires forall i :: 0 <= i < 2 ==> h[2 + i] == Net(totalLen, 2)[i]
    requires forall i :: 0 <= i < 4 ==> h[12 + i] == Net(src, 4)[i]
    requires forall i :: 0 <= i < 4 ==> h[16 + i] == Net(dst, 4)[i]
    ensures h == Zeroed(src, dst, proto, totalLen)
  {
    hide Net;
    assert h[3] == h[2 + 1] && h[13] == h[12 + 1] && h[14] == h[12 + 2] && h[15] == h[12 + 3];
    assert h[17] == h[16 + 1] && h[18] == h[16 + 2] && h[19] == h[16 + 3];
  }

  // Converts a word to network order and stores it.
  method PutNet(ip: array<byte>, at: nat, w: nat, v: nat)
    requires at + w <= ip.Length && ((w == 2 && v < TWO16) || (w == 4 && v < TWO32))
    modifies ip
    ensures forall i :: 0 <= i < w ==> ip[at + i] == Net(v, w)[i]
    ensures forall j :: 0 <= j < ip.Length && !(at <= j < at + w) ==> ip[j] == old(ip[j])
  {
    hide Encode, Reversed, Value, Swapped, Span, Htons, Htonl;
    var net := if w == 2 then Htons(v) else Htonl(v);
    ShiftsSwap(v);
    SwappedBytes(v, w);
    ReadWritten(ip[..], at, w, net);
    ghost var m := Write(ip[..], at, w, net);
    assert forall i :: 0 <= i < w ==> m[at + i] == Net(v, w)[i];
    Store(ip, at, w, net);
    assert forall j :: 0 <= j < ip.Length ==> ip[j] == m[j];
  }

  // ---------------------------------------------------------------- receiving

  function HeaderLength(p: seq<byte>): (n: nat)
    requires |p| >= 1
    ensures n <= MAX_HEADER
  {
    p[0] % 16 * 4
  }

  predicate IsVersion4(p: seq<byte>)
    requires |p| >= 1
  {
    p[0] / 16 == 4
  }

  function WithoutSum(p: seq<byte>): (q: seq<byte>)
    requires |p| >= HEADER
    ensures |q| == |p|
  {
    Write(p, CHECKSUM_AT, 2, 0)
  }

  /** The version and checksum tests. */
  predicate HeaderOk(p: seq<byte>)
    requires |p| >= MAX_HEADER
  {
    IsVersion4(p) && Sum(WithoutSum(p)[..HeaderLength(p)]) == Read(p, CHECKSUM_AT, 2)
  }

  datatype Verdict = Rejected | Taken | ToIcmp(at: nat, len: nat, src: nat)

  // Where the packet goes; a length that would be negative wraps at 16 bits.
  function Decide(p: seq<byte>, len: nat, local: nat): Verdict
    requires |p| >= MAX_HEADER
  {
    if len < HEADER || !HeaderOk(p) then Rejected
    else
      var dst := Swapped(Read(p, 16, 4), 4);
      if dst != local && dst != BROADCAST then Rejected
      else if p[9] == ICMP then
        var n := HeaderLength(p);
        ToIcmp(n, if n <= len then len - n else len + TWO16 - n, Swapped(Read(p, 12, 4), 4))
      else Taken
  }

  /** ip_receive, with the call of the ICMP handler as a verdict. It clears the checksum field
      of every version 4 packet in place. */
  method Receive(packet: array<byte>, len: nat, local: u32) returns (r: Verdict)
    requires len < TWO16 && packet.Length >= MAX_HEADER
    modifies packet
    ensures r == Decide(old(packet[..]), len, local)
    ensures packet[..] ==
      if len >= HEADER && IsVersion4(old(packet[..])) then WithoutSum(old(packet[..])) else old(packet[..])
  {
    hide Encode, Reversed, Swapped, Sum, Write, Htonl, Span;
    Spans();
    if len < HEADER {
      return Rejected;
    }
    var ihl := packet[0] % 16;
    if packet[0] / 16 != 4 {
      return Rejected;
    }
    ghost var p := packet[..];
    var stored := Read(packet[..], CHECKSUM_AT, 2);
    Store(packet, CHECKSUM_AT, 2, 0);
    OtherFields(p);
    assert packet[..ihl * 4] == WithoutSum(p)[..HeaderLength(p)];
    var sum := NetChecksum(packet, ihl * 4);
    if sum != stored {
      return Rejected;
    }
    var src := Htonl(Read(packet[..], 12, 4));
    var dst := Htonl(Read(packet[..], 16, 4));
    ShiftsSwap(Read(packet[..], 12, 4));
    ShiftsSwap(Read(packet[..], 16, 4));
    var proto := packet[9];
    if dst != local && dst != BROADCAST {
      return Rejected;
    }
    if proto == ICMP {
      return ToIcmp(ihl * 4, if ihl * 4 <= len then len - ihl * 4 else len + TWO16 - ihl * 4, src);
    }
    return Taken;
  }

  lemma OtherFields(p: seq<byte>)
    requires |p| >= HEADER
    ensures var q := WithoutSum(p);
      q[9] == p[9] && q[0] == p[0] && Read(q, 12, 4) == Read(p, 12, 4) && Read(q, 16, 4) == Read(p, 16, 4)
  {
    ReadApart(p, CHECKSUM_AT, 2, 0, 12, 4);
    ReadApart(p, CHECKSUM_AT, 2, 0, 16, 4);
  }

  // ---------------------------------------------------------------- laws

  lemma WithoutSumRestores(z: seq<byte>, v: nat, p: seq<byte>)
    requires HEADER <= |z| <= |p| && z[CHECKSUM_AT] == z[CHECKSUM_AT + 1] == 0
    requires p[..|z|] == Write(z, CHECKSUM_AT, 2, v)
    ensures WithoutSum(p)[..|z|] == z && Read(p, CHECKSUM_AT, 2) == Low(v, 2)
  {
    ReadWritten(z, CHECKSUM_AT, 2, v);
    assert p[CHECKSUM_AT..CHECKSUM_AT + 2] == p[..|z|][CHECKSUM_AT..CHECKSUM_AT + 2];
    assert Encode(0, 2) == [0, 0] by { assert Encode(0, 1) == [0]; }
    WriteInFront(p, CHECKSUM_AT, 2, 0, |z|);
  }

  /** A header that was built passes the tests, with its addresses and length recovered. It is
      delivered exactly when it is addressed to the receiver or to all: to the ICMP handler,
      with the twenty bytes of header taken off and the sender named, if it carries ICMP. */
  lemma BuiltIsAccepted(src: u32, dst: u32, proto: byte, totalLen: nat, rest: seq<byte>, len: nat, local: nat)
    requires totalLen < TWO16 && |rest| >= MAX_HEADER - HEADER && HEADER <= len < TWO16
    ensures var p := Built(src, dst, proto, totalLen) + rest;
      && HeaderOk(p) && Swapped(Read(p, 12, 4), 4) == src && Swapped(Read(p, 16, 4), 4) == dst
      && Swapped(Read(p, 2, 2), 2) == totalLen && p[9] == proto
      && Decide(p, len, local) ==
           if dst != local && dst != 0xFFFF_FFFF then Rejected
           else if proto == 1 then ToIcmp(20, len - 20, src)
           else Taken
  {
    hide Sum, Zeroed, Net, Swapped, Read, Write, Decide, HeaderOk;
    var z := Zeroed(src, dst, proto, totalLen);
    ZeroedFields(src, dst, proto, totalLen);
    var p := Built(src, dst, proto, totalLen) + rest;
    StampedIsDelivered(z, p, 5, src, dst, len, local);
    Spans();
    FieldBack(z, p, 12, 4, src);
    FieldBack(z, p, 16, 4, dst);
    FieldBack(z, p, 2, 2, totalLen);
  }

  // The number that four bytes spell in network order.
  function Number(p: seq<byte>, a: nat): nat
    requires a + 4 <= |p|
  {
    p[a] as int * 0x100_0000 + p[a + 1] as int * 0x1_0000 + p[a + 2] as int * 0x100 + p[a + 3]
  }

  /** Any packet is delivered exactly when it has at least the length of a header, version 4, its
      destination is the receiver or all, and the checksum of the header with a zero field is
      the word stored, low byte first. */
  lemma DeliveredIff(p: seq<byte>, len: nat, local: nat)
    requires |p| >= MAX_HEADER
    ensures Decide(p, len, local) != Rejected
      <==> len >= 20 && 64 <= p[0] < 80 && (Number(p, 16) == local || Number(p, 16) == 0xFFFF_FFFF)
           && Sum(p[10 := 0][11 := 0][..4 * (p[0] as int - 64)]) == p[10] + 256 * (p[11] as int)
  {
    hide Sum, Swapped, Read;
    BytesSpell(p, 16);
    ZeroField(p);
    StoredWord(p);
  }

  lemma BytesSpell(p: seq<byte>, a: nat)
    requires a + 4 <= |p|
    ensures Swapped(Read(p, a, 4), 4) == Number(p, a)
  {
    hide Value, Encode, Reversed;
    var four := p[a..a + 4];
    EncodeOfValue(four);
    assert Reversed(four) == [four[3], four[2], four[1], four[0]];
    ValueFour(four[3], four[2], four[1], four[0]);
  }

  lemma StoredWord(p: seq<byte>)
    requires |p| >= 12
    ensures Read(p, 10, 2) == p[10] + 256 * (p[11] as int)
  {
    assert p[10..12] == [p[10], p[11]];
    ValueTwo(p[10], p[11]);
  }

  lemma ZeroField(p: seq<byte>)
    requires |p| >= HEADER
    ensures WithoutSum(p) == p[10 := 0][11 := 0]
  {
    assert Encode(0, 2) == [0, 0] by { assert Encode(0, 1) == [0]; }
  }

  // A header of `words` words, options among them, with its addresses in network order.
  ghost predicate IsHeader(z: seq<byte>, words: nat, src: u32, dst: u32) {
    && 5 <= words <= 15 && |z| == 4 * words && z[0] == 0x40 + words && z[CHECKSUM_AT] == z[CHECKSUM_AT + 1] == 0
    && z[12..16] == Net(src, 4) && z[16..20] == Net(dst, 4)
  }

  /** The same of any header whose checksum was stored by this code, options included. A
      length that does not cover the header wraps at 16 bits. */
  lemma StampedIsDelivered(z: seq<byte>, p: seq<byte>, words: nat, src: u32, dst: u32, len: nat, local: nat)
    requires IsHeader(z, words, src, dst) && HEADER <= len < TWO16
    requires |p| >= MAX_HEADER && p[..|z|] == Write(z, CHECKSUM_AT, 2, Sum(z))
    ensures HeaderOk(p) && p[9] == z[9]
    ensures Decide(p, len, local) ==
      if dst != local && dst != 0xFFFF_FFFF then Rejected
      else if z[9] == 1 then ToIcmp(4 * words, (len + TWO16 - 4 * words) % TWO16, src)
      else Taken
  {
    hide Sum, Net, Swapped, Read, Write, HeaderOk;
    StampedIsOk(z, p, words);
    Spans();
    FieldBack(z, p, 12, 4, src);
    FieldBack(z, p, 16, 4, dst);
  }

  lemma Front(z: seq<byte>, p: seq<byte>)
    requires HEADER <= |z| <= |p| && p[..|z|] == Write(z, CHECKSUM_AT, 2, Sum(z))
    ensures p[9] == z[9] && p[0] == z[0]
  {
    assert p[9] == p[..|z|][9] && p[0] == p[..|z|][0];
  }

  // A header with its checksum stored passes the tests.
  lemma StampedIsOk(z: seq<byte>, p: seq<byte>, words: nat)
    requires 5 <= words <= 15 && |z| == 4 * words && z[0] == 0x40 + words && z[CHECKSUM_AT] == z[CHECKSUM_AT + 1] == 0
    requires |p| >= MAX_HEADER && p[..|z|] == Write(z, CHECKSUM_AT, 2, Sum(z))
    ensures HeaderOk(p) && HeaderLength(p) == 4 * words && p[9] == z[9]
  {
    hide Sum, WithoutSum, Read, Write, Low, Span;
    Front(z, p);
    Spans();
    WithoutSumRestores(z, Sum(z), p);
    LowKeeps(Sum(z), 2);
  }

  // A field in network order is read back.
  lemma FieldBack(z: seq<byte>, p: seq<byte>, a: nat, w: nat, v: nat)
    requires a + w <= HEADER <= |z| <= |p| && (a + w <= CHECKSUM_AT || CHECKSUM_AT + 2 <= a) && v < Span(w)
    requires z[a..a + w] == Net(v, w)
    requires p[..|z|] == Write(z, CHECKSUM_AT, 2, Sum(z))
    ensures Swapped(Read(p, a, w), w) == v
  {
    hide Encode, Value, Reversed, Write, Sum;
    ReadApart(z, CHECKSUM_AT, 2, Sum(z), a, w);
    SwappedBack(v, w);
    SliceInFront(p, |z|, a, w);
  }

  lemma SliceInFront(p: seq<byte>, n: nat, a: nat, w: nat)
    requires a + w <= n <= |p|
    ensures p[..n][a..a + w] == p[a..a + w]
  {
  }

  lemma SwappedBack(v: nat, w: nat)
    requires v < Span(w)
    ensures Swapped(Value(Net(v, w)), w) == v
  {
    SwappedTwice(v, w);
  }

  /** Changing one word of an accepted header, not the checksum and not the version and header
      length, is noticed unless it exchanges the two ways to write zero. */
  lemma TamperedIff(p: seq<byte>, k: nat, v: nat)
    requires |p| >= MAX_HEADER && HeaderOk(p)
    requires k % 2 == 0 && k + 1 < HeaderLength(p) && k != CHECKSUM_AT && v < TWO16 && (k == 0 ==> v / 256 == p[0])
    ensures HeaderOk(PutWord(p, k, v))
      <==> v == Word(p, k) || (v == 0 && Word(p, k) == 65535) || (v == 65535 && Word(p, k) == 0)
  {
    hide Sum;
    var p', n := PutWord(p, k, v), HeaderLength(p);
    var s, s' := WithoutSum(p)[..n], WithoutSum(p')[..n];
    assert p'[0] == p[0] && p'[CHECKSUM_AT..CHECKSUM_AT + 2] == p[CHECKSUM_AT..CHECKSUM_AT + 2];
    assert s' == PutWord(s, k, v);
    assert s[0] == p[0] && s'[0] == p[0] && p[0] != 0;
    assert Word(s, k) == Word(p, k);
    OneWordIff(s, k, v);
  }

  /** Changing the checksum field alone is always noticed. */
  lemma ChecksumFieldIff(p: seq<byte>, c: nat)
    requires |p| >= MAX_HEADER && HeaderOk(p) && c < TWO16
    ensures HeaderOk(Write(p, CHECKSUM_AT, 2, c)) <==> c == Read(p, CHECKSUM_AT, 2)
  {
    hide Sum;
    var p' := Write(p, CHECKSUM_AT, 2, c);
    Spans();
    ReadWritten(p, CHECKSUM_AT, 2, c);
    LowKeeps(c, 2);
    assert WithoutSum(p') == WithoutSum(p);
  }

  /** A receiver that sums the whole header, as RFC 1071 has it, accepts a header that was
      built exactly when the two bytes of its checksum are the same: the field is stored
      without conversion to network order. */
  lemma StandardReceiverIff(src: nat, dst: nat, proto: byte, totalLen: nat)
    ensures var c := Sum(Zeroed(src, dst, proto, totalLen));
      Sum(Built(src, dst, proto, totalLen)) == 0 <==> c % 256 == c / 256
  {
    hide Zeroed, Sum;
    var z := Zeroed(src, dst, proto, totalLen);
    ZeroedFields(src, dst, proto, totalLen);
    StampedSum(z);
  }

  lemma StampedSum(z: seq<byte>)
    requires |z| == HEADER && z[CHECKSUM_AT] == z[CHECKSUM_AT + 1] == 0
    ensures Sum(Write(z, CHECKSUM_AT, 2, Sum(z))) == 0 <==> Sum(z) % 256 == Sum(z) / 256
  {
    hide Sum, Write, PutWord;
    var c := Sum(z);
    StoredSwapped(z, CHECKSUM_AT, c);
    SumsToZeroIff(z, CHECKSUM_AT, 256 * (c % 256) + c / 256);
  }

  // A word stored as it is reads swapped in network order.
  lemma StoredSwapped(z: seq<byte>, k: nat, c: nat)
    requires k + 1 < |z| && c < TWO16
    ensures Write(z, k, 2, c) == PutWord(z, k, 256 * (c % 256) + c / 256)
  {
    var v := 256 * (c % 256) + c / 256;
    assert Encode(c, 2) == [c % 256, c / 256] by {
      assert Encode(c / 256, 1) == [c / 256 % 256] + Encode(c / 256 / 256, 0);
    }
    assert v / 256 == c % 256 && v % 256 == c / 256;
    assert Write(z, k, 2, c) == PutWord(z, k, v);
  }

  /** A header with all addresses and numbers zero: the code's own receiver accepts it, a
      receiver that sums the whole header does not. */
  lemma StandardReceiverRefuses(rest: seq<byte>)
    requires |rest| >= MAX_HEADER - HEADER
    ensures var h := Built(0, 0, 0, 20);
      HeaderOk(h + rest) && Sum(h) != 0
  {
    BuiltIsAccepted(0, 0, 0, 20, rest, 20, 0);
    var z := Zeroed(0, 0, 0, 20);
    ZeroHeaderSum(z);
    StandardReceiverIff(0, 0, 0, 20);
  }

  // 0x4500 + 20 + 0x4000, complemented.
  lemma ZeroHeaderSum(z: seq<byte>)
    requires z == Zeroed(0, 0, 0, 20)
    ensures Sum(z) == 0x7AEB
  {
    hide Zeroed, WordSum;
    ZeroHeaderBytes(z);
    NextWord(z, 0);
    NextWord(z, 2);
    NextWord(z, 4);
    NextWord(z, 6);
    NextWord(z, 8);
    assert z[0..] == z;
    ZeroSum(z[10..]);
    Folded(0x8514);
  }

  lemma ZeroHeaderBytes(z: seq<byte>)
    requires z == Zeroed(0, 0, 0, 20)
    ensures |z| == HEADER && Word(z, 0) == 0x4500 && Word(z, 2) == 20 && Word(z, 4) == Word(z, 6) == 0
    ensures Word(z, 8) == 0x4000 && AllZero(z[10..])
  {
    hide Net;
    NetTwenty();
    NetZero();
  }

  lemma NetTwenty()
    ensures Net(20, 2) == [0, 20]
  {
    EncodeTwo(20, 20, 0);
    assert Reversed([20][1..]) == [];
    assert Reversed([20, 0]) == Reversed([20, 0][1..]) + [20];
  }

  lemma NetZero()
    ensures Net(0, 4) == [0, 0, 0, 0]
  {
    EncodeTwo(0, 0, 0);
    assert Encode(0, 4) == [0] + Encode(0, 3);
    assert Encode(0, 3) == [0] + Encode(0, 2);
    assert Encode(0, 4) == [0, 0, 0, 0];
  }
}
