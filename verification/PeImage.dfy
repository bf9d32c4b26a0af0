/**
 Validating, mapping and translating the sections of a PE image.

 All 32-bit sums are cut down with U32, as the `uint32_t` fields of the source are.
 */
module PeImage {
  import opened Bits
  import opened Options
  import opened Words

  datatype Section = Section(rva: u32, virtualSize: u32, rawSize: u32, rawOffset: u32)

  datatype Info = Info(valid: bool, imageBase: nat, entryPoint: nat, sizeOfImage: u32, sizeOfHeaders: u32,
                       alignment: u32, sections: seq<Section>)

  const MAX_IMAGE: nat := 16 * 1024 * 1024

  // ---------------------------------------------------------------- validation

  function End(s: Section): nat {
    U32(s.rva + s.virtualSize)
  }

  predicate SectionOk(info: Info, s: Section, fileSize: nat) {
    && BitAnd(s.rva, U32(info.alignment + TWO32 - 1)) == 0
    && End(s) <= info.sizeOfImage
    && (s.rawSize > 0 ==> s.rawOffset < fileSize && s.rawSize <= fileSize - s.rawOffset)
  }

  predicate Overlap(s: Section, t: Section) {
    s.rva < End(t) && t.rva < End(s)
  }

  predicate HeadersOk(info: Info, fileSize: nat) {
    && info.valid && info.sizeOfImage != 0 && info.sizeOfHeaders != 0
    && info.entryPoint >= info.imageBase
    && info.sizeOfHeaders <= info.sizeOfImage && info.sizeOfHeaders <= fileSize
    && |info.sections| > 0
  }

  /** What a validated image promises: every section checked, no two of them overlapping, all
      with their ends cut to 32 bits. */
  predicate Validated(info: Info, fileSize: nat) {
    && HeadersOk(info, fileSize)
    && (forall i :: 0 <= i < |info.sections| ==> SectionOk(info, info.sections[i], fileSize))
    && (forall i, j :: 0 <= j < i < |info.sections| ==> !Overlap(info.sections[i], info.sections[j]))
  }

  method ValidateImage(info: Info, fileSize: nat) returns (ok: bool)
    ensures ok <==> Validated(info, fileSize)
  {
    if !info.valid || info.sizeOfImage == 0 || info.sizeOfHeaders == 0 {
      return false;
    }
    if info.entryPoint < info.imageBase || info.sizeOfHeaders > info.sizeOfImage
       || info.sizeOfHeaders > fileSize || |info.sections| == 0 {
      return false;
    }
    var i := 0;
    while i < |info.sections|
      invariant 0 <= i <= |info.sections|
      invariant forall k :: 0 <= k < i ==> SectionOk(info, info.sections[k], fileSize)
      invariant forall k, l :: 0 <= l < k < i ==> !Overlap(info.sections[k], info.sections[l])
    {
      var s := info.sections[i];
      if BitAnd(s.rva, U32(info.alignment + TWO32 - 1)) != 0 {
        return false;
      }
      var end := U32(s.rva + s.virtualSize);
      if end > info.sizeOfImage {
        return false;
      }
      if s.rawSize > 0 {
        if s.rawOffset >= fileSize || s.rawSize > fileSize - s.rawOffset {
          return false;
        }
      }
      var j := 0;
      while j < i
        invariant 0 <= j <= i
        invariant forall l :: 0 <= l < j ==> !Overlap(s, info.sections[l])
      {
        var t := info.sections[j];
        if s.rva < U32(t.rva + t.virtualSize) && t.rva < end {
          assert Overlap(info.sections[i], info.sections[j]);
          return false;
        }
        j := j + 1;
      }
      i := i + 1;
    }
    return true;
  }

  // The place of a section in the image, its end not cut.
  predicate Within(s: Section, a: nat) { s.rva <= a < s.rva + s.virtualSize }

  ghost predicate TrulyInside(info: Info) {
    forall i :: 0 <= i < |info.sections| ==>
      info.sections[i].rva + info.sections[i].virtualSize <= info.sizeOfImage
  }

  ghost predicate TrulyDisjoint(info: Info) {
    forall i, j, a: nat :: 0 <= j < i < |info.sections| && Within(info.sections[i], a) ==> !Within(info.sections[j], a)
  }

  /** The tests cut each end to 32 bits: what they let through lies inside the image and apart
      exactly when no section's end reaches 2^32. */
  lemma PlacedAsTestedIff(info: Info, fileSize: nat)
    requires Validated(info, fileSize)
    ensures TrulyInside(info) && TrulyDisjoint(info)
      <==> forall i :: 0 <= i < |info.sections| ==> info.sections[i].rva + info.sections[i].virtualSize < TWO32
  {
    if forall i :: 0 <= i < |info.sections| ==> info.sections[i].rva + info.sections[i].virtualSize < TWO32 {
      forall i | 0 <= i < |info.sections|
        ensures info.sections[i].rva + info.sections[i].virtualSize == End(info.sections[i]) <= info.sizeOfImage
      {
        assert SectionOk(info, info.sections[i], fileSize);
      }
      forall i, j, a: nat | 0 <= j < i < |info.sections| && Within(info.sections[i], a)
        ensures !Within(info.sections[j], a)
      {
        assert !Overlap(info.sections[i], info.sections[j]);
      }
    }
  }

  // One ends before the other starts.
  predicate Apart(s: Section, t: Section) {
    s.rva + s.virtualSize <= t.rva || t.rva + t.virtualSize <= s.rva
  }

  /** Where no end reaches 2^32 and the alignment is a power of two, a table is accepted exactly
      when its sizes, places and raw data fit, in unbounded arithmetic. */
  lemma AcceptedIff(info: Info, fileSize: nat, k: nat)
    requires info.alignment == PowerOfTwo(k)
    requires forall i :: 0 <= i < |info.sections| ==> info.sections[i].rva + info.sections[i].virtualSize < TWO32
    ensures Validated(info, fileSize)
      <==> (&& info.valid && 0 < info.sizeOfHeaders <= info.sizeOfImage && info.sizeOfHeaders <= fileSize
            && info.imageBase <= info.entryPoint && info.sections != []
            && (forall i :: 0 <= i < |info.sections| ==> Fits(info.sections[i], info.alignment, info.sizeOfImage, fileSize))
            && (forall i, j :: 0 <= j < i < |info.sections| ==> Apart(info.sections[i], info.sections[j])))
  {
    hide BitAnd, PowerOfTwo;
    forall i | 0 <= i < |info.sections|
      ensures SectionOk(info, info.sections[i], fileSize)
        <==> Fits(info.sections[i], info.alignment, info.sizeOfImage, fileSize)
    {
      SectionFits(info, info.sections[i], fileSize, k);
    }
    assert forall i, j :: 0 <= j < i < |info.sections| ==>
        (Overlap(info.sections[i], info.sections[j]) <==> !Apart(info.sections[i], info.sections[j]));
  }

  predicate Fits(s: Section, alignment: nat, imageSize: nat, fileSize: nat) {
    && alignment > 0 && s.rva % alignment == 0 && s.rva + s.virtualSize <= imageSize
    && (s.rawSize > 0 ==> s.rawOffset + s.rawSize <= fileSize)
  }

  lemma SectionFits(info: Info, s: Section, fileSize: nat, k: nat)
    requires info.alignment == PowerOfTwo(k) && s.rva + s.virtualSize < TWO32
    ensures SectionOk(info, s, fileSize) <==> Fits(s, info.alignment, info.sizeOfImage, fileSize)
  {
    hide BitAnd, PowerOfTwo;
    MaskIsRemainder(s.rva, k);
    assert U32(info.alignment + TWO32 - 1) == info.alignment - 1;
  }

  /** Two sections on the same place, one of them longer than the image, are validated and
      loaded. */
  lemma OverlapIsAccepted()
    ensures var s, t := Section(512, 512, 512, 512), Section(512, TWO32 - 512, 512, 1024);
      var info := Info(true, 0, 0, 1024, 512, 512, [s, t]);
      && Validated(info, 1536) && Loadable(info, 1536) && LoadOutcome(info, 1536) == Loaded
      && Within(s, 512) && Within(t, 512) && t.rva + t.virtualSize > info.sizeOfImage
      && s.rawOffset != t.rawOffset && s.rawSize == t.rawSize > 0
  {
    var s, t := Section(512, 512, 512, 512), Section(512, TWO32 - 512, 512, 1024);
    var info := Info(true, 0, 0, 1024, 512, 512, [s, t]);
    hide U32, BitAnd, LoadOutcome, Validated, Loadable;
    Aligned512();
    WrappedSums();
    TwoSections(info, s, t, 1536);
    CopiesStayInsideIff(info, 1536);
  }

  lemma TwoSections(info: Info, s: Section, t: Section, fileSize: nat)
    requires info.sections == [s, t] && HeadersOk(info, fileSize) && info.sizeOfImage <= MAX_IMAGE
    requires SectionOk(info, s, fileSize) && SectionOk(info, t, fileSize) && !Overlap(t, s)
    requires RawInRange(info, s, fileSize) && RawInRange(info, t, fileSize)
    ensures Validated(info, fileSize) && Loadable(info, fileSize)
  {
  }

  lemma WrappedSums()
    ensures U32(512 + TWO32 - 1) == 511 && U32(512 + (TWO32 - 512)) == 0 && U32((TWO32 - 512) + 512) == 0
  {
  }

  // ---------------------------------------------------------------- translation

  predicate Contains(s: Section, rva: nat) {
    s.rawSize > 0 && s.rva <= rva < End(s)
  }

  // The file offset of an image address, looking at the sections from `i` on.
  function OffsetFrom(info: Info, rva: nat, i: nat): Option<nat>
    requires i <= |info.sections|
    decreases |info.sections| - i
  {
    if i == |info.sections| then None
    else if Contains(info.sections[i], rva) then
      Some(U32(info.sections[i].rawOffset + (rva - info.sections[i].rva)))
    else OffsetFrom(info, rva, i + 1)
  }

  function Translate(info: Info, rva: nat): Option<nat> {
    if rva < info.sizeOfHeaders then Some(rva) else OffsetFrom(info, rva, 0)
  }

  method RvaToOffset(info: Info, rva: u32) returns (offset: Option<nat>)
    ensures offset == Translate(info, rva)
  {
    if rva < info.sizeOfHeaders {
      return Some(rva);
    }
    var i := 0;
    while i < |info.sections|
      invariant 0 <= i <= |info.sections|
      invariant OffsetFrom(info, rva, 0) == OffsetFrom(info, rva, i)
    {
      var s := info.sections[i];
      if s.rawSize > 0 && rva >= s.rva && rva < U32(s.rva + s.virtualSize) {
        return Some(U32(s.rawOffset + (rva - s.rva)));
      }
      i := i + 1;
    }
    return None;
  }

  predicate InMemory(s: Section, a: nat) {
    s.rawSize > 0 && s.rva <= a < (s.rva + s.virtualSize) % TWO32
  }

  predicate FirstFrom(info: Info, k: nat, i: nat, a: nat)
    requires i < |info.sections|
  {
    InMemory(info.sections[i], a) && forall j :: k <= j < i ==> !InMemory(info.sections[j], a)
  }

  /** Header addresses are offsets; any other address belongs to the first section with raw data
      that reaches over it, and to none if there is none. */
  lemma TranslateIs(info: Info, a: nat)
    ensures a < info.sizeOfHeaders ==> Translate(info, a) == Some(a)
    ensures a >= info.sizeOfHeaders ==>
              && (Translate(info, a) == None <==> forall i :: 0 <= i < |info.sections| ==> !InMemory(info.sections[i], a))
              && forall i :: 0 <= i < |info.sections| && FirstFrom(info, 0, i, a) ==>
                   Translate(info, a) == Some((info.sections[i].rawOffset + (a - info.sections[i].rva)) % TWO32)
  {
    OffsetIs(info, a, 0);
  }

  lemma {:induction false} OffsetIs(info: Info, a: nat, k: nat)
    requires k <= |info.sections|
    ensures OffsetFrom(info, a, k) == None <==> forall i :: k <= i < |info.sections| ==> !InMemory(info.sections[i], a)
    ensures forall i :: k <= i < |info.sections| && FirstFrom(info, k, i, a) ==>
              OffsetFrom(info, a, k) == Some((info.sections[i].rawOffset + (a - info.sections[i].rva)) % TWO32)
    decreases |info.sections| - k
  {
    if k < |info.sections| {
      OffsetIs(info, a, k + 1);
      MemoryIsContained(info.sections[k], a);
    }
  }

  lemma MemoryIsContained(s: Section, a: nat)
    ensures Contains(s, a) <==> InMemory(s, a)
    ensures s.rva <= a ==> U32(s.rawOffset + (a - s.rva)) == (s.rawOffset + (a - s.rva)) % TWO32
  {
    U32IsModulo(s.rva + s.virtualSize);
    if s.rva <= a {
      U32IsModulo(s.rawOffset + (a - s.rva));
    }
  }

  // ---------------------------------------------------------------- loading

  predicate RawInRange(info: Info, s: Section, fileSize: nat) {
    s.rawSize > 0 ==> U32(s.rawOffset + s.rawSize) <= fileSize && U32(s.rva + s.rawSize) <= info.sizeOfImage
  }

  predicate Loadable(info: Info, fileSize: nat) {
    && info.valid && 0 < info.sizeOfImage <= MAX_IMAGE
    && forall i :: 0 <= i < |info.sections| ==> RawInRange(info, info.sections[i], fileSize)
  }

  function Min(a: nat, b: nat): nat { if a <= b then a else b }

  // Where the loader took byte `a` of the image from, after the header and the first `k`
  // sections: later copies win, and a byte nobody copied stays zero.
  function Source(info: Info, fileSize: nat, k: nat, a: nat): Option<nat>
    requires k <= |info.sections|
  {
    if k == 0 then if a < Min(info.sizeOfHeaders, fileSize) then Some(a) else None
    else
      var s := info.sections[k - 1];
      if s.rva <= a < s.rva + s.rawSize then Some(s.rawOffset + (a - s.rva))
      else Source(info, fileSize, k - 1, a)
  }

  predicate ByteIs(file: seq<byte>, source: Option<nat>, b: byte) {
    match source
    case None => b == 0
    case Some(o) => o < |file| && b == file[o]
  }

  // The whole image after the first `k` copies, byte by byte.
  ghost predicate Mapped(file: seq<byte>, info: Info, k: nat, image: seq<byte>)
    requires k <= |info.sections|
  {
    && |image| == info.sizeOfImage
    && forall a :: 0 <= a < |image| ==> ByteIs(file, Source(info, |file|, k, a), image[a])
  }

  method CopyInto(mem: array<byte>, at: nat, src: seq<byte>)
    requires at + |src| <= mem.Length
    modifies mem
    ensures forall a :: 0 <= a < mem.Length ==>
              mem[a] == if at <= a < at + |src| then src[a - at] else old(mem[a])
  {
    forall i | 0 <= i < |src| {
      mem[at + i] := src[i];
    }
  }

  /** `Outside` is a copy that leaves the file or the image: the loader checks its sums in
      32 bits only. */
  datatype Outcome = Loaded | Refused | Outside

  function LoadFrom(info: Info, fileSize: nat, i: nat): Outcome
    requires i <= |info.sections|
    decreases |info.sections| - i
  {
    if i == |info.sections| then Loaded
    else
      var s := info.sections[i];
      if !RawInRange(info, s, fileSize) then Refused
      else if s.rawSize > 0 && (s.rawOffset + s.rawSize > fileSize || s.rva + s.rawSize > info.sizeOfImage) then Outside
      else LoadFrom(info, fileSize, i + 1)
  }

  function LoadOutcome(info: Info, fileSize: nat): Outcome {
    if !info.valid || info.sizeOfImage == 0 || info.sizeOfImage > MAX_IMAGE then Refused
    else if Min(info.sizeOfHeaders, fileSize) > info.sizeOfImage then Outside
    else LoadFrom(info, fileSize, 0)
  }

  /** Builds the image: zeros, the headers, then each section's raw data in table order. The
      model stops where a copy would leave the memory it was given. `memory` is the
      allocator's answer. */
  method LoadImage(file: seq<byte>, info: Info, memory: bool) returns (outcome: Outcome, mem: array?<byte>)
    requires |file| < TWO32
    ensures outcome == if memory then LoadOutcome(info, |file|) else Refused
    ensures mem != null <==> outcome == Loaded
    ensures mem != null ==> fresh(mem) && Mapped(file, info, |info.sections|, mem[..])
  {
    if !info.valid || info.sizeOfImage == 0 || info.sizeOfImage > MAX_IMAGE || !memory {
      return Refused, null;
    }
    var image := new byte[info.sizeOfImage](_ => 0);
    if Min(info.sizeOfHeaders, |file|) > info.sizeOfImage {
      return Outside, null;
    }
    CopyInto(image, 0, file[..Min(info.sizeOfHeaders, |file|)]);
    var i := 0;
    while i < |info.sections|
      invariant 0 <= i <= |info.sections|
      invariant Mapped(file, info, i, image[..])
      invariant LoadOutcome(info, |file|) == LoadFrom(info, |file|, i)
      modifies image
    {
      var s := info.sections[i];
      if s.rawSize > 0 {
        if U32(s.rawOffset + s.rawSize) > |file| || U32(s.rva + s.rawSize) > info.sizeOfImage {
          return Refused, null;
        }
        if s.rawOffset + s.rawSize > |file| || s.rva + s.rawSize > info.sizeOfImage {
          return Outside, null;
        }
        ghost var before := image[..];
        CopyInto(image, s.rva, file[s.rawOffset..s.rawOffset + s.rawSize]);
        CopiedSection(file, info, i, before, image[..]);
      } else {
        assert forall a :: Source(info, |file|, i + 1, a) == Source(info, |file|, i, a);
      }
      i := i + 1;
    }
    return Loaded, image;
  }

  /** An image is loaded exactly when it has at most sixteen megabytes and every copy fits both
      the file and the image, in unbounded arithmetic. */
  lemma LoadedIff(info: Info, fileSize: nat)
    requires fileSize < TWO32
    ensures LoadOutcome(info, fileSize) == Loaded
      <==> (&& info.valid && 0 < info.sizeOfImage <= 16777216
            && (info.sizeOfHeaders <= info.sizeOfImage || fileSize <= info.sizeOfImage)
            && forall i :: 0 <= i < |info.sections| ==> CopyFits(info.sections[i], info.sizeOfImage, fileSize))
  {
    LoadedFrom(info, fileSize, 0);
  }

  predicate CopyFits(s: Section, imageSize: nat, fileSize: nat) {
    s.rawSize > 0 ==> s.rawOffset + s.rawSize <= fileSize && s.rva + s.rawSize <= imageSize
  }

  lemma {:induction false} LoadedFrom(info: Info, fileSize: nat, k: nat)
    requires fileSize < TWO32 && k <= |info.sections|
    ensures LoadFrom(info, fileSize, k) == Loaded
      <==> forall i :: k <= i < |info.sections| ==> CopyFits(info.sections[i], info.sizeOfImage, fileSize)
    decreases |info.sections| - k
  {
    if k < |info.sections| {
      LoadedFrom(info, fileSize, k + 1);
    }
  }

  /** For a validated table that passes the loader's own checks, every copy stays inside the
      file and the image exactly when no section's raw data wraps 32 bits in the image. */
  lemma CopiesStayInsideIff(info: Info, fileSize: nat)
    requires Validated(info, fileSize) && Loadable(info, fileSize) && fileSize < TWO32
    ensures LoadOutcome(info, fileSize) != Refused
    ensures LoadOutcome(info, fileSize) != Outside
      <==> forall i :: 0 <= i < |info.sections| && info.sections[i].rawSize > 0 ==>
             info.sections[i].rva + info.sections[i].rawSize < TWO32
  {
    InsideFrom(info, fileSize, 0);
  }

  lemma {:induction false} InsideFrom(info: Info, fileSize: nat, i: nat)
    requires Validated(info, fileSize) && Loadable(info, fileSize) && fileSize < TWO32 && i <= |info.sections|
    ensures LoadFrom(info, fileSize, i) != Refused
    ensures LoadFrom(info, fileSize, i) != Outside
      <==> forall k :: i <= k < |info.sections| && info.sections[k].rawSize > 0 ==>
             info.sections[k].rva + info.sections[k].rawSize < TWO32
    decreases |info.sections| - i
  {
    if i < |info.sections| {
      assert RawInRange(info, info.sections[i], fileSize) && SectionOk(info, info.sections[i], fileSize);
      InsideFrom(info, fileSize, i + 1);
    }
  }

  /** A validated table that passes every check of the loader, for a file and an image of one
      kilobyte, and whose copy lies wholly outside the image. */
  lemma WrappedSectionEscapes()
    ensures var s := Section(TWO32 - 512, 512, 512, 512);
      var info := Info(true, 0, 0, 1024, 512, 512, [s]);
      && Validated(info, 1024) && Loadable(info, 1024) && LoadOutcome(info, 1024) == Outside
      && s.rawSize > 0 && s.rva >= info.sizeOfImage
  {
    var s := Section(TWO32 - 512, 512, 512, 512);
    var info := Info(true, 0, 0, 1024, 512, 512, [s]);
    Aligned512();
    WrappedSums();
    assert SectionOk(info, s, 1024);
    assert info.sections[0] == s;
    CopiesStayInsideIff(info, 1024);
  }

  lemma Aligned512()
    ensures BitAnd(512, 511) == 0 && BitAnd(1024, 511) == 0 && BitAnd(TWO32 - 512, 511) == 0
  {
    Powers();
    MaskIsRemainder(TWO32 - 512, 9);
    MaskIsRemainder(512, 9);
    MaskIsRemainder(1024, 9);
  }

  lemma CopiedSection(file: seq<byte>, info: Info, i: nat, before: seq<byte>, after: seq<byte>)
    requires i < |info.sections| && Mapped(file, info, i, before) && |after| == |before|
    requires var s := info.sections[i];
      && s.rawOffset + s.rawSize <= |file|
      && forall a :: 0 <= a < |after| ==>
           after[a] == if s.rva <= a < s.rva + s.rawSize then file[s.rawOffset + (a - s.rva)] else before[a]
    ensures Mapped(file, info, i + 1, after)
  {
    forall a | 0 <= a < |after|
      ensures ByteIs(file, Source(info, |file|, i + 1, a), after[a])
    {
      assert ByteIs(file, Source(info, |file|, i, a), before[a]);
    }
  }

  // ---------------------------------------------------------------- main results

  // An address of the headers, or of a byte a section has raw data for.
  predicate HasFileByte(info: Info, rva: nat) {
    rva < info.sizeOfHeaders
    || exists i :: 0 <= i < |info.sections| && Contains(info.sections[i], rva)
                   && rva < info.sections[i].rva + info.sections[i].rawSize
  }

  // Every address that translates to a file byte was last copied from that very byte.
  // Only the section table is consulted, no contents.
  ghost predicate CopiesAgree(info: Info, fileSize: nat) {
    forall a: nat :: HasFileByte(info, a) ==> Source(info, fileSize, |info.sections|, a) == Translate(info, a)
  }

  // The loaded image and the address translation tell the same bytes.
  ghost predicate LoadAgrees(file: seq<byte>, info: Info, image: seq<byte>) {
    forall a: nat :: HasFileByte(info, a) && a < |image| ==>
      Translate(info, a).Some? && Translate(info, a).value < |file| && image[a] == file[Translate(info, a).value]
  }

  // The addresses with a file byte lie inside both the image and the file.
  lemma FileBytesExist(info: Info, fileSize: nat, a: nat)
    requires Validated(info, fileSize) && fileSize < TWO32 && HasFileByte(info, a)
    ensures a < info.sizeOfImage && Translate(info, a).Some? && Translate(info, a).value < fileSize
  {
    if a >= info.sizeOfHeaders {
      var i :| 0 <= i < |info.sections| && Contains(info.sections[i], a)
               && a < info.sections[i].rva + info.sections[i].rawSize;
      assert SectionOk(info, info.sections[i], fileSize);
      OnlyOwner(info, fileSize, a, i, 0);
    }
  }

  // In a validated image only one section contains an address.
  lemma {:induction false} OnlyOwner(info: Info, fileSize: nat, a: nat, owner: nat, i: nat)
    requires Validated(info, fileSize) && owner < |info.sections| && i <= owner
    requires Contains(info.sections[owner], a)
    ensures var s := info.sections[owner]; OffsetFrom(info, a, i) == Some(U32(s.rawOffset + (a - s.rva)))
    decreases owner - i
  {
    if i < owner {
      assert !Overlap(info.sections[owner], info.sections[i]);
      OnlyOwner(info, fileSize, a, owner, i + 1);
    }
  }

  // Whether the loader agrees with the translation depends on the table alone: it does on
  // every file exactly when each translated address was last copied from that very byte.
  lemma AgreesByAddress(info: Info, fileSize: nat)
    requires Validated(info, fileSize) && fileSize < TWO32
    ensures (forall file: seq<byte>, image: seq<byte> ::
               |file| == fileSize && Mapped(file, info, |info.sections|, image) ==> LoadAgrees(file, info, image))
      <==> CopiesAgree(info, fileSize)
  {
    if CopiesAgree(info, fileSize) {
      forall file: seq<byte>, image: seq<byte> | |file| == fileSize && Mapped(file, info, |info.sections|, image)
        ensures LoadAgrees(file, info, image)
      {
        forall a: nat | HasFileByte(info, a) && a < |image|
          ensures Translate(info, a).Some? && Translate(info, a).value < |file| && image[a] == file[Translate(info, a).value]
        {
          assert ByteIs(file, Source(info, fileSize, |info.sections|, a), image[a]);
          FileBytesExist(info, fileSize, a);
        }
      }
    } else {
      var a: nat :| HasFileByte(info, a) && Source(info, fileSize, |info.sections|, a) != Translate(info, a);
      FileBytesExist(info, fileSize, a);
      Disagreement(info, fileSize, a);
    }
  }

  // A file that is zero except at the translated offset shows the difference.
  lemma Disagreement(info: Info, fileSize: nat, a: nat)
    requires Validated(info, fileSize) && fileSize < TWO32 && HasFileByte(info, a) && a < info.sizeOfImage
    requires Translate(info, a).Some? && Translate(info, a).value < fileSize
    requires Source(info, fileSize, |info.sections|, a) != Translate(info, a)
    ensures exists file: seq<byte>, image: seq<byte> ::
              |file| == fileSize && Mapped(file, info, |info.sections|, image) && !LoadAgrees(file, info, image)
  {
    var file: seq<byte> := seq(fileSize, i => if i == Translate(info, a).value then 1 else 0);
    var n := |info.sections|;
    var image: seq<byte> := seq(info.sizeOfImage, b requires 0 <= b => CopiedByte(file, info, n, b));
    forall b | 0 <= b < |image|
      ensures ByteIs(file, Source(info, |file|, n, b), image[b])
    {
      SourceInFile(info, fileSize, n, b);
    }
    SourceInFile(info, fileSize, n, a);
    assert image[a] == 0 && file[Translate(info, a).value] == 1;
    assert !LoadAgrees(file, info, image);
  }

  function CopiedByte(file: seq<byte>, info: Info, k: nat, a: nat): byte
    requires k <= |info.sections|
  {
    var o := Source(info, |file|, k, a);
    if o.Some? && o.value < |file| then file[o.value] else 0
  }

  predicate SourceOk(info: Info, fileSize: nat, k: nat, a: nat)
    requires k <= |info.sections|
  {
    Source(info, fileSize, k, a).Some? ==> Source(info, fileSize, k, a).value < fileSize
  }

  lemma {:induction false} SourceInFile(info: Info, fileSize: nat, k: nat, a: nat)
    requires Validated(info, fileSize) && k <= |info.sections|
    ensures SourceOk(info, fileSize, k, a)
  {
    if k > 0 {
      assert SectionOk(info, info.sections[k - 1], fileSize);
      SourceInFile(info, fileSize, k - 1, a);
    }
  }

  function AlignUp(v: nat, alignment: nat): nat
    requires alignment > 0
  {
    (v + alignment - 1) / alignment * alignment
  }

  // ---------------------------------------------------------------- conditions on the table

  predicate Covers(s: Section, a: nat) { s.rva <= a < s.rva + s.rawSize }

  // The section among the first `k` whose raw data is copied over `a` last.
  function LastCover(info: Info, k: nat, a: nat): (r: Option<nat>)
    requires k <= |info.sections|
    ensures match r
            case None => forall l :: 0 <= l < k ==> !Covers(info.sections[l], a)
            case Some(j) => j < k && Covers(info.sections[j], a) && forall l :: j < l < k ==> !Covers(info.sections[l], a)
  {
    if k == 0 then None else if Covers(info.sections[k - 1], a) then Some(k - 1) else LastCover(info, k - 1, a)
  }

  lemma {:induction false} SourceIsLastCover(info: Info, fileSize: nat, k: nat, a: nat)
    requires k <= |info.sections|
    ensures Source(info, fileSize, k, a) ==
      match LastCover(info, k, a)
      case None => if a < Min(info.sizeOfHeaders, fileSize) then Some(a) else None
      case Some(j) => Some(info.sections[j].rawOffset + (a - info.sections[j].rva))
  {
    if k > 0 {
      SourceIsLastCover(info, fileSize, k - 1, a);
    }
  }

  predicate CoversLast(info: Info, i: nat, a: nat)
    requires i < |info.sections|
  {
    Covers(info.sections[i], a) && forall j :: i < j < |info.sections| ==> !Covers(info.sections[j], a)
  }

  /** Every byte of a loaded image: the raw data of the last section copied over it, else the
      header's byte, else zero. */
  lemma ImageIs(file: seq<byte>, info: Info, image: seq<byte>, a: nat)
    requires Mapped(file, info, |info.sections|, image) && a < |image|
    ensures forall i :: 0 <= i < |info.sections| && CoversLast(info, i, a) ==>
              var at := info.sections[i].rawOffset + (a - info.sections[i].rva); at < |file| && image[a] == file[at]
    ensures (forall i :: 0 <= i < |info.sections| ==> !Covers(info.sections[i], a)) ==>
              image[a] == if a < info.sizeOfHeaders && a < |file| then file[a] else 0
  {
    hide Source;
    SourceIsLastCover(info, |file|, |info.sections|, a);
    assert ByteIs(file, Source(info, |file|, |info.sections|, a), image[a]);
    var last := LastCover(info, |info.sections|, a);
    assert forall i :: 0 <= i < |info.sections| && CoversLast(info, i, a) ==> last == Some(i);
  }

  predicate Meets(a: nat, m: nat, b: nat, n: nat) {
    m > 0 && n > 0 && a < b + n && b < a + m
  }

  // No raw data is copied over the headers, and none of a later section over the bytes that
  // an earlier one has in the file.
  predicate PlacedApart(info: Info) {
    && (forall i :: 0 <= i < |info.sections| && info.sections[i].rawSize > 0 ==>
          info.sections[i].rva >= info.sizeOfHeaders)
    && (forall i, j :: 0 <= i < j < |info.sections| ==> !Overlays(info.sections[j], info.sections[i]))
  }

  // How far a section reaches for the translation, its end cut to 32 bits.
  function Extent(s: Section): nat {
    if End(s) > s.rva then End(s) - s.rva else 0
  }

  predicate Overlays(later: Section, earlier: Section) {
    Meets(later.rva, later.rawSize, earlier.rva, Min(Extent(earlier), earlier.rawSize))
  }

  // The sections' raw data lies behind the headers in the file, no byte in two of them.
  predicate RawApart(info: Info) {
    && (forall i :: 0 <= i < |info.sections| && info.sections[i].rawSize > 0 ==>
          info.sections[i].rawOffset >= info.sizeOfHeaders)
    && (forall i, j :: 0 <= i < j < |info.sections| ==>
          !Meets(info.sections[i].rawOffset, info.sections[i].rawSize, info.sections[j].rawOffset, info.sections[j].rawSize))
  }

  // Where an address with a file byte translates to.
  lemma TranslatesTo(info: Info, fileSize: nat, a: nat) returns (owner: nat)
    requires Validated(info, fileSize) && fileSize < TWO32 && HasFileByte(info, a) && a >= info.sizeOfHeaders
    ensures owner < |info.sections| && Contains(info.sections[owner], a) && Covers(info.sections[owner], a)
    ensures Translate(info, a) == Some(info.sections[owner].rawOffset + (a - info.sections[owner].rva))
  {
    owner :| 0 <= owner < |info.sections| && Contains(info.sections[owner], a)
             && a < info.sections[owner].rva + info.sections[owner].rawSize;
    assert SectionOk(info, info.sections[owner], fileSize);
    OnlyOwner(info, fileSize, a, owner, 0);
  }

  // The addresses at which the headers or some section's raw data start or stop.
  predicate Edge(info: Info, a: nat) {
    a == 0 || a == info.sizeOfHeaders
    || exists i :: 0 <= i < |info.sections| && (a == info.sections[i].rva || a == info.sections[i].rva + info.sections[i].rawSize)
  }

  /** For every validated table, the loader agrees with the translation on every file exactly
      when the two agree at the edges of the table, of which there are two for each section
      and two more. */
  lemma AgreesAtEdgesIff(info: Info, fileSize: nat)
    requires Validated(info, fileSize) && fileSize < TWO32
    ensures (forall file: seq<byte>, image: seq<byte> ::
               |file| == fileSize && Mapped(file, info, |info.sections|, image) ==> LoadAgrees(file, info, image))
      <==> forall a: nat :: Edge(info, a) && HasFileByte(info, a) ==>
             Source(info, fileSize, |info.sections|, a) == Translate(info, a)
  {
    hide Edge, HasFileByte, Source, Translate, Mapped, LoadAgrees, Validated;
    AgreesByAddress(info, fileSize);
    if forall a: nat :: Edge(info, a) && HasFileByte(info, a) ==>
         Source(info, fileSize, |info.sections|, a) == Translate(info, a) {
      forall a: nat | HasFileByte(info, a)
        ensures Source(info, fileSize, |info.sections|, a) == Translate(info, a)
      {
        AgreesFromEdge(info, fileSize, a);
      }
    }
  }

  lemma {:induction false} AgreesFromEdge(info: Info, fileSize: nat, a: nat)
    requires Validated(info, fileSize) && fileSize < TWO32 && HasFileByte(info, a)
    requires forall e: nat :: Edge(info, e) && HasFileByte(info, e) ==>
               Source(info, fileSize, |info.sections|, e) == Translate(info, e)
    ensures Source(info, fileSize, |info.sections|, a) == Translate(info, a)
  {
    hide Edge, HasFileByte, Source, Translate, Validated;
    if !Edge(info, a) {
      assert a > 0 by { NoEdge(info, a); }
      FileByteBefore(info, a);
      AgreesFromEdge(info, fileSize, a - 1);
      SourceBefore(info, fileSize, a);
      TranslateBefore(info, fileSize, a);
    }
  }

  lemma NoEdge(info: Info, a: nat)
    requires !Edge(info, a)
    ensures a > 0 && a != info.sizeOfHeaders
    ensures forall i :: 0 <= i < |info.sections| ==> (Covers(info.sections[i], a) <==> Covers(info.sections[i], a - 1))
  {
  }

  lemma FileByteBefore(info: Info, a: nat)
    requires !Edge(info, a) && a > 0 && HasFileByte(info, a)
    ensures HasFileByte(info, a - 1)
  {
    if a >= info.sizeOfHeaders {
      var i :| 0 <= i < |info.sections| && Contains(info.sections[i], a)
               && a < info.sections[i].rva + info.sections[i].rawSize;
      assert Contains(info.sections[i], a - 1);
    }
  }

  // Off the edges the last copy is the same one, one byte on.
  lemma SourceBefore(info: Info, fileSize: nat, a: nat)
    requires Validated(info, fileSize) && !Edge(info, a) && a > 0 && HasFileByte(info, a)
    ensures var before := Source(info, fileSize, |info.sections|, a - 1);
      before.Some? && Source(info, fileSize, |info.sections|, a) == Some(before.value + 1)
  {
    var n := |info.sections|;
    NoEdge(info, a);
    SameLastCover(info, n, a);
    SourceIsLastCover(info, fileSize, n, a);
    SourceIsLastCover(info, fileSize, n, a - 1);
  }

  lemma {:induction false} SameLastCover(info: Info, k: nat, a: nat)
    requires k <= |info.sections| && a > 0
    requires forall i :: 0 <= i < |info.sections| ==> (Covers(info.sections[i], a) <==> Covers(info.sections[i], a - 1))
    ensures LastCover(info, k, a) == LastCover(info, k, a - 1)
  {
    if k > 0 {
      SameLastCover(info, k - 1, a);
    }
  }

  // And the translation moves on by one byte too.
  lemma TranslateBefore(info: Info, fileSize: nat, a: nat)
    requires Validated(info, fileSize) && fileSize < TWO32 && !Edge(info, a) && a > 0 && HasFileByte(info, a)
    ensures var before := Translate(info, a - 1);
      before.Some? && Translate(info, a) == Some(before.value + 1)
  {
    NoEdge(info, a);
    if a >= info.sizeOfHeaders {
      var owner := TranslatesTo(info, fileSize, a);
      assert Contains(info.sections[owner], a - 1);
      OnlyOwner(info, fileSize, a - 1, owner, 0);
      assert SectionOk(info, info.sections[owner], fileSize);
    }
  }

  // A table without such copies agrees at every address.
  lemma PlacedApartAgrees(info: Info, fileSize: nat, a: nat)
    requires Validated(info, fileSize) && fileSize < TWO32 && HasFileByte(info, a) && PlacedApart(info)
    ensures Source(info, fileSize, |info.sections|, a) == Translate(info, a)
  {
    hide Translate, Source, LastCover, OffsetFrom, Validated;
    SourceIsLastCover(info, fileSize, |info.sections|, a);
    if a >= info.sizeOfHeaders {
      var owner := TranslatesTo(info, fileSize, a);
      OwnerCoversLast(info, fileSize, a, owner);
    } else {
      HeaderByteStays(info, fileSize, a);
    }
  }

  lemma HeaderByteStays(info: Info, fileSize: nat, a: nat)
    requires Validated(info, fileSize) && PlacedApart(info) && a < info.sizeOfHeaders
    ensures LastCover(info, |info.sections|, a).None? && a < fileSize && Translate(info, a) == Some(a)
  {
  }

  // Nothing is copied over the byte of an owner after the owner's own copy.
  lemma OwnerCoversLast(info: Info, fileSize: nat, a: nat, owner: nat)
    requires PlacedApart(info) && owner < |info.sections|
    requires Contains(info.sections[owner], a) && Covers(info.sections[owner], a)
    ensures LastCover(info, |info.sections|, a) == Some(owner)
  {
    hide LastCover;
    forall l | owner < l < |info.sections|
      ensures !Covers(info.sections[l], a)
    {
      assert !Overlays(info.sections[l], info.sections[owner]);
    }
  }

  // With the raw data apart in the file, a copy over the headers shows at its first byte.
  lemma HeaderCopyShows(info: Info, fileSize: nat, i: nat)
    requires Validated(info, fileSize) && fileSize < TWO32 && RawApart(info)
    requires i < |info.sections| && info.sections[i].rawSize > 0 && info.sections[i].rva < info.sizeOfHeaders
    ensures !CopiesAgree(info, fileSize)
  {
    var a := info.sections[i].rva;
    SourceIsLastCover(info, fileSize, |info.sections|, a);
    assert Covers(info.sections[i], a) && HasFileByte(info, a);
    assert Source(info, fileSize, |info.sections|, a) != Translate(info, a);
  }

  // And a copy over an earlier section shows where the two meet.
  lemma OverlayShows(info: Info, fileSize: nat, i: nat, j: nat)
    requires Validated(info, fileSize) && fileSize < TWO32 && RawApart(info)
    requires i < j < |info.sections| && Overlays(info.sections[j], info.sections[i])
    ensures !CopiesAgree(info, fileSize)
  {
    var s, t := info.sections[i], info.sections[j];
    var a := if s.rva < t.rva then t.rva else s.rva;
    assert Contains(s, a) && Covers(s, a) && Covers(t, a) && HasFileByte(info, a);
    SourceIsLastCover(info, fileSize, |info.sections|, a);
    var last := LastCover(info, |info.sections|, a).value;
    if a >= info.sizeOfHeaders {
      OnlyOwner(info, fileSize, a, i, 0);
      assert SectionOk(info, s, fileSize);
      var u := info.sections[last];
      assert !Meets(s.rawOffset, s.rawSize, u.rawOffset, u.rawSize);
    }
    assert Source(info, fileSize, |info.sections|, a) != Translate(info, a);
  }

  /** For a validated table whose raw data lies apart in the file, the loader agrees with the
      translation on every file exactly when no section's raw data is copied over the headers
      or over the file bytes of an earlier section. */
  lemma LoadAgreesIff(info: Info, fileSize: nat)
    requires Validated(info, fileSize) && fileSize < TWO32 && RawApart(info)
    ensures (forall file: seq<byte>, image: seq<byte> ::
               |file| == fileSize && Mapped(file, info, |info.sections|, image) ==> LoadAgrees(file, info, image))
      <==> PlacedApart(info)
  {
    AgreesByAddress(info, fileSize);
    if PlacedApart(info) {
      forall a: nat | HasFileByte(info, a)
        ensures Source(info, fileSize, |info.sections|, a) == Translate(info, a)
      {
        PlacedApartAgrees(info, fileSize, a);
      }
    } else if i :| 0 <= i < |info.sections| && info.sections[i].rawSize > 0
                   && info.sections[i].rva < info.sizeOfHeaders {
      HeaderCopyShows(info, fileSize, i);
    } else {
      var i, j :| 0 <= i < j < |info.sections| && Overlays(info.sections[j], info.sections[i]);
      OverlayShows(info, fileSize, i, j);
    }
  }

  predicate NoWrap(s: Section) {
    s.rva + s.virtualSize < TWO32 && s.rva + s.rawSize < TWO32
  }

  // The table a linker writes: aligned by a power of two, behind the headers, and no
  // section with more raw data than its aligned virtual size.
  ghost predicate Tidy(info: Info) {
    && (exists k :: info.alignment == PowerOfTwo(k))
    && forall i :: 0 <= i < |info.sections| ==>
         && NoWrap(info.sections[i])
         && info.sections[i].rva >= info.sizeOfHeaders
         && info.sections[i].rawSize <= AlignUp(info.sections[i].virtualSize, info.alignment)
  }

  /** Loaded memory agrees with address translation for every validated, tidy image. */
  lemma TidyImagesAgree(file: seq<byte>, info: Info, image: seq<byte>)
    requires |file| < TWO32 && Validated(info, |file|) && Tidy(info)
    requires Mapped(file, info, |info.sections|, image)
    ensures LoadAgrees(file, info, image)
  {
    TidyIsPlacedApart(info, |file|);
    forall a: nat | HasFileByte(info, a)
      ensures Source(info, |file|, |info.sections|, a) == Translate(info, a)
    {
      PlacedApartAgrees(info, |file|, a);
    }
    assert CopiesAgree(info, |file|);
    AgreesByAddress(info, |file|);
  }

  lemma TidyIsPlacedApart(info: Info, fileSize: nat)
    requires Validated(info, fileSize) && Tidy(info)
    ensures PlacedApart(info)
  {
    forall i, j | 0 <= i < j < |info.sections|
      ensures !Overlays(info.sections[j], info.sections[i])
    {
      var s, t := info.sections[i], info.sections[j];
      if Overlays(t, s) {
        var a := if s.rva < t.rva then t.rva else s.rva;
        assert Contains(s, a);
        NotCovered(info, fileSize, a, i, j);
      }
    }
  }

  // The padding of one section never reaches into the next aligned section.
  lemma NotCovered(info: Info, fileSize: nat, a: nat, owner: nat, other: nat)
    requires Validated(info, fileSize) && Tidy(info)
    requires owner < |info.sections| && other < |info.sections| && owner != other
    requires Contains(info.sections[owner], a)
    ensures !(info.sections[other].rva <= a < info.sections[other].rva + info.sections[other].rawSize)
  {
    var s, t := info.sections[owner], info.sections[other];
    assert SectionOk(info, s, fileSize) && SectionOk(info, t, fileSize);
    assert NoWrap(s) && NoWrap(t);
    assert !Overlap(info.sections[if owner < other then other else owner], info.sections[if owner < other then owner else other]);
    var k :| info.alignment == PowerOfTwo(k);
    MaskIsRemainder(s.rva, k);
    MaskIsRemainder(t.rva, k);
    if t.rva <= a < t.rva + t.rawSize {
      if t.virtualSize == 0 {
        DivUnique(info.alignment - 1, info.alignment, 0, info.alignment - 1);
      } else {
        AlignedGap(t.rva, s.rva, t.virtualSize, info.alignment);
      }
    }
  }

  lemma AlignedGap(x: nat, y: nat, v: nat, alignment: nat)
    requires alignment > 0 && x % alignment == 0 && y % alignment == 0 && y >= x + v
    ensures y - x >= AlignUp(v, alignment)
  {
    var m := y / alignment - x / alignment;
    var n := (v + alignment - 1) / alignment;
    assert y - x == alignment * m;
    assert alignment * n <= v + alignment - 1;
    assert alignment * (n - m) == alignment * n - alignment * m;
    if n > m {
      MulAtLeast(alignment, n - m);
    } else if n < m {
      MulAtLeast(alignment, m - n);
    }
  }

  /** Validation and a successful load do not suffice: a section with more raw data than
      its aligned virtual size overwrites its neighbour, which still translates to its own
      bytes. Some file shows the difference. */
  lemma OversizedRawDataBreaksIt()
    ensures var info := Info(true, 0, 0, 2048, 512, 512,
                             [Section(1024, 512, 512, 512), Section(512, 512, 1024, 1024)]);
      && Validated(info, 2048) && Loadable(info, 2048) && RawApart(info) && !PlacedApart(info)
      && exists file: seq<byte>, image: seq<byte> ::
           |file| == 2048 && Mapped(file, info, |info.sections|, image) && !LoadAgrees(file, info, image)
  {
    var info := Info(true, 0, 0, 2048, 512, 512, [Section(1024, 512, 512, 512), Section(512, 512, 1024, 1024)]);
    hide U32, BitAnd, Validated, Loadable, Mapped, LoadAgrees;
    Aligned512();
    WrappedSums();
    TwoSections(info, info.sections[0], info.sections[1], 2048);
    assert Overlays(info.sections[1], info.sections[0]);
    LoadAgreesIff(info, 2048);
  }
}
