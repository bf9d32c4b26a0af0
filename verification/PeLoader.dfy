/** Rebasing a mapped image: finding the relocation table and applying it. */
module PeLoader {
  import opened Options
  import opened Words
  import opened PeReloc
  import PeImage

  datatype Directory = Directory(rva: u32, size: u32)

  /** `Absent`: nothing to do. `Broken`: the table cannot be read. */
  datatype Table = Absent | Broken | Table(start: nat, end: nat)

  // Where the relocation table lies in the file.
  function FindTable(info: PeImage.Info, hasRelocs: bool, dir: Directory, fileSize: nat): Table {
    if !hasRelocs || dir.rva == 0 || dir.size == 0 then Absent
    else match PeImage.Translate(info, dir.rva)
      case None => Broken
      case Some(off) =>
        if off > fileSize || dir.size > fileSize - off then Broken else Table(off, off + dir.size)
  }

  /** The table is read where the translation puts it, exactly when there is one and all of it
      lies in the file. */
  lemma FoundIff(info: PeImage.Info, hasRelocs: bool, dir: Directory, fileSize: nat, start: nat, end: nat)
    ensures FindTable(info, hasRelocs, dir, fileSize) == Table(start, end)
      <==> hasRelocs && dir.rva > 0 && dir.size > 0 && PeImage.Translate(info, dir.rva) == Some(start)
           && end == start + dir.size <= fileSize
    ensures FindTable(info, hasRelocs, dir, fileSize) == Absent <==> !hasRelocs || dir.rva == 0 || dir.size == 0
  {
    hide PeImage.Translate;
  }

  // The 64-bit difference of two load addresses.
  function Delta(preferred: nat, loaded: nat): (d: nat)
    requires preferred < TWO64 && loaded < TWO64
    ensures d < TWO64 && (preferred + d) % TWO64 == loaded
  {
    if loaded >= preferred then loaded - preferred else loaded + TWO64 - preferred
  }

  /** Moves the mapped image from its preferred base to `loaded`. Each outcome is told
      apart, and only a readable table changes the image. */
  method ApplyRelocations(file: seq<byte>, info: PeImage.Info, hasRelocs: bool, dir: Directory,
                          mem: array<byte>, loaded: nat) returns (ok: bool, applied: bool)
    requires |file| < TWO32 && info.imageBase < TWO64 && loaded < TWO64
    requires var t := FindTable(info, hasRelocs, dir, |file|);
      t.Table? ==> TableInFile(file, t.start, t.end) && AllInImage(Sites(file, t.start, t.end), mem.Length)
    modifies mem
    ensures var t := FindTable(info, hasRelocs, dir, |file|);
      && (ok <==> !t.Broken?) && (applied <==> t.Table?)
      && mem[..] == if t.Table? then Relocate(old(mem[..]), Sites(file, t.start, t.end), Delta(info.imageBase, loaded))
                    else old(mem[..])
  {
    hide Relocate, Sites, TableInFile, AllInImage, PeImage.Translate;
    if !hasRelocs || dir.rva == 0 || dir.size == 0 {
      return true, false;
    }
    var off := PeImage.RvaToOffset(info, dir.rva);
    if off.None? {
      return false, false;
    }
    if off.value > |file| || dir.size > |file| - off.value {
      return false, false;
    }
    var delta := Delta(info.imageBase, loaded);
    if delta == 0 {
      ZeroDelta(mem[..], Sites(file, off.value, off.value + dir.size));
      return true, true;
    }
    ApplyBlocks(file, off.value, dir.size, mem, delta);
    return true, true;
  }

  /** Loading at one address and moving to another is loading there directly, exactly when
      no HIGH site loses a carry. */
  lemma RebaseThrough(m: seq<byte>, sites: seq<Site>, preferred: nat, first: nat, second: nat)
    requires preferred < TWO64 && first < TWO64 && second < TWO64
    requires AllInImage(sites, |m|) && NoOverlap(sites)
    ensures Relocate(Relocate(m, sites, Delta(preferred, first)), sites, Delta(first, second))
            == Relocate(m, sites, Delta(preferred, second))
      <==> (forall i :: 0 <= i < |sites| ==> Additive(sites[i].kind, Delta(preferred, first), Delta(first, second)))
  {
    hide *;
    DeltasAdd(preferred, first, second);
    RelocationComposes(m, sites, Delta(preferred, first), Delta(first, second));
  }

  lemma DeltasAdd(a: nat, b: nat, c: nat)
    requires a < TWO64 && b < TWO64 && c < TWO64
    ensures (Delta(a, b) + Delta(b, c)) % TWO64 == Delta(a, c)
  {
  }
}
