/** A growable file of blocks, mapped into memory a stretch at a time. */
module Cytore {
  import opened Text
  import opened Arena
  import opened ArenaRuns

  class File {
    var file: seq<byte>
    var blocks: seq<int>
    var maps: seq<Mapping>
    var active: bool

    /** The value of an open file. */
    function View(): Arena
      reads this
    {
      Arena(file, maps)
    }

    ghost predicate Valid()
      reads this
    {
      && active && Whole(View()) && |file| >= BLOCK && |file| == |blocks| * BLOCK
      && blocks == BlockPlaces(maps, |blocks|)
    }

    constructor ()
      ensures !active && blocks == [] && maps == []
    {
      file, blocks, maps, active := [], [], [], false;
    }

    method Map(size: nat, data: nat)
      requires size > |blocks| * BLOCK && size % BLOCK == 0
      modifies this`maps, this`blocks
      ensures maps == old(maps) + [Mapping(data, size - old(|blocks|) * BLOCK, old(|blocks|) * BLOCK)]
      ensures |blocks| == size / BLOCK && old(|blocks|) <= |blocks|
      ensures forall i :: 0 <= i < |blocks| ==>
                blocks[i] == if i < old(|blocks|) then old(blocks)[i] else data + BLOCK * (i - old(|blocks|))
    {
      var before := |blocks| * BLOCK;
      var extend := size - before;
      maps := maps + [Mapping(data, extend, before)];
      for i := 0 to extend / BLOCK
        modifies this`blocks
        invariant |blocks| == old(|blocks|) + i
        invariant forall j :: 0 <= j < |blocks| ==>
                    blocks[j] == if j < old(|blocks|) then old(blocks)[j] else data + BLOCK * (j - old(|blocks|))
      {
        blocks := blocks + [data + BLOCK * i];
      }
    }

    method Truncate(capacity: nat, kernel: Kernel) returns (growth: Growth)
      modifies this`file, this`maps, this`blocks
      ensures growth == if !kernel.truncates then NoSpace
                        else if Round(capacity, BLOCK) > old(|blocks|) * BLOCK && kernel.maps then Ready else Died
      ensures file == if growth.NoSpace? then old(file) else Resized(old(file), Round(capacity, BLOCK))
      ensures !growth.Ready? ==> maps == old(maps) && blocks == old(blocks)
      ensures growth.Ready? ==>
                && maps == old(maps) + [Mapping(kernel.data, Round(capacity, BLOCK) - old(|blocks|) * BLOCK, old(|blocks|) * BLOCK)]
                && |blocks| == Round(capacity, BLOCK) / BLOCK && |blocks| * BLOCK == Round(capacity, BLOCK)
                && old(|blocks|) <= |blocks|
                && forall i :: 0 <= i < |blocks| ==>
                     blocks[i] == if i < old(|blocks|) then old(blocks)[i] else kernel.data + BLOCK * (i - old(|blocks|))
    {
      var rounded := Round(capacity, BLOCK);
      RoundsToBlocks(capacity);
      if !kernel.truncates { return NoSpace; }
      file := Resized(file, rounded);
      if rounded <= |blocks| * BLOCK || !kernel.maps { return Died; }
      Map(rounded, kernel.data);
      growth := Ready;
    }

    method Close()
      modifies this`maps, this`blocks, this`active
      ensures !active && maps == [] && blocks == []
    {
      maps, blocks, active := [], [], false;
    }

    /**
     * Takes over the file, or replaces it when it is too short, cannot be extended or carries the
     * wrong mark; `anew` is what the system does with the replacement.
     */
    method Open(existing: seq<byte>, core: nat, kernel: Kernel, anew: Kernel) returns (ok: bool)
      requires !active && blocks == [] && maps == []
      requires HEADER <= core && core + BLOCK - 1 < WORD && |existing| + BLOCK <= WIDE
      modifies this
      ensures ok == Opened(existing, core, kernel, anew).Some?
      ensures ok ==> Valid() && View() == Opened(existing, core, kernel, anew).value
    {
      hide WordAt, PutWord, Round;
      active, file := true, existing;
      if |existing| == 0 {
        ok := Create(core, kernel);
        return;
      }
      if |existing| >= core {
        var growth := Truncate(|existing|, kernel);
        Rounded(|existing|, BLOCK);
        if growth.Died? { return false; }
        if growth.Ready? {
          SinglyMapped(Adopted(existing, kernel.data), blocks);
          assert View() == Adopted(existing, kernel.data);
          if WordAt(file, 0) == MAGIC && WordAt(file, 4) == 0 { return true; }
        }
      }
      Close();
      active, file := true, [];
      ok := Create(core, anew);
    }

    method Create(core: nat, kernel: Kernel) returns (ok: bool)
      requires active && file == [] && blocks == [] && maps == []
      requires HEADER <= core && core + BLOCK - 1 < WORD
      modifies this`file, this`maps, this`blocks
      ensures ok == Created(core, kernel).Some?
      ensures ok ==> Valid() && View() == Created(core, kernel).value
    {
      hide WordAt, PutWord, Round;
      var growth := Truncate(core, kernel);
      Rounded(core, BLOCK);
      if !growth.Ready? { return false; }
      assert file == seq(Round(core, BLOCK), _ => 0);
      file := PutWord(file, 0, MAGIC);
      file := PutWord(file, 8, core);
      SinglyMapped(Created(core, kernel).value, blocks);
      ok := true;
    }

    function Capacity(): nat
      reads this
    {
      |blocks| * BLOCK
    }

    method Reserve(capacity: nat, kernel: Kernel) returns (growth: Growth)
      requires Valid() && capacity < WIDE && Placeable(View(), capacity, kernel)
      modifies this`file, this`maps, this`blocks
      ensures growth == GrowthOf(old(View()), capacity, kernel)
      ensures !growth.Died? ==> Valid()
      ensures View() == Reserved(old(View()), capacity, kernel)
    {
      hide Round, Whole, AllApart, Chained, Free;
      if capacity <= Capacity() { return Ready; }
      ghost var before := View();
      var block := blocks[|blocks| - 1];
      RoundingGrows(|file|, capacity);
      blocks := blocks[..|blocks| - 1];
      growth := Truncate(capacity, kernel);
      if growth.NoSpace? {
        blocks := blocks + [block];
        assert blocks == old(blocks);
      }
      if growth.Ready? {
        GrownWhole(before, Round(capacity, BLOCK), kernel.data);
        GrownBlocks(before, Round(capacity, BLOCK), kernel.data, old(blocks), blocks);
      }
    }

    /** The address of what lies at an offset; no address for the null offset. */
    method Get(offset: nat) returns (address: int)
      requires Valid() && offset < Capacity()
      ensures offset == 0 ==> address == 0
      ensures offset != 0 ==> address == Address(maps, offset) && address >= 0 && Where(maps, address) == Some(offset)
    {
      if offset == 0 { return 0; }
      AddressDenotes(View(), offset);
      address := blocks[offset / BLOCK] + offset % BLOCK;
    }

    /** Room for an object of the requested bytes behind the last one. */
    method New(request: nat, kernel: Kernel) returns (grant: Grant)
      requires Valid() && Placeable(View(), Wanted(View(), request), kernel)
      modifies this`file, this`maps, this`blocks
      ensures grant == GrantOf(old(View()), request, kernel)
      ensures !grant.Exited? ==> Valid()
      ensures View() == Allocated(old(View()), request, kernel)
    {
      hide Round, Whole, AllApart, Chained, Free, WordAt, PutWord, Taken;
      var size := Taken(request);
      var growth := Reserve((SizeOf(View()) + size) % WIDE, kernel);
      match growth
      case NoSpace => grant := Refused;
      case Died => grant := Exited;
      case Ready =>
        ReservedWord(old(View()), Wanted(old(View()), request), kernel);
        ghost var reserved := View();
        grant := Granted(SizeOf(View()));
        file := PutWord(file, 8, SizeOf(View()) + size);
        SameWhole(reserved, View());
    }
  }

  /** The file that opening leaves, unless the process ends. */
  function Opened(existing: seq<byte>, core: nat, kernel: Kernel, anew: Kernel): Option<Arena>
    requires HEADER <= core && |existing| + BLOCK <= WIDE
  {
    if |existing| == 0 then Created(core, kernel)
    else if |existing| < core || !kernel.truncates then Created(core, anew)
    else if !kernel.maps then None
    else
      var a := Adopted(existing, kernel.data);
      Rounded(|existing|, BLOCK);
      if WordAt(a.file, 0) == MAGIC && WordAt(a.file, 4) == 0 then Some(a) else Created(core, anew)
  }

  lemma RoundsToBlocks(capacity: nat)
    ensures Round(capacity, BLOCK) / BLOCK * BLOCK == Round(capacity, BLOCK) && Round(capacity, BLOCK) % BLOCK == 0
  {
  }

  /** Rounding a larger capacity leads past the blocks there are, or wraps around to nothing. */
  lemma RoundingGrows(length: nat, capacity: nat)
    requires length % BLOCK == 0 && length < capacity < WIDE && length >= BLOCK
    ensures Round(capacity, BLOCK) > length - BLOCK <==> Round(capacity, BLOCK) > length
  {
    if capacity + BLOCK - 1 < WIDE {
      Rounded(capacity, BLOCK);
    } else {
      assert (capacity + BLOCK - 1) % WIDE < BLOCK;
    }
  }

  lemma SameWhole(a: Arena, b: Arena)
    requires Whole(a) && b.maps == a.maps && |b.file| == |a.file|
    ensures Whole(b)
  {
    hide Chained, AllApart;
  }

  /** The blocks of one mapping are its parts. */
  lemma SinglyMapped(a: Arena, blocks: seq<int>)
    requires |a.maps| == 1 && a.maps[0].at == 0 && a.maps[0].size == |a.file| == |blocks| * BLOCK && |blocks| > 0
    requires forall i :: 0 <= i < |blocks| ==> blocks[i] == a.maps[0].data + BLOCK * i
    ensures Whole(a) && blocks == BlockPlaces(a.maps, |blocks|)
  {
    forall i | 0 <= i < |blocks|
      ensures blocks[i] == BlockPlace(a.maps, i)
    {
    }
  }

  /** Remapping the last block leaves the addresses of the blocks before it. */
  lemma GrownBlocks(a: Arena, capacity: nat, data: nat, was: seq<int>, blocks: seq<int>)
    requires Whole(a) && |a.file| == |was| * BLOCK && |was| > 0 && was == BlockPlaces(a.maps, |was|)
    requires capacity > |a.file| && |blocks| * BLOCK == capacity
    requires forall i :: 0 <= i < |blocks| ==>
               blocks[i] == if i < |was| - 1 then was[i] else data + BLOCK * (i - (|was| - 1))
    ensures blocks == BlockPlaces(Grown(a, capacity, data).maps, |blocks|)
  {
    hide AllApart;
    var m := Mapping(data, Extension(a, capacity), |a.file| - BLOCK);
    forall i | 0 <= i < |blocks|
      ensures blocks[i] == BlockPlace(Grown(a, capacity, data).maps, i)
    {
      HolderGrown(a.maps, m, i);
      assert i < |was| - 1 ==> was[i] == BlockPlace(a.maps, i);
    }
  }

  /** Growing leaves the header as it was. */
  lemma ReservedWord(a: Arena, capacity: nat, kernel: Kernel)
    requires |a.file| >= BLOCK && GrowthOf(a, capacity, kernel).Ready?
    ensures |Reserved(a, capacity, kernel).file| >= HEADER && SizeOf(Reserved(a, capacity, kernel)) == SizeOf(a)
  {
    hide Round;
    SameWord(a.file, Reserved(a, capacity, kernel).file, 8);
  }
}
