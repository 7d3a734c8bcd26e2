/**
 * The value of a growable mapped file: which addresses denote which bytes of the file, and how
 * growing by remapping the last block changes that.
 */
module Arena {
  import opened Text

  const BLOCK: nat := 131072
  const ALIGNMENT: nat := 8
  const HEADER: nat := 16
  const MAGIC: nat := 0x6379_6e64
  const WORD: nat := 0x1_0000_0000
  const WIDE: nat := 0x1_0000_0000_0000_0000

  type byte = b: int | 0 <= b < 256

  /** A live mapping of the file's bytes from `at` on. */
  datatype Mapping = Mapping(data: nat, size: nat, at: nat)

  datatype Arena = Arena(file: seq<byte>, maps: seq<Mapping>)

  function End(m: Mapping): nat {
    m.at + m.size
  }

  // ---------------------------------------------------------------------------------------------
  // Rounding, with its wrap-around

  function Round(value: nat, size: nat): (r: nat)
    requires size > 0
  {
    var sum := (value + size - 1) % WIDE;
    sum - sum % size
  }

  /** The two sizes anything is rounded to: a machine word and a block. */
  lemma Rounded(value: nat, size: nat)
    requires (size == ALIGNMENT || size == BLOCK) && value + size - 1 < WIDE
    ensures value <= Round(value, size) < value + size && Round(value, size) % size == 0
  {
    var sum := value + size - 1;
    assert sum % WIDE == sum;
    if size == ALIGNMENT { assert sum - sum % 8 == sum / 8 * 8; } else { assert sum - sum % BLOCK == sum / BLOCK * BLOCK; }
  }

  // ---------------------------------------------------------------------------------------------
  // Words of the header

  function WordAt(file: seq<byte>, at: nat): nat
    requires at + 4 <= |file|
  {
    var a: int, b: int, c: int, d: int := file[at], file[at + 1], file[at + 2], file[at + 3];
    a + 256 * (b + 256 * (c + 256 * d))
  }

  function PutWord(file: seq<byte>, at: nat, v: nat): (r: seq<byte>)
    requires at + 4 <= |file|
    ensures |r| == |file|
  {
    file[at := v % 256][at + 1 := v / 256 % 256][at + 2 := v / 65536 % 256][at + 3 := v / 16777216 % 256]
  }

  lemma WordPut(file: seq<byte>, at: nat, v: nat)
    requires at + 4 <= |file|
    ensures WordAt(PutWord(file, at, v), at) == v % WORD
    ensures forall k :: 0 <= k < |file| && !(at <= k < at + 4) ==> PutWord(file, at, v)[k] == file[k]
  {
    var r := PutWord(file, at, v);
    assert r[at] == v % 256 && r[at + 1] == v / 256 % 256 && r[at + 2] == v / 65536 % 256 && r[at + 3] == v / 16777216 % 256;
    Digits(v);
  }

  lemma Digits(v: nat)
    ensures v % 256 + 256 * (v / 256 % 256 + 256 * (v / 65536 % 256 + 256 * (v / 16777216 % 256))) == v % WORD
  {
    var a, b, c := v / 256, v / 65536, v / 16777216;
    assert a / 256 == b && b / 256 == c;
    assert v % WORD == v - v / WORD * WORD && c / 256 == v / WORD;
  }

  /** The file cut or padded with zero bytes to a length. */
  function Resized(file: seq<byte>, length: nat): (r: seq<byte>)
    ensures |r| == length
  {
    if length <= |file| then file[..length] else file + seq(length - |file|, _ => 0)
  }

  // ---------------------------------------------------------------------------------------------
  // Addresses

  /** The file position an address denotes, through the first mapping that holds it. */
  function Where(maps: seq<Mapping>, address: nat): Option<nat> {
    if |maps| == 0 then None
    else if maps[0].data <= address < maps[0].data + maps[0].size then Some(maps[0].at + (address - maps[0].data))
    else Where(maps[1..], address)
  }

  /** The block table holds, for each block, its place in the latest mapping that reaches it. */
  function Holder(maps: seq<Mapping>, block: nat): (h: nat)
    requires |maps| > 0
    ensures h < |maps|
  {
    if |maps| == 1 || maps[|maps| - 1].at <= block * BLOCK then |maps| - 1 else Holder(maps[..|maps| - 1], block)
  }

  function BlockPlace(maps: seq<Mapping>, block: nat): int
    requires |maps| > 0
  {
    var m := maps[Holder(maps, block)];
    m.data + (block * BLOCK - m.at)
  }

  function BlockPlaces(maps: seq<Mapping>, count: nat): (r: seq<int>)
    requires |maps| > 0
    ensures |r| == count
  {
    seq(count, i requires 0 <= i < count => BlockPlace(maps, i))
  }

  function Address(maps: seq<Mapping>, offset: nat): int
    requires |maps| > 0
  {
    BlockPlace(maps, offset / BLOCK) + offset % BLOCK
  }

  predicate Apart(m: Mapping, n: Mapping) {
    m.data + m.size <= n.data || n.data + n.size <= m.data
  }

  /** Live mappings never overlap. */
  predicate AllApart(maps: seq<Mapping>) {
    forall i, j :: 0 <= i < j < |maps| ==> Apart(maps[i], maps[j])
  }

  /** Each mapping starts with the last block of the one before it, and reaches further. */
  predicate Chained(maps: seq<Mapping>) {
    && |maps| > 0 && maps[0].at == 0
    && (forall i :: 0 <= i < |maps| ==> maps[i].size >= BLOCK && End(maps[i]) % BLOCK == 0)
    && (forall i :: 0 < i < |maps| ==> maps[i].at == End(maps[i - 1]) - BLOCK && End(maps[i]) > End(maps[i - 1]))
  }

  predicate Whole(a: Arena) {
    Chained(a.maps) && AllApart(a.maps) && End(a.maps[|a.maps| - 1]) == |a.file|
  }

  // ---------------------------------------------------------------------------------------------
  // Growing

  predicate Free(maps: seq<Mapping>, data: nat, size: nat) {
    data > 0 && forall i :: 0 <= i < |maps| ==> data + size <= maps[i].data || maps[i].data + maps[i].size <= data
  }

  function Extension(a: Arena, capacity: nat): nat
    requires |a.file| >= BLOCK && capacity > |a.file|
  {
    capacity - (|a.file| - BLOCK)
  }

  /** The last block is mapped once more, together with what is new. */
  function Grown(a: Arena, capacity: nat, data: nat): Arena
    requires |a.file| >= BLOCK && capacity > |a.file|
  {
    Arena(Resized(a.file, capacity), a.maps + [Mapping(data, Extension(a, capacity), |a.file| - BLOCK)])
  }

  lemma GrownWhole(a: Arena, capacity: nat, data: nat)
    requires Whole(a) && capacity > |a.file| && capacity % BLOCK == 0 && Free(a.maps, data, Extension(a, capacity))
    ensures Whole(Grown(a, capacity, data))
  {
    hide AllApart, Apart, Free;
    var m := Mapping(data, Extension(a, capacity), |a.file| - BLOCK);
    ApartGrows(a.maps, m);
    ChainGrows(a.maps, m);
  }

  lemma ApartGrows(maps: seq<Mapping>, m: Mapping)
    requires AllApart(maps) && Free(maps, m.data, m.size)
    ensures AllApart(maps + [m])
  {
    var n, next := |maps|, maps + [m];
    forall i, j | 0 <= i < j < |next|
      ensures Apart(next[i], next[j])
    {
      if j < n { assert Apart(maps[i], maps[j]); }
    }
  }

  lemma ChainGrows(maps: seq<Mapping>, m: Mapping)
    requires Chained(maps) && m.at == End(maps[|maps| - 1]) - BLOCK && End(m) > End(maps[|maps| - 1]) && End(m) % BLOCK == 0
    ensures Chained(maps + [m])
  {
    var n, next := |maps|, maps + [m];
    forall i | 0 <= i < |next|
      ensures next[i].size >= BLOCK && End(next[i]) % BLOCK == 0
      ensures i > 0 ==> next[i].at == End(next[i - 1]) - BLOCK && End(next[i]) > End(next[i - 1])
    {
      assert i < n ==> next[i] == maps[i];
      assert 0 < i ==> next[i - 1] == maps[i - 1];
    }
  }

  /** The mapping before the last is left for every block before the last one. */
  lemma HolderGrown(maps: seq<Mapping>, m: Mapping, block: nat)
    requires |maps| > 0
    ensures Holder(maps + [m], block) == if m.at <= block * BLOCK then |maps| else Holder(maps, block)
  {
    assert (maps + [m])[..|maps|] == maps;
  }

  /** The mapping of a block holds all of it. */
  lemma {:induction false} HolderHolds(maps: seq<Mapping>, block: nat)
    requires Chained(maps)
    ensures maps[Holder(maps, block)].at <= block * BLOCK
    ensures block * BLOCK < End(maps[|maps| - 1]) ==> (block + 1) * BLOCK <= End(maps[Holder(maps, block)])
  {
    var n := |maps| - 1;
    assert End(maps[n]) % BLOCK == 0;
    if n > 0 && maps[n].at > block * BLOCK {
      var front := maps[..n];
      assert Chained(front);
      HolderHolds(front, block);
      assert End(front[n - 1]) == maps[n].at + BLOCK;
    }
  }

  lemma {:induction false} WhereIn(maps: seq<Mapping>, i: nat, address: nat)
    requires AllApart(maps) && i < |maps| && maps[i].data <= address < maps[i].data + maps[i].size
    ensures Where(maps, address) == Some(maps[i].at + (address - maps[i].data))
  {
    if i > 0 {
      assert Apart(maps[0], maps[i]);
      assert AllApart(maps[1..]) by {
        forall j, k | 0 <= j < k < |maps| - 1
          ensures Apart(maps[1..][j], maps[1..][k])
        {
          assert Apart(maps[j + 1], maps[k + 1]);
        }
      }
      WhereIn(maps[1..], i - 1, address);
    }
  }

  /** A further mapping leaves every address that denoted something alone. */
  lemma {:induction false} WhereKept(maps: seq<Mapping>, m: Mapping, address: nat)
    requires Where(maps, address).Some?
    ensures Where(maps + [m], address) == Where(maps, address)
  {
    assert (maps + [m])[0] == maps[0] && (maps + [m])[1..] == maps[1..] + [m];
    if !(maps[0].data <= address < maps[0].data + maps[0].size) { WhereKept(maps[1..], m, address); }
  }

  // ---------------------------------------------------------------------------------------------
  // Objects

  /** The mapping an object's address points into holds all of the object. */
  predicate Covered(maps: seq<Mapping>, offset: nat, size: nat)
    requires |maps| > 0
  {
    offset + size <= End(maps[Holder(maps, offset / BLOCK)])
  }

  /** Every byte of a covered object is found behind its address, in order. */
  lemma CoveredReads(a: Arena, offset: nat, size: nat, k: nat)
    requires Whole(a) && offset < |a.file| && Covered(a.maps, offset, size) && k < size
    ensures Address(a.maps, offset) >= 0 && Where(a.maps, Address(a.maps, offset) + k) == Some(offset + k)
  {
    var block := offset / BLOCK;
    HolderHolds(a.maps, block);
    var h := Holder(a.maps, block);
    var m := a.maps[h];
    assert Address(a.maps, offset) == m.data + (offset - m.at);
    WhereIn(a.maps, h, Address(a.maps, offset) + k);
  }

  /** An object that is not covered runs past the end of the mapping its address points into. */
  lemma UncoveredLeaves(a: Arena, offset: nat, size: nat)
    requires Whole(a) && offset < |a.file| && !Covered(a.maps, offset, size)
    ensures var m := a.maps[Holder(a.maps, offset / BLOCK)];
            Address(a.maps, offset) < m.data + m.size < Address(a.maps, offset) + size
  {
    HolderHolds(a.maps, offset / BLOCK);
  }

  /** What an address of an object is, whole blocks or not, the block table gives its file position. */
  lemma AddressDenotes(a: Arena, offset: nat)
    requires Whole(a) && offset < |a.file|
    ensures Covered(a.maps, offset, 1)
    ensures Address(a.maps, offset) >= 0 && Where(a.maps, Address(a.maps, offset)) == Some(offset)
  {
    HolderHolds(a.maps, offset / BLOCK);
    CoveredReads(a, offset, 1, 0);
  }

  /** Growing keeps covered objects covered, even those whose block is mapped again. */
  lemma CoveredGrown(a: Arena, capacity: nat, data: nat, offset: nat, size: nat)
    requires Whole(a) && capacity > |a.file| && Covered(a.maps, offset, size)
    ensures Covered(Grown(a, capacity, data).maps, offset, size)
  {
    var m := Mapping(data, Extension(a, capacity), |a.file| - BLOCK);
    HolderGrown(a.maps, m, offset / BLOCK);
    EndsBelow(a.maps, Holder(a.maps, offset / BLOCK));
  }

  lemma {:induction false} EndsBelow(maps: seq<Mapping>, i: nat)
    requires Chained(maps) && i < |maps|
    ensures End(maps[i]) <= End(maps[|maps| - 1])
  {
    if i < |maps| - 1 {
      assert Chained(maps[..|maps| - 1]);
      EndsBelow(maps[..|maps| - 1], i);
    }
  }

  /** Room made by growing is covered exactly from the start of what was the last block on. */
  lemma GrownCovers(a: Arena, capacity: nat, data: nat, offset: nat, size: nat)
    requires Whole(a) && |a.file| < offset + size <= capacity && capacity % BLOCK == 0
    ensures Covered(Grown(a, capacity, data).maps, offset, size) <==> offset >= |a.file| - BLOCK
  {
    var m := Mapping(data, Extension(a, capacity), |a.file| - BLOCK);
    HolderGrown(a.maps, m, offset / BLOCK);
    EndsBelow(a.maps, Holder(a.maps, offset / BLOCK));
    assert End(a.maps[|a.maps| - 1]) % BLOCK == 0;
    AtBlock(|a.file|, offset);
  }

  lemma AtBlock(length: nat, offset: nat)
    requires length % BLOCK == 0 && length >= BLOCK
    ensures length - BLOCK <= offset / BLOCK * BLOCK <==> length - BLOCK <= offset
  {
  }
}
