/** The mapped file byte by byte: what a new file holds, which file is taken over, and what an allocation moves. */
module CytoreMeaning {
  import opened Arena
  import opened ArenaRuns
  import opened Cytore

  /** Sizes go up to the next multiple of eight, capacities to the next multiple of 131072, short of the last addresses. */
  lemma RoundingMeans(value: nat)
    ensures value + 7 < 0x1_0000_0000_0000_0000 ==>
              value <= Round(value, ALIGNMENT) < value + 8 && Round(value, ALIGNMENT) % 8 == 0
    ensures value + 131071 < 0x1_0000_0000_0000_0000 ==>
              value <= Round(value, BLOCK) < value + 131072 && Round(value, BLOCK) % 131072 == 0
  {
    hide Round;
    if value + 7 < 0x1_0000_0000_0000_0000 { Rounded(value, ALIGNMENT); }
    if value + 131071 < 0x1_0000_0000_0000_0000 { Rounded(value, BLOCK); }
  }

  /** Four bytes, the lowest first. */
  ghost predicate Stored(file: seq<byte>, at: nat, v: nat) {
    && at + 4 <= |file|
    && file[at] == v % 256 && file[at + 1] == v / 256 % 256 && file[at + 2] == v / 65536 % 256 && file[at + 3] == v / 16777216 % 256
  }

  /** The mark `cynd` as a machine word, and version zero. */
  ghost predicate Marked(file: seq<byte>) {
    && |file| >= 8
    && file[0] == 0x64 && file[1] == 0x6e && file[2] == 0x79 && file[3] == 0x63
    && file[4] == 0 && file[5] == 0 && file[6] == 0 && file[7] == 0
  }

  lemma StoredMeans(file: seq<byte>, at: nat, v: nat)
    requires at + 4 <= |file| && v < WORD
    ensures Stored(PutWord(file, at, v), at, v)
    ensures WordAt(file, at) == v <==> Stored(file, at, v)
  {
    Digits(v);
    if WordAt(file, at) == v { WordDigits(file[at], file[at + 1], file[at + 2], file[at + 3]); }
  }

  lemma WordDigits(a: int, b: int, c: int, d: int)
    requires 0 <= a < 256 && 0 <= b < 256 && 0 <= c < 256 && 0 <= d < 256
    ensures var v := a + 256 * (b + 256 * (c + 256 * d));
            v % 256 == a && v / 256 % 256 == b && v / 65536 % 256 == c && v / 16777216 % 256 == d
  {
    var y := c + 256 * d;
    var x := b + 256 * y;
    var v := a + 256 * x;
    assert v / 256 == x && x / 256 == y && y / 256 == d;
    assert v / 65536 == x / 256 && v / 16777216 == x / 65536 && x / 65536 == y / 256;
  }

  lemma MarkedMeans(file: seq<byte>)
    requires |file| >= 8
    ensures WordAt(file, 0) == MAGIC && WordAt(file, 4) == 0 <==> Marked(file)
  {
    hide WordAt;
    StoredMeans(file, 0, MAGIC);
    StoredMeans(file, 4, 0);
  }

  /** A new file: mark, version, the size of the fixed part, and zeros up to whole blocks, all in one mapping. */
  lemma CreatedMeans(core: nat, kernel: Kernel)
    requires 16 <= core && core + 131072 <= 0x1_0000_0000
    ensures Created(core, kernel).Some? <==> kernel.truncates && kernel.maps
    ensures Created(core, kernel).Some? ==>
              var a := Created(core, kernel).value;
              && |a.file| % 131072 == 0 && core <= |a.file| < core + 131072 && a.maps == [Mapping(kernel.data, |a.file|, 0)]
              && Marked(a.file) && Stored(a.file, 8, core)
              && forall k :: 12 <= k < |a.file| ==> a.file[k] == 0
  {
    hide Round, PutWord, WordAt;
    Rounded(core, BLOCK);
    if kernel.truncates && kernel.maps {
      var blank: seq<byte> := seq(Round(core, BLOCK), _ => 0);
      var marked := PutWord(blank, 0, MAGIC);
      StoredMeans(blank, 0, MAGIC);
      WordPut(blank, 0, MAGIC);
      StoredMeans(marked, 8, core);
      WordPut(marked, 8, core);
      assert Stored(marked, 0, MAGIC);
    }
  }

  /** A file long enough is taken over exactly when it bears the mark; its bytes stay, with zeros up to whole blocks. */
  lemma OpenedMeans(existing: seq<byte>, core: nat, kernel: Kernel, anew: Kernel)
    requires 16 <= core <= |existing| && core + 131072 <= 0x1_0000_0000 && |existing| + 131072 <= 0x1_0000_0000_0000_0000
    requires kernel.truncates && kernel.maps
    ensures Marked(existing) ==>
              && Opened(existing, core, kernel, anew).Some?
              && var a := Opened(existing, core, kernel, anew).value;
                 && |a.file| % 131072 == 0 && |existing| <= |a.file| < |existing| + 131072
                 && a.maps == [Mapping(kernel.data, |a.file|, 0)]
                 && (forall k :: 0 <= k < |a.file| ==> a.file[k] == if k < |existing| then existing[k] else 0)
    ensures !Marked(existing) ==> Opened(existing, core, kernel, anew) == Created(core, anew)
  {
    hide Round, WordAt, Created;
    Rounded(|existing|, BLOCK);
    MarkedMeans(Adopted(existing, kernel.data).file);
  }

  /** A file that is too short, or that the system refuses to extend, is replaced; one it will not map ends the process. */
  lemma ReplacedMeans(existing: seq<byte>, core: nat, kernel: Kernel, anew: Kernel)
    requires 16 <= core && |existing| + 131072 <= 0x1_0000_0000_0000_0000
    ensures |existing| == 0 ==> Opened(existing, core, kernel, anew) == Created(core, kernel)
    ensures 0 < |existing| && (|existing| < core || !kernel.truncates) ==> Opened(existing, core, kernel, anew) == Created(core, anew)
    ensures |existing| >= core && kernel.truncates && !kernel.maps ==> Opened(existing, core, kernel, anew).None?
  {
    hide Round, WordAt, Created;
  }

  /** An allocation answers with the stored size and moves it on by the request, rounded up to a multiple of eight. */
  lemma GrantMeans(a: Arena, request: nat, kernel: Kernel)
    requires |a.file| >= BLOCK && GrantOf(a, request, kernel).Granted?
    requires |a.file| % BLOCK == 0 && SizeOf(a) + request + 131079 < 0x1_0000_0000
    ensures var offset := GrantOf(a, request, kernel).offset;
            && Stored(a.file, 8, offset) && |Allocated(a, request, kernel).file| >= HEADER
            && exists moved :: request <= moved < request + 8 && moved % 8 == 0 && Stored(Allocated(a, request, kernel).file, 8, offset + moved)
  {
    hide Round, WordAt, PutWord, Resized;
    Rounded(request, ALIGNMENT);
    assert Taken(request) == Round(request, ALIGNMENT);
    StoredMeans(a.file, 8, SizeOf(a));
    var wanted := Wanted(a, request);
    assert wanted == SizeOf(a) + Taken(request);
    Rounded(wanted, BLOCK);
    var b := Reserved(a, wanted, kernel);
    assert |b.file| >= HEADER;
    StoredMeans(b.file, 8, SizeOf(a) + Taken(request));
  }
}
