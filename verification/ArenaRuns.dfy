/**
 * Runs of allocations over a mapped file: what every run keeps, and exactly when one allocation
 * is laid out in one piece.
 */
module ArenaRuns {
  import opened Text
  import opened Arena

  /** What the operating system does with one request. */
  datatype Kernel = Kernel(truncates: bool, maps: bool, data: nat)

  datatype Growth = Ready | NoSpace | Died

  datatype Grant = Granted(offset: nat) | Refused | Exited

  /** The size word of the header. */
  function SizeOf(a: Arena): nat
    requires |a.file| >= HEADER
  {
    WordAt(a.file, 8)
  }

  function WithSize(a: Arena, size: nat): Arena
    requires |a.file| >= HEADER
  {
    Arena(PutWord(a.file, 8, size), a.maps)
  }

  /** A new mapping never lands on a live one. */
  predicate Placeable(a: Arena, capacity: nat, kernel: Kernel)
    requires |a.file| >= BLOCK
  {
    Round(capacity, BLOCK) > |a.file| ==> Free(a.maps, kernel.data, Extension(a, Round(capacity, BLOCK)))
  }

  function Reserved(a: Arena, capacity: nat, kernel: Kernel): Arena
    requires |a.file| >= BLOCK
  {
    if capacity <= |a.file| || !kernel.truncates then a
    else if Round(capacity, BLOCK) > |a.file| && kernel.maps then Grown(a, Round(capacity, BLOCK), kernel.data)
    else Arena(Resized(a.file, Round(capacity, BLOCK)), a.maps)
  }

  function GrowthOf(a: Arena, capacity: nat, kernel: Kernel): Growth
    requires |a.file| >= BLOCK
  {
    if capacity <= |a.file| then Ready
    else if !kernel.truncates then NoSpace
    else if Round(capacity, BLOCK) > |a.file| && kernel.maps then Ready
    else Died
  }

  /** The bytes an allocation takes. */
  function Taken(request: nat): nat {
    Round(request % WIDE, ALIGNMENT)
  }

  function Wanted(a: Arena, request: nat): nat
    requires |a.file| >= HEADER
  {
    (SizeOf(a) + Taken(request)) % WIDE
  }

  function Allocated(a: Arena, request: nat, kernel: Kernel): Arena
    requires |a.file| >= BLOCK
  {
    var b := Reserved(a, Wanted(a, request), kernel);
    if GrowthOf(a, Wanted(a, request), kernel).Ready? then WithSize(b, SizeOf(a) + Taken(request)) else b
  }

  function GrantOf(a: Arena, request: nat, kernel: Kernel): Grant
    requires |a.file| >= BLOCK
  {
    match GrowthOf(a, Wanted(a, request), kernel)
    case Ready => Granted(SizeOf(a))
    case NoSpace => Refused
    case Died => Exited
  }

  lemma WordBounded(file: seq<byte>, at: nat)
    requires at + 4 <= |file|
    ensures WordAt(file, at) < WORD
  {
  }

  /** A request whose own arithmetic does not wrap. */
  predicate Fits(a: Arena, request: nat)
    requires |a.file| >= HEADER
  {
    0 < request && request + ALIGNMENT - 1 < WIDE && SizeOf(a) + Taken(request) < WORD
  }

  lemma FitsMeans(a: Arena, request: nat)
    requires |a.file| >= BLOCK && Fits(a, request)
    ensures request <= Taken(request) && Wanted(a, request) == SizeOf(a) + Taken(request)
    ensures Wanted(a, request) > |a.file| ==>
              Wanted(a, request) <= Round(Wanted(a, request), BLOCK) < Wanted(a, request) + BLOCK
              && Round(Wanted(a, request), BLOCK) % BLOCK == 0
  {
    hide Round, WordAt;
    Rounded(request, ALIGNMENT);
    Rounded(Wanted(a, request), BLOCK);
  }

  /** A refused allocation changes nothing. */
  lemma RefusedChangesNothing(a: Arena, request: nat, kernel: Kernel)
    requires |a.file| >= BLOCK
    ensures GrantOf(a, request, kernel).Refused? ==> Allocated(a, request, kernel) == a
  {
    hide Round, WordAt;
  }

  /** The recorded size follows the allocation exactly as long as it fits its word. */
  lemma SizeFollows(a: Arena, request: nat, kernel: Kernel)
    requires Whole(a) && |a.file| >= BLOCK && GrantOf(a, request, kernel).Granted?
    ensures var b := Allocated(a, request, kernel);
            && |b.file| >= |a.file|
            && SizeOf(b) == (SizeOf(a) + Taken(request)) % WORD
            && (SizeOf(b) == SizeOf(a) + Taken(request) <==> SizeOf(a) + Taken(request) < WORD)
            && (Taken(request) < WORD <= SizeOf(a) + Taken(request) ==> SizeOf(b) < SizeOf(a))
  {
    hide Round, WordAt, PutWord, Chained, AllApart;
    var b := Reserved(a, Wanted(a, request), kernel);
    assert |b.file| >= |a.file|;
    WordPut(b.file, 8, SizeOf(a) + Taken(request));
    WordBounded(a.file, 8);
  }

  // ---------------------------------------------------------------------------------------------
  // In one piece

  /**
   * An allocation lies in one mapping if and only if, when it fits the file, the mapping behind
   * its first block reaches its end, and, when the file grows, it starts in the last block or later.
   */
  lemma AllocationCovered(a: Arena, request: nat, kernel: Kernel)
    requires Whole(a) && |a.file| >= BLOCK && Fits(a, request) && GrantOf(a, request, kernel).Granted?
    ensures var offset := SizeOf(a);
            Covered(Allocated(a, request, kernel).maps, offset, Taken(request)) <==>
            if offset + Taken(request) <= |a.file| then offset + Taken(request) <= End(a.maps[Holder(a.maps, offset / BLOCK)])
            else offset >= |a.file| - BLOCK
  {
    hide Round, WordAt, PutWord, Chained, AllApart, Fits, Taken;
    FitsMeans(a, request);
    if SizeOf(a) + Taken(request) > |a.file| {
      GrownCovers(a, Round(Wanted(a, request), BLOCK), kernel.data, SizeOf(a), Taken(request));
    }
  }

  /** Where allocation alone keeps the size: in the last block, or at its end. */
  predicate Tight(a: Arena)
    requires |a.file| >= BLOCK
  {
    |a.file| - BLOCK < SizeOf(a) <= |a.file|
  }

  /** Reserving more than is used first, and growing later, breaks an object in two. */
  lemma ReservingSplits(a: Arena, request: nat, kernel: Kernel)
    requires Whole(a) && |a.file| >= BLOCK && Fits(a, request) && GrantOf(a, request, kernel).Granted?
    requires SizeOf(a) < |a.file| - BLOCK && SizeOf(a) + Taken(request) > |a.file|
    ensures var b := Allocated(a, request, kernel);
            var m := b.maps[Holder(b.maps, SizeOf(a) / BLOCK)];
            && Address(b.maps, SizeOf(a)) < m.data + m.size < Address(b.maps, SizeOf(a)) + Taken(request)
  {
    hide Round, WordAt, PutWord, Chained, AllApart, Fits, Taken, Free;
    FitsMeans(a, request);
    AllocationCovered(a, request, kernel);
    var m := Mapping(kernel.data, Extension(a, Round(Wanted(a, request), BLOCK)), |a.file| - BLOCK);
    HolderGrown(a.maps, m, SizeOf(a) / BLOCK);
    UncoveredStays(a, m, SizeOf(a), Taken(request));
  }

  lemma UncoveredStays(a: Arena, m: Mapping, offset: nat, size: nat)
    requires Whole(a) && |a.file| >= BLOCK && m.at == |a.file| - BLOCK && offset < m.at && offset + size > |a.file|
    ensures var maps := a.maps + [m];
            var h := maps[Holder(maps, offset / BLOCK)];
            Address(maps, offset) < h.data + h.size < Address(maps, offset) + size
  {
    HolderGrown(a.maps, m, offset / BLOCK);
    EndsBelow(a.maps, Holder(a.maps, offset / BLOCK));
    UncoveredLeaves(a, offset, size);
  }

  // ---------------------------------------------------------------------------------------------
  // Runs

  datatype Object = Object(offset: nat, size: nat)

  datatype Step =
    | New(request: nat, kernel: Kernel)
    | Store(address: nat, value: byte)

  /** What every run of allocations keeps about the file. */
  predicate Sound(a: Arena, core: nat) {
    && Whole(a) && |a.file| >= BLOCK && HEADER <= core <= SizeOf(a) && Tight(a)
    && WordAt(a.file, 0) == MAGIC && WordAt(a.file, 4) == 0
    && forall k :: SizeOf(a) <= k < |a.file| ==> a.file[k] == 0
  }

  /** Objects lie above header and base, one after the other, each in one piece. */
  predicate Laid(a: Arena, core: nat, objects: seq<Object>)
    requires |a.file| >= BLOCK && |a.maps| > 0
  {
    && (forall i :: 0 <= i < |objects| ==> ObjectLaid(a, core, objects[i]))
    && (forall i, j :: 0 <= i < j < |objects| ==> objects[i].offset + objects[i].size <= objects[j].offset)
  }

  predicate ObjectLaid(a: Arena, core: nat, o: Object)
    requires |a.file| >= BLOCK && |a.maps| > 0
  {
    core <= o.offset && 0 < o.size && o.offset + o.size <= SizeOf(a) && Covered(a.maps, o.offset, o.size)
  }

  /** Requests fit, mappings land apart, the process lives, and only objects and the base are written. */
  predicate Regular(a: Arena, step: Step) {
    match step
    case New(request, kernel) =>
      |a.file| >= BLOCK && Fits(a, request) && Placeable(a, Wanted(a, request), kernel) && !GrantOf(a, request, kernel).Exited?
    case Store(address, value) =>
      var at := Where(a.maps, address);
      |a.file| >= BLOCK && at.Some? && HEADER <= at.value < SizeOf(a) && at.value < |a.file|
  }

  function Next(a: Arena, step: Step): Arena
    requires |a.file| >= BLOCK
  {
    match step
    case New(request, kernel) => Allocated(a, request, kernel)
    case Store(address, value) =>
      var at := Where(a.maps, address);
      if at.Some? && at.value < |a.file| then Arena(a.file[at.value := value], a.maps) else a
  }

  function Obtained(a: Arena, step: Step): seq<Object>
    requires |a.file| >= BLOCK
  {
    if step.New? && GrantOf(a, step.request, step.kernel).Granted? then [Object(SizeOf(a), Taken(step.request))] else []
  }

  lemma AllocatedParts(a: Arena, core: nat, request: nat, kernel: Kernel)
    requires Sound(a, core) && Regular(a, New(request, kernel)) && GrantOf(a, request, kernel).Granted?
    ensures var b, middle := Allocated(a, request, kernel), Reserved(a, Wanted(a, request), kernel);
            && Whole(middle) && |middle.file| >= |a.file| && |b.file| == |middle.file| && b.maps == middle.maps
            && (forall k :: 0 <= k < |a.file| && !(8 <= k < 12) ==> b.file[k] == a.file[k])
            && (forall k :: |a.file| <= k < |b.file| ==> b.file[k] == 0)
            && SizeOf(b) == SizeOf(a) + Taken(request)
            && |b.file| - BLOCK < SizeOf(b) <= |b.file|
  {
    hide Round, WordAt, PutWord, Taken, Free, Whole;
    FitsMeans(a, request);
    SizeFollows(a, request, kernel) by { assert Whole(a); }
    var middle := Reserved(a, Wanted(a, request), kernel);
    WordPut(middle.file, 8, SizeOf(a) + Taken(request));
    if Wanted(a, request) > |a.file| {
      GrownWhole(a, Round(Wanted(a, request), BLOCK), kernel.data);
    }
  }

  lemma AllocatedSound(a: Arena, core: nat, request: nat, kernel: Kernel)
    requires Sound(a, core) && Regular(a, New(request, kernel)) && GrantOf(a, request, kernel).Granted?
    ensures Sound(Allocated(a, request, kernel), core)
  {
    hide Round, PutWord, Taken, Free, Chained, AllApart, Regular, Allocated, Reserved;
    AllocatedParts(a, core, request, kernel);
    var b := Allocated(a, request, kernel);
    assert Whole(b);
    assert forall k :: 0 <= k < 8 ==> b.file[k] == a.file[k];
  }

  lemma AllocatedLaid(a: Arena, core: nat, objects: seq<Object>, request: nat, kernel: Kernel)
    requires Sound(a, core) && Regular(a, New(request, kernel)) && GrantOf(a, request, kernel).Granted?
    requires Laid(a, core, objects)
    ensures Laid(Allocated(a, request, kernel), core, objects + [Object(SizeOf(a), Taken(request))])
  {
    hide Round, PutWord, WordAt, Taken, Free, Chained, AllApart, Covered, Whole, Tight;
    SoundIsLong(a, core);
    AllocatedParts(a, core, request, kernel);
    FitsMeans(a, request);
    var b := Allocated(a, request, kernel);
    forall i | 0 <= i < |objects|
      ensures ObjectLaid(b, core, objects[i])
    {
      assert ObjectLaid(a, core, objects[i]);
      if Wanted(a, request) > |a.file| {
        CoveredGrown(a, Round(Wanted(a, request), BLOCK), kernel.data, objects[i].offset, objects[i].size);
      }
    }
    NewCovered(a, core, request, kernel);
  }

  lemma NewCovered(a: Arena, core: nat, request: nat, kernel: Kernel)
    requires Sound(a, core) && Regular(a, New(request, kernel)) && GrantOf(a, request, kernel).Granted?
    ensures Covered(Allocated(a, request, kernel).maps, SizeOf(a), Taken(request))
  {
    hide Round, PutWord, WordAt, Taken, Free, AllApart, Covered, Allocated, Reserved;
    FitsMeans(a, request);
    AllocationCovered(a, request, kernel);
    if SizeOf(a) + Taken(request) <= |a.file| {
      HolderHolds(a.maps, SizeOf(a) / BLOCK);
      TightLast(a, SizeOf(a));
    }
  }

  lemma TightLast(a: Arena, offset: nat)
    requires Whole(a) && |a.file| >= BLOCK && |a.file| - BLOCK <= offset < |a.file|
    ensures End(a.maps[Holder(a.maps, offset / BLOCK)]) == |a.file|
  {
    HolderHolds(a.maps, offset / BLOCK);
    EndsBelow(a.maps, Holder(a.maps, offset / BLOCK));
    assert End(a.maps[|a.maps| - 1]) % BLOCK == 0;
    assert (offset / BLOCK + 1) * BLOCK == |a.file|;
  }

  lemma StoredSound(a: Arena, core: nat, objects: seq<Object>, address: nat, value: byte)
    requires Sound(a, core) && Laid(a, core, objects) && Regular(a, Store(address, value))
    ensures var b := Next(a, Store(address, value));
            Sound(b, core) && SizeOf(b) == SizeOf(a) && Laid(b, core, objects)
  {
    hide Chained, AllApart, Covered;
    var b := Next(a, Store(address, value));
    assert forall k :: 0 <= k < HEADER ==> b.file[k] == a.file[k];
    assert SizeOf(b) == SizeOf(a);
    forall i | 0 <= i < |objects|
      ensures ObjectLaid(b, core, objects[i])
    {
      assert ObjectLaid(a, core, objects[i]);
    }
  }

  /** One regular step keeps everything. */
  lemma StepKeeps(a: Arena, core: nat, objects: seq<Object>, step: Step)
    requires Sound(a, core) && Laid(a, core, objects) && Regular(a, step)
    ensures Sound(Next(a, step), core) && Laid(Next(a, step), core, objects + Obtained(a, step))
  {
    hide Sound, Laid, SizeOf, Taken, Reserved, Fits, Placeable;
    assert |a.file| >= BLOCK by { SoundIsLong(a, core); }
    match step
    case New(request, kernel) =>
      if GrantOf(a, request, kernel).Granted? {
        AllocatedSound(a, core, request, kernel);
        AllocatedLaid(a, core, objects, request, kernel);
      } else {
        RefusedChangesNothing(a, request, kernel);
        assert objects + [] == objects;
      }
    case Store(address, value) =>
      StoredSound(a, core, objects, address, value);
      assert objects + [] == objects;
  }

  lemma SoundIsLong(a: Arena, core: nat)
    requires Sound(a, core)
    ensures |a.file| >= BLOCK && |a.maps| > 0
  {
  }

  lemma RegularIsLong(a: Arena, step: Step)
    requires Regular(a, step)
    ensures |a.file| >= BLOCK
  {
  }

  predicate AllRegular(a: Arena, steps: seq<Step>)
    decreases |steps|
  {
    |steps| == 0 || (Regular(a, steps[0]) && AllRegular(Next(a, steps[0]), steps[1..]))
  }

  /** The value after a run. */
  function Last(a: Arena, steps: seq<Step>): Arena
    requires AllRegular(a, steps)
    decreases |steps|
  {
    if |steps| == 0 then a else Last(Next(a, steps[0]), steps[1..])
  }

  /** The objects a run obtains. */
  function AllObtained(a: Arena, steps: seq<Step>): seq<Object>
    requires AllRegular(a, steps)
    decreases |steps|
  {
    if |steps| == 0 then [] else Obtained(a, steps[0]) + AllObtained(Next(a, steps[0]), steps[1..])
  }

  /**
   * Over any run, objects stay apart and above header and base, each in one piece behind its
   * address, and what lies beyond the recorded size is blank.
   */
  lemma {:induction false} RunKeeps(a: Arena, core: nat, objects: seq<Object>, steps: seq<Step>)
    requires Sound(a, core) && Laid(a, core, objects) && AllRegular(a, steps)
    ensures Sound(Last(a, steps), core) && Laid(Last(a, steps), core, objects + AllObtained(a, steps))
    decreases |steps|
  {
    hide Sound, Laid, Next, Regular;
    if |steps| == 0 {
      assert objects + [] == objects;
    } else {
      RegularIsLong(a, steps[0]);
      StepKeeps(a, core, objects, steps[0]);
      RunKeeps(Next(a, steps[0]), core, objects + Obtained(a, steps[0]), steps[1..]);
      assert objects + Obtained(a, steps[0]) + AllObtained(Next(a, steps[0]), steps[1..]) ==
             objects + AllObtained(a, steps);
    }
  }

  /** Every byte of every object of a run is found behind the object's address at the end of the run. */
  lemma RunReads(a: Arena, core: nat, steps: seq<Step>, i: nat, k: nat)
    requires Sound(a, core) && AllRegular(a, steps) && i < |AllObtained(a, steps)| && k < AllObtained(a, steps)[i].size
    ensures var b, o := Last(a, steps), AllObtained(a, steps)[i];
            && |b.maps| > 0 && Address(b.maps, o.offset) >= 0
            && Where(b.maps, Address(b.maps, o.offset) + k) == Some(o.offset + k)
  {
    hide Sound, AllRegular, Last, AllObtained, Laid, Where, Address;
    SoundIsLong(a, core);
    EmptyLaid(a, core);
    RunKeeps(a, core, [], steps);
    assert [] + AllObtained(a, steps) == AllObtained(a, steps);
    LaidReads(Last(a, steps), core, AllObtained(a, steps), i, k);
  }

  lemma LaidReads(a: Arena, core: nat, objects: seq<Object>, i: nat, k: nat)
    requires Sound(a, core) && Laid(a, core, objects) && i < |objects| && k < objects[i].size
    ensures var o := objects[i];
            && |a.maps| > 0 && Address(a.maps, o.offset) >= 0
            && Where(a.maps, Address(a.maps, o.offset) + k) == Some(o.offset + k)
  {
    hide Chained, AllApart, Covered, WordAt, Where, Address;
    SoundIsLong(a, core);
    var o := objects[i];
    assert ObjectLaid(a, core, o);
    CoveredReads(a, o.offset, o.size, k);
  }

  lemma StepKeepsAddress(a: Arena, step: Step, address: nat)
    requires Regular(a, step) && Where(a.maps, address).Some?
    ensures Where(Next(a, step).maps, address) == Where(a.maps, address)
  {
    hide Where, Round, WordAt, PutWord, Free, Fits;
    if step.New? && Wanted(a, step.request) > |a.file| {
      forall m
        ensures Where(a.maps + [m], address) == Where(a.maps, address)
      {
        WhereKept(a.maps, m, address);
      }
    }
  }

  /** An address that denoted a byte of the file denotes it for the rest of the run. */
  lemma {:induction false} RunKeepsAddress(a: Arena, steps: seq<Step>, address: nat)
    requires AllRegular(a, steps) && Where(a.maps, address).Some?
    ensures Where(Last(a, steps).maps, address) == Where(a.maps, address)
    decreases |steps|
  {
    hide Where, Regular, Next;
    if |steps| > 0 {
      RegularIsLong(a, steps[0]);
      StepKeepsAddress(a, steps[0], address);
      RunKeepsAddress(Next(a, steps[0]), steps[1..], address);
    }
  }

  /** No store of the run goes to this position of the file. */
  predicate Untouched(a: Arena, steps: seq<Step>, at: nat)
    requires AllRegular(a, steps)
    decreases |steps|
  {
    |steps| > 0 ==>
      && !(steps[0].Store? && Where(a.maps, steps[0].address) == Some(at))
      && Untouched(Next(a, steps[0]), steps[1..], at)
  }

  lemma StepKeepsByte(a: Arena, core: nat, step: Step, at: nat)
    requires Sound(a, core) && Regular(a, step) && at < |a.file| && !(8 <= at < 12)
    requires !(step.Store? && Where(a.maps, step.address) == Some(at))
    ensures at < |Next(a, step).file| && Next(a, step).file[at] == a.file[at]
  {
    hide Where, Round, WordAt, PutWord, Free, Fits, Chained, AllApart, Allocated;
    if step.New? {
      if GrantOf(a, step.request, step.kernel).Granted? {
        AllocatedParts(a, core, step.request, step.kernel);
      } else {
        RefusedChangesNothing(a, step.request, step.kernel);
      }
    }
  }

  /** Apart from the size word, bytes only change by stores to them. */
  lemma {:induction false} RunKeepsByte(a: Arena, core: nat, steps: seq<Step>, at: nat)
    requires Sound(a, core) && AllRegular(a, steps) && at < |a.file| && !(8 <= at < 12) && Untouched(a, steps, at)
    ensures at < |Last(a, steps).file| && Last(a, steps).file[at] == a.file[at]
    decreases |steps|
  {
    hide Where, Regular, Next, Sound;
    if |steps| > 0 {
      RegularIsLong(a, steps[0]);
      StepKeepsByte(a, core, steps[0], at);
      EmptyLaid(a, core);
      StepKeeps(a, core, [], steps[0]);
      RunKeepsByte(Next(a, steps[0]), core, steps[1..], at);
    }
  }

  lemma EmptyLaid(a: Arena, core: nat)
    requires Sound(a, core)
    ensures Laid(a, core, [])
  {
  }

  /** What an allocation grants is blank. */
  lemma GrantIsBlank(a: Arena, core: nat, request: nat, kernel: Kernel, k: nat)
    requires Sound(a, core) && Regular(a, New(request, kernel)) && GrantOf(a, request, kernel).Granted? && k < Taken(request)
    ensures var b := Allocated(a, request, kernel);
            SizeOf(a) + k < |b.file| && b.file[SizeOf(a) + k] == 0
  {
    hide Round, PutWord, WordAt, Taken, Free, Chained, AllApart, Allocated, Reserved;
    AllocatedParts(a, core, request, kernel);
  }

  // ---------------------------------------------------------------------------------------------
  // Opening

  /** A new file: blank but for the header. */
  function Created(core: nat, kernel: Kernel): Option<Arena> {
    if !kernel.truncates || !kernel.maps then None
    else
      var blank: seq<byte> := seq(Round(core, BLOCK), _ => 0);
      if |blank| < BLOCK then None
      else Some(Arena(PutWord(PutWord(blank, 0, MAGIC), 8, core), [Mapping(kernel.data, |blank|, 0)]))
  }

  /** A file that is there, in one mapping. */
  function Adopted(file: seq<byte>, data: nat): Arena {
    Arena(Resized(file, Round(|file|, BLOCK)), [Mapping(data, Round(|file|, BLOCK), 0)])
  }

  lemma CreatedSound(core: nat, kernel: Kernel)
    requires HEADER <= core && core + BLOCK - 1 < WORD && Created(core, kernel).Some?
    ensures Sound(Created(core, kernel).value, core) && SizeOf(Created(core, kernel).value) == core
  {
    hide Round, PutWord, WordAt;
    Rounded(core, BLOCK);
    var blank: seq<byte> := seq(Round(core, BLOCK), _ => 0);
    var a := Created(core, kernel).value;
    WordPut(blank, 0, MAGIC);
    WordPut(PutWord(blank, 0, MAGIC), 8, core);
    SameWord(PutWord(blank, 0, MAGIC), a.file, 0);
    SameWord(PutWord(blank, 0, MAGIC), a.file, 4);
    BlankWord(PutWord(blank, 0, MAGIC), 4);
  }

  lemma SameWord(x: seq<byte>, y: seq<byte>, at: nat)
    requires at + 4 <= |x| && at + 4 <= |y| && forall k :: at <= k < at + 4 ==> x[k] == y[k]
    ensures WordAt(x, at) == WordAt(y, at)
  {
  }

  lemma BlankWord(x: seq<byte>, at: nat)
    requires at + 4 <= |x| && forall k :: at <= k < at + 4 ==> x[k] == 0
    ensures WordAt(x, at) == 0
  {
  }

  lemma OneApart(maps: seq<Mapping>)
    requires |maps| == 1
    ensures AllApart(maps)
  {
  }

  lemma OneMappingCovers(a: Arena, offset: nat, size: nat)
    requires |a.maps| == 1 && offset + size <= End(a.maps[0])
    ensures Covered(a.maps, offset, size)
  {
  }

  /** Closing and opening again keeps a sound file as it is, and every object with it. */
  lemma ReopeningKeeps(a: Arena, core: nat, objects: seq<Object>, data: nat)
    requires Sound(a, core) && Laid(a, core, objects) && |a.file| + BLOCK <= WIDE
    ensures var b := Adopted(a.file, data);
            b.file == a.file && Sound(b, core) && Laid(b, core, objects)
  {
    hide WordAt, Covered, AllApart;
    assert |a.file| % BLOCK == 0;
    Rounded(|a.file|, BLOCK);
    var b := Adopted(a.file, data);
    assert Round(|a.file|, BLOCK) == |a.file|;
    assert Resized(a.file, |a.file|) == a.file[..|a.file|] == a.file;
    OneApart(b.maps);
    forall i | 0 <= i < |objects|
      ensures ObjectLaid(b, core, objects[i])
    {
      assert ObjectLaid(a, core, objects[i]);
      OneMappingCovers(b, objects[i].offset, objects[i].size);
    }
  }

  // ---------------------------------------------------------------------------------------------
  // Reserving first

  const ONE_BLOCK := Kernel(true, true, BLOCK)
  const THREE_BLOCKS := Kernel(true, true, 16 * BLOCK)

  /** A new file of one block in which three blocks are reserved before anything is allocated. */
  function Scene(): Arena {
    var created := Created(24, ONE_BLOCK);
    if created.Some? && |created.value.file| >= BLOCK then Reserved(created.value, 3 * BLOCK, THREE_BLOCKS) else Arena([], [])
  }

  lemma SceneCreated()
    ensures Created(24, ONE_BLOCK).Some?
    ensures var a := Created(24, ONE_BLOCK).value;
            Sound(a, 24) && SizeOf(a) == 24 && |a.file| == BLOCK && a.maps == [Mapping(BLOCK, BLOCK, 0)]
  {
    hide PutWord, WordAt, Sound;
    assert Round(24, BLOCK) == BLOCK;
    CreatedSound(24, ONE_BLOCK);
  }

  lemma SceneReserved()
    ensures var a := Scene();
            Whole(a) && |a.file| == 3 * BLOCK && SizeOf(a) == 24
  {
    hide PutWord, WordAt, Created, Resized;
    SceneCreated();
    var a := Created(24, ONE_BLOCK).value;
    assert Round(3 * BLOCK, BLOCK) == 3 * BLOCK;
    GrownWhole(a, 3 * BLOCK, 16 * BLOCK);
    ReservedPrefix(a, 3 * BLOCK, THREE_BLOCKS);
    SameWord(a.file, Scene().file, 8);
  }

  lemma ReservedPrefix(a: Arena, capacity: nat, kernel: Kernel)
    requires |a.file| >= BLOCK && GrowthOf(a, capacity, kernel).Ready?
    ensures a.file <= Reserved(a, capacity, kernel).file
  {
    hide Round;
  }

  /** An allocation of three more blocks there is granted, and its tail lies in another mapping. */
  lemma ReservedSceneSplits(kernel: Kernel)
    requires kernel.truncates && kernel.maps
    ensures var b := Allocated(Scene(), 3 * BLOCK, kernel);
            var m := b.maps[Holder(b.maps, 0)];
            && GrantOf(Scene(), 3 * BLOCK, kernel) == Granted(24)
            && Address(b.maps, 24) < m.data + m.size < Address(b.maps, 24) + 3 * BLOCK
  {
    hide PutWord, WordAt, Scene, Whole;
    SceneReserved();
    ReservingSplits(Scene(), 3 * BLOCK, kernel);
  }
}
