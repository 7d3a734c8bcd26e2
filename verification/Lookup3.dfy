/** The hash functions, each way of reading a key against the one meaning of its bytes. */
module Lookup3 {
  import opened Mixing

  /** What the compiler knows about byte order. */
  datatype Machine = LittleEndian | BigEndian | UnknownEndian

  // ---------------------------------------------------------------------------------------------
  // Reading memory

  /** An aligned word in the machine's byte order. */
  function Read32(little: bool, memory: seq<bv8>, at: nat): bv32
    requires at + 4 <= |memory|
  {
    Word(little, memory[at], memory[at + 1], memory[at + 2], memory[at + 3])
  }

  /** An aligned half word in little-endian order. */
  function Read16(memory: seq<bv8>, at: nat): bv32
    requires at + 2 <= |memory|
  {
    Plus(Shifted(memory[at], 0), Shifted(memory[at + 1], 8))
  }

  function And(x: bv32, m: bv32): bv32 {
    x & m
  }

  function Rest(memory: seq<bv8>, at: nat, length: nat): seq<bv8>
    requires at <= length <= |memory|
  {
    memory[at..length]
  }

  /** One word of the key, whole or cut short by its end, against the memory it lies in. */
  lemma RestByte(memory: seq<bv8>, at: nat, length: nat, i: nat)
    requires at <= length <= |memory|
    ensures Byte(Rest(memory, at, length), i) == if at + i < length then memory[at + i] else 0
  {
  }

  // ---------------------------------------------------------------------------------------------
  // Words cut short

  lemma FirstThree(p: bv8, q: bv8, r: bv8, s: bv8)
    ensures And(Joined(p, q, r, s), 0xff_ffff) == Joined(p, q, r, 0)
  {
    hide Joined;
    JoinedIs(p, q, r, s);
    JoinedIs(p, q, r, 0);
    FirstThreeRaw(p, q, r, s);
  }

  lemma FirstThreeRaw(p: bv8, q: bv8, r: bv8, s: bv8)
    ensures And((p as bv32) | ((q as bv32) << 8) | ((r as bv32) << 16) | ((s as bv32) << 24), 0xff_ffff) ==
            (p as bv32) | ((q as bv32) << 8) | ((r as bv32) << 16) | ((0 as bv8 as bv32) << 24)
  {
  }

  lemma FirstTwo(p: bv8, q: bv8, r: bv8, s: bv8)
    ensures And(Joined(p, q, r, s), 0xffff) == Joined(p, q, 0, 0)
  {
    hide Joined;
    JoinedIs(p, q, r, s);
    JoinedIs(p, q, 0, 0);
    FirstTwoRaw(p, q, r, s);
  }

  lemma FirstTwoRaw(p: bv8, q: bv8, r: bv8, s: bv8)
    ensures And((p as bv32) | ((q as bv32) << 8) | ((r as bv32) << 16) | ((s as bv32) << 24), 0xffff) ==
            (p as bv32) | ((q as bv32) << 8) | ((0 as bv8 as bv32) << 16) | ((0 as bv8 as bv32) << 24)
  {
  }

  lemma FirstOne(p: bv8, q: bv8, r: bv8, s: bv8)
    ensures And(Joined(p, q, r, s), 0xff) == Joined(p, 0, 0, 0)
  {
    hide Joined;
    JoinedIs(p, q, r, s);
    JoinedIs(p, 0, 0, 0);
    FirstOneRaw(p, q, r, s);
  }

  lemma FirstOneRaw(p: bv8, q: bv8, r: bv8, s: bv8)
    ensures And((p as bv32) | ((q as bv32) << 8) | ((r as bv32) << 16) | ((s as bv32) << 24), 0xff) ==
            (p as bv32) | ((0 as bv8 as bv32) << 8) | ((0 as bv8 as bv32) << 16) | ((0 as bv8 as bv32) << 24)
  {
  }

  lemma LastThree(p: bv8, q: bv8, r: bv8, s: bv8)
    ensures And(Joined(p, q, r, s), 0xffff_ff00) == Joined(0, q, r, s)
  {
    hide Joined;
    JoinedIs(p, q, r, s);
    JoinedIs(0, q, r, s);
    LastThreeRaw(p, q, r, s);
  }

  lemma LastThreeRaw(p: bv8, q: bv8, r: bv8, s: bv8)
    ensures And((p as bv32) | ((q as bv32) << 8) | ((r as bv32) << 16) | ((s as bv32) << 24), 0xffff_ff00) ==
            (0 as bv8 as bv32) | ((q as bv32) << 8) | ((r as bv32) << 16) | ((s as bv32) << 24)
  {
  }

  lemma LastTwo(p: bv8, q: bv8, r: bv8, s: bv8)
    ensures And(Joined(p, q, r, s), 0xffff_0000) == Joined(0, 0, r, s)
  {
    hide Joined;
    JoinedIs(p, q, r, s);
    JoinedIs(0, 0, r, s);
    LastTwoRaw(p, q, r, s);
  }

  lemma LastTwoRaw(p: bv8, q: bv8, r: bv8, s: bv8)
    ensures And((p as bv32) | ((q as bv32) << 8) | ((r as bv32) << 16) | ((s as bv32) << 24), 0xffff_0000) ==
            (0 as bv8 as bv32) | ((0 as bv8 as bv32) << 8) | ((r as bv32) << 16) | ((s as bv32) << 24)
  {
  }

  lemma LastOne(p: bv8, q: bv8, r: bv8, s: bv8)
    ensures And(Joined(p, q, r, s), 0xff00_0000) == Joined(0, 0, 0, s)
  {
    hide Joined;
    JoinedIs(p, q, r, s);
    JoinedIs(0, 0, 0, s);
    LastOneRaw(p, q, r, s);
  }

  lemma LastOneRaw(p: bv8, q: bv8, r: bv8, s: bv8)
    ensures And((p as bv32) | ((q as bv32) << 8) | ((r as bv32) << 16) | ((s as bv32) << 24), 0xff00_0000) ==
            (0 as bv8 as bv32) | ((0 as bv8 as bv32) << 8) | ((0 as bv8 as bv32) << 16) | ((s as bv32) << 24)
  {
  }

  lemma NoByte(k: bv6)
    requires k < 32
    ensures Shifted(0, k) == 0
  {
  }

  lemma NoWord()
    ensures Joined(0, 0, 0, 0) == 0
  {
    JoinedIs(0, 0, 0, 0);
  }

  /** Addition of words is associative. */
  lemma Associate(x: bv32, y: bv32, z: bv32)
    ensures Plus(Plus(x, y), z) == Plus(x, Plus(y, z))
  {
    Pulled(x, y, z);
    PlusIs(x, y);
    PlusIs(y, z);
    hide Plus;
  }

  lemma Pulled(x: bv32, y: bv32, z: bv32)
    ensures Plus(x + y, z) == Plus(x, y + z)
  {
  }

  /** Four bytes added one by one, the least significant first. */
  lemma ByBytesUp(x: bv32, p: bv8, q: bv8, r: bv8, s: bv8)
    ensures Plus(Plus(Plus(Plus(x, Shifted(p, 0)), Shifted(q, 8)), Shifted(r, 16)), Shifted(s, 24)) == Plus(x, Joined(p, q, r, s))
  {
    hide Plus, Shifted;
    var a, b, c, d := Shifted(p, 0), Shifted(q, 8), Shifted(r, 16), Shifted(s, 24);
    Associate(x, a, b);
    Associate(x, Plus(a, b), c);
    Associate(x, Plus(Plus(a, b), c), d);
  }

  /** Four bytes added one by one, the most significant first. */
  lemma ByBytesDown(x: bv32, p: bv8, q: bv8, r: bv8, s: bv8)
    ensures Plus(Plus(Plus(Plus(x, Shifted(s, 24)), Shifted(r, 16)), Shifted(q, 8)), Shifted(p, 0)) == Plus(x, Joined(p, q, r, s))
  {
    hide Plus, Shifted;
    var a, b, c, d := Shifted(p, 0), Shifted(q, 8), Shifted(r, 16), Shifted(s, 24);
    Exchange(x, d, c);
    Exchange(Plus(x, c), d, b);
    Exchange(Plus(Plus(x, c), b), d, a);
    Exchange(x, c, b);
    Exchange(Plus(x, b), c, a);
    Exchange(x, b, a);
    ByBytesUp(x, p, q, r, s);
  }

  lemma Exchange(x: bv32, y: bv32, z: bv32)
    ensures Plus(Plus(x, y), z) == Plus(Plus(x, z), y)
  {
    hide Plus;
    Associate(x, y, z);
    Associate(x, z, y);
    Commute(y, z);
  }

  /** Two half words make a word. */
  lemma ByHalves(p: bv8, q: bv8, r: bv8, s: bv8)
    ensures Plus(Plus(Shifted(p, 0), Shifted(q, 8)), Shl(Plus(Shifted(r, 0), Shifted(s, 8)), 16)) == Joined(p, q, r, s)
  {
    HalfIs(p, q);
    HalfIs(r, s);
    JoinedIs(p, q, r, s);
    HalvesJoin(p, q, r, s);
    hide Joined, Plus, Shifted;
  }

  lemma HalfIs(p: bv8, q: bv8)
    ensures Plus(Shifted(p, 0), Shifted(q, 8)) == (p as bv32) | ((q as bv32) << 8)
  {
  }

  lemma HalvesJoin(p: bv8, q: bv8, r: bv8, s: bv8)
    ensures Plus((p as bv32) | ((q as bv32) << 8), Shl((r as bv32) | ((s as bv32) << 8), 16)) ==
            (p as bv32) | ((q as bv32) << 8) | ((r as bv32) << 16) | ((s as bv32) << 24)
  {
  }

  // ---------------------------------------------------------------------------------------------
  // Lanes

  /** The memory reaches to the end of the last word the key touches. */
  predicate Padded(memory: seq<bv8>, length: nat) {
    (length + 3) / 4 * 4 <= |memory|
  }

  /** How many bytes of the key fall into a word of the last block. */
  function Share(left: nat, lane: nat): nat {
    if left <= lane then 0 else if left >= lane + 4 then 4 else left - lane
  }

  /** A word of the key as a masked read of the memory. */
  function Masked(little: bool, memory: seq<bv8>, at: nat, share: nat): bv32
    requires share <= 4 && (share > 0 ==> at + 4 <= |memory|)
  {
    if share == 0 then 0
    else if share == 4 then Read32(little, memory, at)
    else if share == 3 then And(Read32(little, memory, at), if little then 0xff_ffff else 0xffff_ff00)
    else if share == 2 then And(Read32(little, memory, at), if little then 0xffff else 0xffff_0000)
    else And(Read32(little, memory, at), if little then 0xff else 0xff00_0000)
  }

  /** Masking away what lies behind the key leaves the key's own bytes. */
  lemma MaskedIsKey(little: bool, memory: seq<bv8>, at: nat, length: nat, lane: nat)
    requires at <= length <= |memory| && (Share(length - at, lane) > 0 ==> at + lane + 4 <= |memory|)
    ensures WordAt(little, Rest(memory, at, length), lane) == Masked(little, memory, at + lane, Share(length - at, lane))
  {
    hide And, Joined, Rest, Byte;
    RestByte(memory, at, length, lane);
    RestByte(memory, at, length, lane + 1);
    RestByte(memory, at, length, lane + 2);
    RestByte(memory, at, length, lane + 3);
    NoWord();
    if Share(length - at, lane) > 0 {
      MaskedParts(little, memory[at + lane], memory[at + lane + 1], memory[at + lane + 2], memory[at + lane + 3]);
    }
  }

  lemma MaskedParts(little: bool, p: bv8, q: bv8, r: bv8, s: bv8)
    ensures And(Word(little, p, q, r, s), if little then 0xff_ffff else 0xffff_ff00) == Word(little, p, q, r, 0)
    ensures And(Word(little, p, q, r, s), if little then 0xffff else 0xffff_0000) == Word(little, p, q, 0, 0)
    ensures And(Word(little, p, q, r, s), if little then 0xff else 0xff00_0000) == Word(little, p, 0, 0, 0)
  {
    hide And, Joined;
    FirstThree(p, q, r, s);
    FirstTwo(p, q, r, s);
    FirstOne(p, q, r, s);
    LastThree(s, r, q, p);
    LastTwo(s, r, q, p);
    LastOne(s, r, q, p);
  }

  /** A lane added byte by byte, absent bytes left out. */
  lemma BytesOfLane(little: bool, x: bv32, key: seq<bv8>, lane: nat)
    ensures little ==>
              Plus(Plus(Plus(Plus(x, Shifted(Byte(key, lane + 3), 24)), Shifted(Byte(key, lane + 2), 16)),
                        Shifted(Byte(key, lane + 1), 8)), Shifted(Byte(key, lane), 0)) == Plus(x, WordAt(little, key, lane))
              && Plus(Plus(Plus(Plus(x, Shifted(Byte(key, lane), 0)), Shifted(Byte(key, lane + 1), 8)),
                           Shifted(Byte(key, lane + 2), 16)), Shifted(Byte(key, lane + 3), 24)) == Plus(x, WordAt(little, key, lane))
    ensures !little ==>
              Plus(Plus(Plus(Plus(x, Shifted(Byte(key, lane + 3), 0)), Shifted(Byte(key, lane + 2), 8)),
                        Shifted(Byte(key, lane + 1), 16)), Shifted(Byte(key, lane), 24)) == Plus(x, WordAt(little, key, lane))
              && Plus(Plus(Plus(Plus(x, Shifted(Byte(key, lane), 24)), Shifted(Byte(key, lane + 1), 16)),
                           Shifted(Byte(key, lane + 2), 8)), Shifted(Byte(key, lane + 3), 0)) == Plus(x, WordAt(little, key, lane))
  {
    hide Plus, Shifted, Byte, Joined;
    var p, q, r, s := Byte(key, lane), Byte(key, lane + 1), Byte(key, lane + 2), Byte(key, lane + 3);
    if little {
      ByBytesUp(x, p, q, r, s);
      ByBytesDown(x, p, q, r, s);
    } else {
      ByBytesUp(x, s, r, q, p);
      ByBytesDown(x, s, r, q, p);
    }
  }

  lemma AddNothing(x: bv32, k: bv6)
    requires k < 32
    ensures Plus(x, Shifted(0, k)) == x
  {
    hide Plus, Shifted;
    NoByte(k);
    NoAddend(x);
  }

  // ---------------------------------------------------------------------------------------------
  // The last block

  method LastWords(little: bool, memory: seq<bv8>, at: nat, length: nat, s: State) returns (t: State)
    requires at <= length <= |memory| && length - at <= 12 && at % 4 == 0 && Padded(memory, length)
    ensures t == Added(little, s, Rest(memory, at, length))
  {
    hide And, Plus, Word, WordAt, Rest;
    var a, b, c := s.a, s.b, s.c;
    ghost var left := length - at;
    MaskedIsKey(little, memory, at, length, 0);
    MaskedIsKey(little, memory, at, length, 4);
    MaskedIsKey(little, memory, at, length, 8);
    NoAddend(a);
    NoAddend(b);
    NoAddend(c);
    var three, two, one: bv32 := if little then 0xff_ffff else 0xffff_ff00, if little then 0xffff else 0xffff_0000, if little then 0xff else 0xff00_0000;
    match length - at {
    case 12 => c := Plus(c, Read32(little, memory, at + 8)); b := Plus(b, Read32(little, memory, at + 4)); a := Plus(a, Read32(little, memory, at));
    case 11 => c := Plus(c, And(Read32(little, memory, at + 8), three)); b := Plus(b, Read32(little, memory, at + 4)); a := Plus(a, Read32(little, memory, at));
    case 10 => c := Plus(c, And(Read32(little, memory, at + 8), two)); b := Plus(b, Read32(little, memory, at + 4)); a := Plus(a, Read32(little, memory, at));
    case 9 => c := Plus(c, And(Read32(little, memory, at + 8), one)); b := Plus(b, Read32(little, memory, at + 4)); a := Plus(a, Read32(little, memory, at));
    case 8 => b := Plus(b, Read32(little, memory, at + 4)); a := Plus(a, Read32(little, memory, at));
    case 7 => b := Plus(b, And(Read32(little, memory, at + 4), three)); a := Plus(a, Read32(little, memory, at));
    case 6 => b := Plus(b, And(Read32(little, memory, at + 4), two)); a := Plus(a, Read32(little, memory, at));
    case 5 => b := Plus(b, And(Read32(little, memory, at + 4), one)); a := Plus(a, Read32(little, memory, at));
    case 4 => a := Plus(a, Read32(little, memory, at));
    case 3 => a := Plus(a, And(Read32(little, memory, at), three));
    case 2 => a := Plus(a, And(Read32(little, memory, at), two));
    case 1 => a := Plus(a, And(Read32(little, memory, at), one));
    case _ =>
    }
    t := State(a, b, c);
  }

  /** A byte behind the key adds nothing. */
  lemma Present(memory: seq<bv8>, at: nat, length: nat, i: nat, x: bv32, k: bv6)
    requires at <= length <= |memory| && k < 32
    ensures Plus(x, Shifted(Byte(Rest(memory, at, length), i), k)) ==
            if at + i < length then Plus(x, Shifted(memory[at + i], k)) else x
  {
    hide Plus, Shifted, Rest, Byte;
    RestByte(memory, at, length, i);
    AddNothing(x, k);
  }

  /** The bytes the key has of one lane, from the last to the first. */
  method LaneBytes(little: bool, memory: seq<bv8>, at: nat, length: nat, lane: nat, s: bv32) returns (x: bv32)
    requires at <= length <= |memory|
    ensures x == Plus(s, WordAt(little, Rest(memory, at, length), lane))
  {
    hide Plus, WordAt, Rest, Byte, Shifted;
    x := s;
    BytesOfLane(little, x, Rest(memory, at, length), lane);
    Present(memory, at, length, lane + 3, x, if little then 24 else 0);
    if length >= at + lane + 4 { x := Plus(x, Shifted(memory[at + lane + 3], if little then 24 else 0)); }
    Present(memory, at, length, lane + 2, x, if little then 16 else 8);
    if length >= at + lane + 3 { x := Plus(x, Shifted(memory[at + lane + 2], if little then 16 else 8)); }
    Present(memory, at, length, lane + 1, x, if little then 8 else 16);
    if length >= at + lane + 2 { x := Plus(x, Shifted(memory[at + lane + 1], if little then 8 else 16)); }
    Present(memory, at, length, lane, x, if little then 0 else 24);
    if length >= at + lane + 1 { x := Plus(x, Shifted(memory[at + lane], if little then 0 else 24)); }
  }

  method LastBytes(little: bool, memory: seq<bv8>, at: nat, length: nat, s: State) returns (t: State)
    requires at <= length <= |memory| && length - at <= 12
    ensures t == Added(little, s, Rest(memory, at, length))
  {
    hide Plus, WordAt, Rest;
    var c := LaneBytes(little, memory, at, length, 8, s.c);
    var b := LaneBytes(little, memory, at, length, 4, s.b);
    var a := LaneBytes(little, memory, at, length, 0, s.a);
    t := State(a, b, c);
  }

  /** Whole words as words, the bytes of a cut word one by one: no read behind the key. */
  method LaneCareful(little: bool, memory: seq<bv8>, at: nat, length: nat, lane: nat, s: bv32) returns (x: bv32)
    requires at <= length <= |memory|
    ensures x == Plus(s, WordAt(little, Rest(memory, at, length), lane))
  {
    hide And, Plus, Word, WordAt, Rest;
    if length >= at + lane + 4 {
      MaskedIsKey(little, memory, at, length, lane);
      x := Plus(s, Read32(little, memory, at + lane));
    } else {
      x := LaneBytes(little, memory, at, length, lane, s);
    }
  }

  method LastCareful(little: bool, memory: seq<bv8>, at: nat, length: nat, s: State) returns (t: State)
    requires at <= length <= |memory| && length - at <= 12
    ensures t == Added(little, s, Rest(memory, at, length))
  {
    hide Plus, WordAt, Rest;
    var c := LaneCareful(little, memory, at, length, 8, s.c);
    var b := LaneCareful(little, memory, at, length, 4, s.b);
    var a := LaneCareful(little, memory, at, length, 0, s.a);
    t := State(a, b, c);
  }

  lemma HalvesOfLane(memory: seq<bv8>, at: nat, length: nat, lane: nat, x: bv32)
    requires at <= length <= |memory|
    ensures var w := WordAt(true, Rest(memory, at, length), lane);
            && (length >= at + lane + 4 ==> w == Plus(Read16(memory, at + lane), Shl(Read16(memory, at + lane + 2), 16)))
            && (length == at + lane + 3 ==>
                  Plus(Plus(x, Shifted(memory[at + lane + 2], 16)), Read16(memory, at + lane)) == Plus(x, w))
            && (length == at + lane + 2 ==> w == Read16(memory, at + lane))
            && (length == at + lane + 1 ==> w == Shifted(memory[at + lane], 0))
            && (length <= at + lane ==> Plus(x, w) == x)
  {
    hide Plus, Shifted, Shl, Rest, Byte;
    RestByte(memory, at, length, lane);
    RestByte(memory, at, length, lane + 1);
    RestByte(memory, at, length, lane + 2);
    RestByte(memory, at, length, lane + 3);
    NoByte(8);
    NoByte(16);
    NoByte(24);
    NoWord();
    NoAddend(x);
    if length >= at + lane + 4 {
      ByHalves(memory[at + lane], memory[at + lane + 1], memory[at + lane + 2], memory[at + lane + 3]);
    } else if length == at + lane + 3 {
      Exchange(x, Shifted(memory[at + lane + 2], 16), Read16(memory, at + lane));
      Associate(x, Read16(memory, at + lane), Shifted(memory[at + lane + 2], 16));
      NoAddend(Plus(Read16(memory, at + lane), Shifted(memory[at + lane + 2], 16)));
    } else if length == at + lane + 2 {
      NoAddend(Read16(memory, at + lane));
    } else if length == at + lane + 1 {
      NoAddend(Shifted(memory[at + lane], 0));
    }
  }

  method LaneHalves(memory: seq<bv8>, at: nat, length: nat, lane: nat, s: bv32) returns (x: bv32)
    requires at <= length <= |memory|
    ensures x == Plus(s, WordAt(true, Rest(memory, at, length), lane))
  {
    hide Plus, WordAt, Rest, Shifted, Shl, Read16;
    HalvesOfLane(memory, at, length, lane, s);
    x := s;
    if length >= at + lane + 4 {
      x := Plus(x, Plus(Read16(memory, at + lane), Shl(Read16(memory, at + lane + 2), 16)));
    } else if length == at + lane + 3 {
      x := Plus(x, Shifted(memory[at + lane + 2], 16));
      x := Plus(x, Read16(memory, at + lane));
    } else if length == at + lane + 2 {
      x := Plus(x, Read16(memory, at + lane));
    } else if length == at + lane + 1 {
      x := Plus(x, Shifted(memory[at + lane], 0));
    }
  }

  method LastHalves(memory: seq<bv8>, at: nat, length: nat, s: State) returns (t: State)
    requires at <= length <= |memory| && length - at <= 12
    ensures t == Added(true, s, Rest(memory, at, length))
  {
    hide Plus, WordAt, Rest;
    var c := LaneHalves(memory, at, length, 8, s.c);
    var b := LaneHalves(memory, at, length, 4, s.b);
    var a := LaneHalves(memory, at, length, 0, s.a);
    t := State(a, b, c);
  }

  // ---------------------------------------------------------------------------------------------
  // Whole keys

  /** The whole words of a block are the key's words. */
  lemma BlockWords(little: bool, memory: seq<bv8>, at: nat, length: nat)
    requires at + 12 < length <= |memory|
    ensures var key := Rest(memory, at, length)[..12];
            && WordAt(little, key, 0) == Read32(little, memory, at)
            && WordAt(little, key, 4) == Read32(little, memory, at + 4)
            && WordAt(little, key, 8) == Read32(little, memory, at + 8)
  {
    hide Word;
    var key := Rest(memory, at, length)[..12];
    forall i: nat | i < 12
      ensures Byte(key, i) == memory[at + i]
    {
      assert key[i] == Rest(memory, at, length)[i] == memory[at + i];
    }
    assert Byte(key, 0 + 1) == memory[at + 1] && Byte(key, 4 + 1) == memory[at + 4 + 1] && Byte(key, 8 + 1) == memory[at + 8 + 1];
  }

  lemma NextBlock(little: bool, memory: seq<bv8>, at: nat, length: nat, s: State)
    requires at + 12 < length <= |memory|
    ensures Hashed(little, s, Rest(memory, at, length)) ==
            Hashed(little, Mix(State(Plus(s.a, Read32(little, memory, at)), Plus(s.b, Read32(little, memory, at + 4)),
                                     Plus(s.c, Read32(little, memory, at + 8)))), Rest(memory, at + 12, length))
  {
    hide Word, Plus, Mix, WordAt, Read32;
    BlockWords(little, memory, at, length);
    assert Rest(memory, at, length)[12..] == Rest(memory, at + 12, length);
  }

  lemma LastBlock(little: bool, memory: seq<bv8>, at: nat, length: nat, s: State)
    requires at <= length <= |memory| && length - at <= 12
    ensures Hashed(little, s, Rest(memory, at, length)) ==
            if at == length then s else Final(Added(little, s, Rest(memory, at, length)))
  {
    hide Final, Added;
  }

  /** Aligned words, the last block either masked or read with care. */
  method ByWords(little: bool, memory: seq<bv8>, length: nat, s0: State, masked: bool) returns (s: State)
    requires length <= |memory| && (masked ==> Padded(memory, length))
    ensures s == Hashed(little, s0, Rest(memory, 0, length))
  {
    hide Hashed, Rest, Added, Mix, Final, Word, Plus;
    s := s0;
    var k: nat := 0;
    while length - k > 12
      invariant k <= length && k % 4 == 0
      invariant Hashed(little, s, Rest(memory, k, length)) == Hashed(little, s0, Rest(memory, 0, length))
    {
      NextBlock(little, memory, k, length, s);
      var a := Plus(s.a, Read32(little, memory, k));
      var b := Plus(s.b, Read32(little, memory, k + 4));
      var c := Plus(s.c, Read32(little, memory, k + 8));
      s := Mix(State(a, b, c));
      k := k + 12;
    }
    LastBlock(little, memory, k, length, s);
    if k == length { return; }
    if masked { s := LastWords(little, memory, k, length, s); } else { s := LastCareful(little, memory, k, length, s); }
    s := Final(s);
  }

  method ByHalfWords(memory: seq<bv8>, length: nat, s0: State) returns (s: State)
    requires length <= |memory|
    ensures s == Hashed(true, s0, Rest(memory, 0, length))
  {
    hide Hashed, Rest, Added, Mix, Final, Word, Plus, Read16, Shl;
    s := s0;
    var k: nat := 0;
    while length - k > 12
      invariant k <= length
      invariant Hashed(true, s, Rest(memory, k, length)) == Hashed(true, s0, Rest(memory, 0, length))
    {
      NextBlock(true, memory, k, length, s);
      HalvesAreWord(memory, k);
      HalvesAreWord(memory, k + 4);
      HalvesAreWord(memory, k + 8);
      var a := Plus(s.a, Plus(Read16(memory, k), Shl(Read16(memory, k + 2), 16)));
      var b := Plus(s.b, Plus(Read16(memory, k + 4), Shl(Read16(memory, k + 6), 16)));
      var c := Plus(s.c, Plus(Read16(memory, k + 8), Shl(Read16(memory, k + 10), 16)));
      s := Mix(State(a, b, c));
      k := k + 12;
    }
    LastBlock(true, memory, k, length, s);
    if k == length { return; }
    s := LastHalves(memory, k, length, s);
    s := Final(s);
  }

  lemma HalvesAreWord(memory: seq<bv8>, at: nat)
    requires at + 4 <= |memory|
    ensures Plus(Read16(memory, at), Shl(Read16(memory, at + 2), 16)) == Read32(true, memory, at)
  {
    hide Plus, Shl, Shifted, Joined;
    ByHalves(memory[at], memory[at + 1], memory[at + 2], memory[at + 3]);
  }

  method ByBytes(little: bool, memory: seq<bv8>, length: nat, s0: State) returns (s: State)
    requires length <= |memory|
    ensures s == Hashed(little, s0, Rest(memory, 0, length))
  {
    hide Hashed, Rest, Added, Mix, Final, Word, Plus, Shifted, Read32;
    s := s0;
    var k: nat := 0;
    while length - k > 12
      invariant k <= length
      invariant Hashed(little, s, Rest(memory, k, length)) == Hashed(little, s0, Rest(memory, 0, length))
    {
      NextBlock(little, memory, k, length, s);
      BytesAreWord(little, memory, k, s.a);
      BytesAreWord(little, memory, k + 4, s.b);
      BytesAreWord(little, memory, k + 8, s.c);
      var a := FourBytes(little, memory, k, s.a);
      var b := FourBytes(little, memory, k + 4, s.b);
      var c := FourBytes(little, memory, k + 8, s.c);
      s := Mix(State(a, b, c));
      k := k + 12;
    }
    LastBlock(little, memory, k, length, s);
    if k == length { return; }
    s := LastBytes(little, memory, k, length, s);
    s := Final(s);
  }

  /** Four bytes added one after the other. */
  function FourBytes(little: bool, memory: seq<bv8>, at: nat, x: bv32): bv32
    requires at + 4 <= |memory|
  {
    if little then
      Plus(Plus(Plus(Plus(x, Shifted(memory[at], 0)), Shifted(memory[at + 1], 8)), Shifted(memory[at + 2], 16)), Shifted(memory[at + 3], 24))
    else
      Plus(Plus(Plus(Plus(x, Shifted(memory[at], 24)), Shifted(memory[at + 1], 16)), Shifted(memory[at + 2], 8)), Shifted(memory[at + 3], 0))
  }

  lemma BytesAreWord(little: bool, memory: seq<bv8>, at: nat, x: bv32)
    requires at + 4 <= |memory|
    ensures FourBytes(little, memory, at, x) == Plus(x, Read32(little, memory, at))
  {
    hide Plus, Shifted, Joined;
    var p, q, r, s := memory[at], memory[at + 1], memory[at + 2], memory[at + 3];
    if little { ByBytesUp(x, p, q, r, s); } else { ByBytesDown(x, s, r, q, p); }
  }

  // ---------------------------------------------------------------------------------------------
  // The functions

  /** The state a key leads to from its length and the seeds. */
  function Outcome(little: bool, key: seq<bv8>, seed: bv32, more: bv32): State {
    Hashed(little, Start(Wrapped(|key|), seed, more), key)
  }

  lemma WholeKey(memory: seq<bv8>, length: nat)
    requires length <= |memory|
    ensures Rest(memory, 0, length) == memory[..length] && |memory[..length]| == length
  {
  }

  method HashLittle2(machine: Machine, address: nat, memory: seq<bv8>, length: nat, seed: bv32, more: bv32, masked: bool)
    returns (primary: bv32, secondary: bv32)
    requires length <= |memory| && (masked && address % 4 == 0 ==> Padded(memory, length))
    ensures primary == Outcome(true, memory[..length], seed, more).c && secondary == Outcome(true, memory[..length], seed, more).b
  {
    hide Hashed, Start, Wrapped;
    WholeKey(memory, length);
    var s := Start(Wrapped(length), seed, more);
    if machine.LittleEndian? && address % 4 == 0 { s := ByWords(true, memory, length, s, masked); }
    else if machine.LittleEndian? && address % 2 == 0 { s := ByHalfWords(memory, length, s); }
    else { s := ByBytes(true, memory, length, s); }
    primary, secondary := s.c, s.b;
  }

  method HashLittle(machine: Machine, address: nat, memory: seq<bv8>, length: nat, seed: bv32, masked: bool) returns (h: bv32)
    requires length <= |memory| && (masked && address % 4 == 0 ==> Padded(memory, length))
    ensures h == Outcome(true, memory[..length], seed, 0).c
  {
    hide Hashed, Wrapped, Plus;
    WholeKey(memory, length);
    var x := Plus(Plus(0xdead_beef, Wrapped(length)), seed);
    var s := State(x, x, x);
    NoAddend(x);
    if machine.LittleEndian? && address % 4 == 0 { s := ByWords(true, memory, length, s, masked); }
    else if machine.LittleEndian? && address % 2 == 0 { s := ByHalfWords(memory, length, s); }
    else { s := ByBytes(true, memory, length, s); }
    h := s.c;
  }

  method HashBig(machine: Machine, address: nat, memory: seq<bv8>, length: nat, seed: bv32, masked: bool) returns (h: bv32)
    requires length <= |memory| && (masked && address % 4 == 0 ==> Padded(memory, length))
    ensures h == Outcome(false, memory[..length], seed, 0).c
  {
    hide Hashed, Wrapped, Plus;
    WholeKey(memory, length);
    var x := Plus(Plus(0xdead_beef, Wrapped(length)), seed);
    var s := State(x, x, x);
    NoAddend(x);
    if machine.BigEndian? && address % 4 == 0 { s := ByWords(false, memory, length, s, masked); }
    else { s := ByBytes(false, memory, length, s); }
    h := s.c;
  }

  // ---------------------------------------------------------------------------------------------
  // Keys of words

  /** The bytes of the words, as the machine stores them. */
  predicate Stores(little: bool, words: seq<bv32>, key: seq<bv8>) {
    |key| == 4 * |words| && forall i :: 0 <= i < |words| ==> words[i] == WordAt(little, key, 4 * i)
  }

  function StoredWord(little: bool, x: bv32): seq<bv8> {
    if little then [Part(x, 0), Part(x, 8), Part(x, 16), Part(x, 24)] else [Part(x, 24), Part(x, 16), Part(x, 8), Part(x, 0)]
  }

  /** What a machine of that byte order holds in memory for the words. */
  function BytesOf(little: bool, words: seq<bv32>): (key: seq<bv8>)
    ensures |key| == 4 * |words|
  {
    if |words| == 0 then [] else BytesOf(little, words[..|words| - 1]) + StoredWord(little, words[|words| - 1])
  }

  lemma PartsJoin(x: bv32)
    ensures Joined(Part(x, 0), Part(x, 8), Part(x, 16), Part(x, 24)) == x
  {
    hide Joined;
    JoinedIs(Part(x, 0), Part(x, 8), Part(x, 16), Part(x, 24));
  }

  lemma {:induction false} BytesStored(little: bool, words: seq<bv32>)
    ensures Stores(little, words, BytesOf(little, words))
  {
    hide Joined, Part;
    if |words| > 0 {
      var n := |words| - 1;
      var front, key := BytesOf(little, words[..n]), BytesOf(little, words);
      BytesStored(little, words[..n]);
      PartsJoin(words[n]);
      forall i | 0 <= i < |words|
        ensures words[i] == WordAt(little, key, 4 * i)
      {
        if i < n { assert words[..n][i] == WordAt(little, front, 4 * i); }
      }
    }
  }

  lemma StoredRest(little: bool, words: seq<bv32>, key: seq<bv8>)
    requires Stores(little, words, key) && |words| >= 3
    ensures Stores(little, words[3..], key[12..])
  {
    hide Word;
    forall i | 0 <= i < |words[3..]|
      ensures words[3..][i] == WordAt(little, key[12..], 4 * i)
    {
      assert words[i + 3] == WordAt(little, key, 4 * (i + 3));
    }
  }

  lemma WordOfFront(little: bool, words: seq<bv32>, key: seq<bv8>, i: nat)
    requires Stores(little, words, key) && i < |words| && i < 3
    ensures WordAt(little, if |key| > 12 then key[..12] else key, 4 * i) == words[i]
  {
    hide Word;
  }

  lemma WordsOfBlock(little: bool, words: seq<bv32>, key: seq<bv8>, s: State)
    requires Stores(little, words, key) && |words| > 3
    ensures Added(little, s, key[..12]) == State(Plus(s.a, words[0]), Plus(s.b, words[1]), Plus(s.c, words[2]))
  {
    hide Plus, WordAt;
    WordOfFront(little, words, key, 0);
    WordOfFront(little, words, key, 1);
    WordOfFront(little, words, key, 2);
  }

  lemma WordsOfLast(little: bool, words: seq<bv32>, key: seq<bv8>, s: State)
    requires Stores(little, words, key) && |words| <= 3
    ensures var t := Added(little, s, key);
            && t.a == (if |words| >= 1 then Plus(s.a, words[0]) else s.a)
            && t.b == (if |words| >= 2 then Plus(s.b, words[1]) else s.b)
            && t.c == (if |words| >= 3 then Plus(s.c, words[2]) else s.c)
  {
    hide Plus, Joined;
    NoWord();
    NoAddend(s.a);
    NoAddend(s.b);
    NoAddend(s.c);
  }

  /** Words give what their bytes in the machine's order give. */
  method ByWordArray(ghost little: bool, words: seq<bv32>, ghost key: seq<bv8>, s0: State) returns (s: State)
    requires Stores(little, words, key)
    ensures s == Hashed(little, s0, key)
  {
    hide Hashed, Stores, Added, Mix, Final, Plus;
    s := s0;
    var k: nat := 0;
    ghost var rest := key;
    while |words| - k > 3
      invariant k <= |words| && Stores(little, words[k..], rest)
      invariant Hashed(little, s, rest) == Hashed(little, s0, key)
    {
      WordsNext(little, words[k..], rest, s);
      s := Mix(State(Plus(s.a, words[k]), Plus(s.b, words[k + 1]), Plus(s.c, words[k + 2])));
      rest := rest[12..];
      assert words[k..][3..] == words[k + 3..];
      k := k + 3;
    }
    WordsEnd(little, words[k..], rest, s);
    var left := |words| - k;
    if left == 0 { return; }
    var a, b, c := s.a, s.b, s.c;
    if left >= 3 { c := Plus(c, words[k + 2]); }
    if left >= 2 { b := Plus(b, words[k + 1]); }
    a := Plus(a, words[k]);
    s := Final(State(a, b, c));
  }

  lemma WordsNext(little: bool, words: seq<bv32>, key: seq<bv8>, s: State)
    requires Stores(little, words, key) && |words| > 3
    ensures |key| >= 12 && Stores(little, words[3..], key[12..])
    ensures Hashed(little, s, key) ==
            Hashed(little, Mix(State(Plus(s.a, words[0]), Plus(s.b, words[1]), Plus(s.c, words[2]))), key[12..])
  {
    hide Plus, Mix, Added, WordAt;
    StoredRest(little, words, key);
    WordsOfBlock(little, words, key, s);
  }

  lemma WordsEnd(little: bool, words: seq<bv32>, key: seq<bv8>, s: State)
    requires Stores(little, words, key) && |words| <= 3
    ensures Hashed(little, s, key) ==
            if |words| == 0 then s
            else Final(State(Plus(s.a, words[0]), if |words| >= 2 then Plus(s.b, words[1]) else s.b,
                             if |words| >= 3 then Plus(s.c, words[2]) else s.c))
  {
    hide Plus, Final, Added, WordAt;
    WordsOfLast(little, words, key, s);
  }

  method HashWord2(ghost little: bool, words: seq<bv32>, seed: bv32, more: bv32) returns (primary: bv32, secondary: bv32)
    ensures primary == Outcome(little, BytesOf(little, words), seed, more).c
    ensures secondary == Outcome(little, BytesOf(little, words), seed, more).b
  {
    hide Hashed, Start, Wrapped, Stores;
    BytesStored(little, words);
    var s := ByWordArray(little, words, BytesOf(little, words), Start(Wrapped(4 * |words|), seed, more));
    primary, secondary := s.c, s.b;
  }

  /** The same value as hashing the words' bytes, whichever the byte order. */
  method HashWord(ghost little: bool, words: seq<bv32>, seed: bv32) returns (h: bv32)
    ensures h == Outcome(little, BytesOf(little, words), seed, 0).c
  {
    hide Hashed, Wrapped, Plus, Shl, Stores;
    BytesStored(little, words);
    WrappedFourfold(|words|);
    var x := Plus(Plus(0xdead_beef, Shl(Wrapped(|words|), 2)), seed);
    NoAddend(x);
    var s := ByWordArray(little, words, BytesOf(little, words), State(x, x, x));
    h := s.c;
  }
}
