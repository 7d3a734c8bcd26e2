/** The mixing steps of the hash and their inverses, and what they make of a key. */
module Mixing {
  datatype State = State(a: bv32, b: bv32, c: bv32)

  // ---------------------------------------------------------------------------------------------
  // Single steps

  function Plus(x: bv32, y: bv32): bv32 {
    x + y
  }

  function Minus(x: bv32, y: bv32): bv32 {
    x - y
  }

  function Xor(x: bv32, y: bv32): bv32 {
    x ^ y
  }

  function Rot(x: bv32, k: bv6): bv32
    requires 0 < k < 32
  {
    (x << k) | (x >> (32 - k))
  }

  /** Half a line of the mix: subtract and rotate in. */
  function Turn(x: bv32, y: bv32, k: bv6): bv32
    requires 0 < k < 32
  {
    Xor(Minus(x, y), Rot(y, k))
  }

  function Unturn(x: bv32, y: bv32, k: bv6): bv32
    requires 0 < k < 32
  {
    Plus(Xor(x, Rot(y, k)), y)
  }

  /** One line of the final mix. */
  function Stir(x: bv32, y: bv32, k: bv6): bv32
    requires 0 < k < 32
  {
    Minus(Xor(x, y), Rot(y, k))
  }

  function Unstir(x: bv32, y: bv32, k: bv6): bv32
    requires 0 < k < 32
  {
    Xor(Plus(x, Rot(y, k)), y)
  }

  lemma TurnUndone(x: bv32, y: bv32, k: bv6)
    requires 0 < k < 32
    ensures Unturn(Turn(x, y, k), y, k) == x && Turn(Unturn(x, y, k), y, k) == x
  {
    hide Rot, Xor, Plus, Minus;
    UndoXor(Minus(x, y), Rot(y, k));
    UndoXor(x, Rot(y, k));
    UndoMinus(x, y);
    UndoMinus(Xor(x, Rot(y, k)), y);
  }

  lemma StirUndone(x: bv32, y: bv32, k: bv6)
    requires 0 < k < 32
    ensures Unstir(Stir(x, y, k), y, k) == x && Stir(Unstir(x, y, k), y, k) == x
  {
    hide Rot, Xor, Plus, Minus;
    UndoXor(x, y);
    UndoXor(Plus(x, Rot(y, k)), y);
    UndoMinus(Xor(x, y), Rot(y, k));
    UndoMinus(x, Rot(y, k));
  }

  lemma XorTwice(x: bv32, r: bv32)
    ensures (x ^ r) ^ r == x
  {
  }

  lemma MinusIs(x: bv32, y: bv32)
    ensures Minus(x, y) == x - y
  {
  }

  lemma PlusIs(x: bv32, y: bv32)
    ensures Plus(x, y) == x + y
  {
  }

  lemma AddBack(x: bv32, y: bv32)
    ensures Plus(x - y, y) == x
  {
  }

  lemma TakeBack(x: bv32, y: bv32)
    ensures Minus(x + y, y) == x
  {
  }

  lemma UndoXor(x: bv32, r: bv32)
    ensures Xor(Xor(x, r), r) == x
  {
    XorTwice(x, r);
  }

  lemma UndoMinus(x: bv32, y: bv32)
    ensures Plus(Minus(x, y), y) == x && Minus(Plus(x, y), y) == x
  {
    hide Plus, Minus;
    AddBack(x, y);
    TakeBack(x, y);
    MinusIs(x, y);
    PlusIs(x, y);
  }

  // ---------------------------------------------------------------------------------------------
  // The mix

  function MixA(s: State, k: bv6): State
    requires 0 < k < 32
  {
    State(Turn(s.a, s.c, k), s.b, Plus(s.c, s.b))
  }

  function MixB(s: State, k: bv6): State
    requires 0 < k < 32
  {
    State(Plus(s.a, s.c), Turn(s.b, s.a, k), s.c)
  }

  function MixC(s: State, k: bv6): State
    requires 0 < k < 32
  {
    State(s.a, Plus(s.b, s.a), Turn(s.c, s.b, k))
  }

  function UnmixA(s: State, k: bv6): State
    requires 0 < k < 32
  {
    var c := Minus(s.c, s.b);
    State(Unturn(s.a, c, k), s.b, c)
  }

  function UnmixB(s: State, k: bv6): State
    requires 0 < k < 32
  {
    var a := Minus(s.a, s.c);
    State(a, Unturn(s.b, a, k), s.c)
  }

  function UnmixC(s: State, k: bv6): State
    requires 0 < k < 32
  {
    var b := Minus(s.b, s.a);
    State(s.a, b, Unturn(s.c, b, k))
  }

  function Mix(s: State): State {
    MixC(MixB(MixA(MixC(MixB(MixA(s, 4), 6), 8), 16), 19), 4)
  }

  function Unmix(s: State): State {
    UnmixA(UnmixB(UnmixC(UnmixA(UnmixB(UnmixC(s, 4), 19), 16), 8), 6), 4)
  }

  lemma LineUndone(s: State, k: bv6)
    requires 0 < k < 32
    ensures UnmixA(MixA(s, k), k) == s && MixA(UnmixA(s, k), k) == s
    ensures UnmixB(MixB(s, k), k) == s && MixB(UnmixB(s, k), k) == s
    ensures UnmixC(MixC(s, k), k) == s && MixC(UnmixC(s, k), k) == s
  {
    hide Turn, Unturn, Plus, Minus;
    UndoMinus(s.c, s.b);
    UndoMinus(s.a, s.c);
    UndoMinus(s.b, s.a);
    TurnUndone(s.a, s.c, k);
    TurnUndone(s.b, s.a, k);
    TurnUndone(s.c, s.b, k);
    TurnUndone(s.a, Minus(s.c, s.b), k);
    TurnUndone(s.b, Minus(s.a, s.c), k);
    TurnUndone(s.c, Minus(s.b, s.a), k);
  }

  /** The mix is a bijection. */
  lemma MixReversible(s: State)
    ensures Unmix(Mix(s)) == s && Mix(Unmix(s)) == s
  {
    hide MixA, MixB, MixC, UnmixA, UnmixB, UnmixC;
    var s1 := MixA(s, 4);
    var s2 := MixB(s1, 6);
    var s3 := MixC(s2, 8);
    var s4 := MixA(s3, 16);
    var s5 := MixB(s4, 19);
    LineUndone(s, 4);
    LineUndone(s1, 6);
    LineUndone(s2, 8);
    LineUndone(s3, 16);
    LineUndone(s4, 19);
    LineUndone(s5, 4);
    var t1 := UnmixC(s, 4);
    var t2 := UnmixB(t1, 19);
    var t3 := UnmixA(t2, 16);
    var t4 := UnmixC(t3, 8);
    var t5 := UnmixB(t4, 6);
    LineUndone(t1, 19);
    LineUndone(t2, 16);
    LineUndone(t3, 8);
    LineUndone(t4, 6);
    LineUndone(t5, 4);
  }

  // ---------------------------------------------------------------------------------------------
  // The final mix

  function StirA(s: State, k: bv6): State
    requires 0 < k < 32
  {
    State(Stir(s.a, s.c, k), s.b, s.c)
  }

  function StirB(s: State, k: bv6): State
    requires 0 < k < 32
  {
    State(s.a, Stir(s.b, s.a, k), s.c)
  }

  function StirC(s: State, k: bv6): State
    requires 0 < k < 32
  {
    State(s.a, s.b, Stir(s.c, s.b, k))
  }

  function UnstirA(s: State, k: bv6): State
    requires 0 < k < 32
  {
    State(Unstir(s.a, s.c, k), s.b, s.c)
  }

  function UnstirB(s: State, k: bv6): State
    requires 0 < k < 32
  {
    State(s.a, Unstir(s.b, s.a, k), s.c)
  }

  function UnstirC(s: State, k: bv6): State
    requires 0 < k < 32
  {
    State(s.a, s.b, Unstir(s.c, s.b, k))
  }

  function Final(s: State): State {
    StirC(StirB(StirA(StirC(StirB(StirA(StirC(s, 14), 11), 25), 16), 4), 14), 24)
  }

  function Unfinal(s: State): State {
    UnstirC(UnstirA(UnstirB(UnstirC(UnstirA(UnstirB(UnstirC(s, 24), 14), 4), 16), 25), 11), 14)
  }

  lemma StirLineUndone(s: State, k: bv6)
    requires 0 < k < 32
    ensures UnstirA(StirA(s, k), k) == s && StirA(UnstirA(s, k), k) == s
    ensures UnstirB(StirB(s, k), k) == s && StirB(UnstirB(s, k), k) == s
    ensures UnstirC(StirC(s, k), k) == s && StirC(UnstirC(s, k), k) == s
  {
    hide Stir, Unstir;
    StirUndone(s.a, s.c, k);
    StirUndone(s.b, s.a, k);
    StirUndone(s.c, s.b, k);
  }

  /** The final mix is a bijection. */
  lemma FinalReversible(s: State)
    ensures Unfinal(Final(s)) == s && Final(Unfinal(s)) == s
  {
    hide StirA, StirB, StirC, UnstirA, UnstirB, UnstirC;
    var s1 := StirC(s, 14);
    var s2 := StirA(s1, 11);
    var s3 := StirB(s2, 25);
    var s4 := StirC(s3, 16);
    var s5 := StirA(s4, 4);
    var s6 := StirB(s5, 14);
    StirLineUndone(s, 14);
    StirLineUndone(s1, 11);
    StirLineUndone(s2, 25);
    StirLineUndone(s3, 16);
    StirLineUndone(s4, 4);
    StirLineUndone(s5, 14);
    StirLineUndone(s6, 24);
    var t1 := UnstirC(s, 24);
    var t2 := UnstirB(t1, 14);
    var t3 := UnstirA(t2, 4);
    var t4 := UnstirC(t3, 16);
    var t5 := UnstirB(t4, 25);
    var t6 := UnstirA(t5, 11);
    StirLineUndone(t1, 14);
    StirLineUndone(t2, 4);
    StirLineUndone(t3, 16);
    StirLineUndone(t4, 25);
    StirLineUndone(t5, 11);
    StirLineUndone(t6, 14);
    StirLineUndone(s, 24);
  }

  // ---------------------------------------------------------------------------------------------
  // Words

  /** Four bytes in memory order as one word of the machine. */
  function Word(little: bool, p: bv8, q: bv8, r: bv8, s: bv8): bv32 {
    if little then Joined(p, q, r, s) else Joined(s, r, q, p)
  }

  /** Four bytes as one word, the least significant first. */
  function Joined(p: bv8, q: bv8, r: bv8, s: bv8): bv32 {
    Plus(Plus(Plus(Shifted(p, 0), Shifted(q, 8)), Shifted(r, 16)), Shifted(s, 24))
  }

  function Shifted(p: bv8, k: bv6): bv32
    requires k < 32
  {
    (p as bv32) << k
  }

  lemma JoinedIs(p: bv8, q: bv8, r: bv8, s: bv8)
    ensures Joined(p, q, r, s) == (p as bv32) | ((q as bv32) << 8) | ((r as bv32) << 16) | ((s as bv32) << 24)
  {
  }

  function Part(x: bv32, k: bv6): bv8
    requires k < 32
  {
    ((x >> k) & 0xff) as bv8
  }

  lemma JoinedParts(p: bv8, q: bv8, r: bv8, s: bv8)
    ensures var x := Joined(p, q, r, s);
            Part(x, 0) == p && Part(x, 8) == q && Part(x, 16) == r && Part(x, 24) == s
  {
    JoinedIs(p, q, r, s);
    hide Joined;
  }

  lemma JoinedInjective(p: bv8, q: bv8, r: bv8, s: bv8, t: bv8, u: bv8, v: bv8, w: bv8)
    requires Joined(p, q, r, s) == Joined(t, u, v, w)
    ensures p == t && q == u && r == v && s == w
  {
    hide Joined, Part;
    JoinedParts(p, q, r, s);
    JoinedParts(t, u, v, w);
  }

  lemma WordInjective(little: bool, p: bv8, q: bv8, r: bv8, s: bv8, t: bv8, u: bv8, v: bv8, w: bv8)
    requires Word(little, p, q, r, s) == Word(little, t, u, v, w)
    ensures p == t && q == u && r == v && s == w
  {
    hide Joined;
    if little { JoinedInjective(p, q, r, s, t, u, v, w); } else { JoinedInjective(s, r, q, p, w, v, u, t); }
  }

  /** A byte of the key, or zero behind its end. */
  function Byte(key: seq<bv8>, i: nat): bv8 {
    if i < |key| then key[i] else 0
  }

  function WordAt(little: bool, key: seq<bv8>, at: nat): bv32 {
    Word(little, Byte(key, at), Byte(key, at + 1), Byte(key, at + 2), Byte(key, at + 3))
  }

  /** The first twelve bytes of the key added to the state. */
  function Added(little: bool, s: State, key: seq<bv8>): State {
    State(Plus(s.a, WordAt(little, key, 0)), Plus(s.b, WordAt(little, key, 4)), Plus(s.c, WordAt(little, key, 8)))
  }

  function Removed(little: bool, s: State, key: seq<bv8>): State {
    State(Minus(s.a, WordAt(little, key, 0)), Minus(s.b, WordAt(little, key, 4)), Minus(s.c, WordAt(little, key, 8)))
  }

  lemma AddedReversible(little: bool, s: State, key: seq<bv8>)
    ensures Removed(little, Added(little, s, key), key) == s && Added(little, Removed(little, s, key), key) == s
  {
    hide WordAt, Plus, Minus;
    UndoMinus(s.a, WordAt(little, key, 0));
    UndoMinus(s.b, WordAt(little, key, 4));
    UndoMinus(s.c, WordAt(little, key, 8));
  }

  // ---------------------------------------------------------------------------------------------
  // Keys

  /** The state after a whole key: blocks of twelve bytes, the last of them not mixed but finished. */
  function Hashed(little: bool, s: State, key: seq<bv8>): State
    decreases |key|
  {
    if |key| > 12 then Hashed(little, Mix(Added(little, s, key[..12])), key[12..])
    else if |key| == 0 then s
    else Final(Added(little, s, key))
  }

  function Unhashed(little: bool, s: State, key: seq<bv8>): State
    decreases |key|
  {
    if |key| > 12 then Removed(little, Unmix(Unhashed(little, s, key[12..])), key[..12])
    else if |key| == 0 then s
    else Removed(little, Unfinal(s), key)
  }

  /** For each key, hashing is a bijection of states: the seeds can be had back. */
  lemma {:induction false} HashReversible(little: bool, s: State, key: seq<bv8>)
    ensures Unhashed(little, Hashed(little, s, key), key) == s && Hashed(little, Unhashed(little, s, key), key) == s
    decreases |key|
  {
    hide Mix, Unmix, Final, Unfinal, Added, Removed;
    if |key| > 12 {
      AddedReversible(little, s, key[..12]);
      MixReversible(Added(little, s, key[..12]));
      HashReversible(little, Mix(Added(little, s, key[..12])), key[12..]);
      var t := Unhashed(little, s, key[12..]);
      HashReversible(little, s, key[12..]);
      MixReversible(t);
      AddedReversible(little, Unmix(t), key[..12]);
    } else {
      AddedReversible(little, s, key);
      FinalReversible(Added(little, s, key));
      FinalReversible(s);
      AddedReversible(little, Unfinal(s), key);
    }
  }

  predicate SameOutside(x: seq<bv8>, y: seq<bv8>, block: nat)
    requires |x| == |y|
  {
    forall k :: 0 <= k < |x| && !(12 * block <= k < 12 * block + 12) ==> x[k] == y[k]
  }

  lemma AddedInjective(little: bool, s: State, x: seq<bv8>, y: seq<bv8>)
    requires |x| == |y| <= 12 && Added(little, s, x) == Added(little, s, y)
    ensures x == y
  {
    SameWords(little, s, x, y);
    forall i | 0 <= i < |x|
      ensures x[i] == y[i]
    {
      var at := i / 4 * 4;
      assert at == 0 || at == 4 || at == 8;
      WordBytes(little, x, y, at);
      assert Byte(x, i) == Byte(y, i);
    }
  }

  lemma SameWords(little: bool, s: State, x: seq<bv8>, y: seq<bv8>)
    requires Added(little, s, x) == Added(little, s, y)
    ensures WordAt(little, x, 0) == WordAt(little, y, 0) && WordAt(little, x, 4) == WordAt(little, y, 4)
            && WordAt(little, x, 8) == WordAt(little, y, 8)
  {
    hide WordAt, Plus;
    SameAddend(s.a, WordAt(little, x, 0), WordAt(little, y, 0));
    SameAddend(s.b, WordAt(little, x, 4), WordAt(little, y, 4));
    SameAddend(s.c, WordAt(little, x, 8), WordAt(little, y, 8));
  }

  lemma SameAddend(s: bv32, x: bv32, y: bv32)
    requires Plus(s, x) == Plus(s, y)
    ensures x == y
  {
    hide Plus, Minus;
    UndoMinus(x, s);
    UndoMinus(y, s);
    Commute(s, x);
    Commute(s, y);
  }

  lemma WordBytes(little: bool, x: seq<bv8>, y: seq<bv8>, at: nat)
    requires WordAt(little, x, at) == WordAt(little, y, at)
    ensures forall i :: at <= i < at + 4 ==> Byte(x, i) == Byte(y, i)
  {
    hide Word, Byte;
    WordInjective(little, Byte(x, at), Byte(x, at + 1), Byte(x, at + 2), Byte(x, at + 3),
                  Byte(y, at), Byte(y, at + 1), Byte(y, at + 2), Byte(y, at + 3));
  }

  /** Keys that differ inside one block only never reach the same state, whatever follows. */
  lemma {:induction false} OneBlockDiffers(little: bool, s: State, x: seq<bv8>, y: seq<bv8>, block: nat)
    requires |x| == |y| && x != y && SameOutside(x, y, block)
    ensures Hashed(little, s, x) != Hashed(little, s, y)
    decreases |x|
  {
    hide Mix, Unmix, Final, Unfinal, Added, Unhashed;
    if |x| <= 12 {
      if Added(little, s, x) == Added(little, s, y) { AddedInjective(little, s, x, y); }
      FinalReversible(Added(little, s, x));
      FinalReversible(Added(little, s, y));
    } else if block == 0 {
      assert x[12..] == y[12..] by {
        forall k | 12 <= k < |x|
          ensures x[k] == y[k]
        {
        }
      }
      assert x == x[..12] + x[12..] && y == y[..12] + y[12..];
      if Added(little, s, x[..12]) == Added(little, s, y[..12]) { AddedInjective(little, s, x[..12], y[..12]); }
      MixReversible(Added(little, s, x[..12]));
      MixReversible(Added(little, s, y[..12]));
      HashReversible(little, Mix(Added(little, s, x[..12])), x[12..]);
      HashReversible(little, Mix(Added(little, s, y[..12])), y[12..]);
    } else {
      assert x[..12] == y[..12];
      assert x == x[..12] + x[12..] && y == y[..12] + y[12..];
      assert SameOutside(x[12..], y[12..], block - 1);
      OneBlockDiffers(little, Mix(Added(little, s, x[..12])), x[12..], y[12..], block - 1);
    }
  }

  // ---------------------------------------------------------------------------------------------
  // Lengths

  const WORD: nat := 0x1_0000_0000

  /** A length cut to a word: counting wraps around. */
  function Wrapped(n: nat): bv32 {
    if n == 0 then 0 else Plus(1, Wrapped(n - 1))
  }

  lemma {:induction false} WrappedAdds(m: nat, n: nat)
    ensures Wrapped(m + n) == Plus(Wrapped(m), Wrapped(n))
  {
    hide Plus;
    if n > 0 {
      WrappedAdds(m, n - 1);
      Regroup(Wrapped(m), Wrapped(n - 1));
    } else {
      NoAddend(Wrapped(m));
    }
  }

  lemma Commute(x: bv32, y: bv32)
    ensures Plus(x, y) == Plus(y, x)
  {
    PlusCommutes(x, y);
  }

  lemma PlusCommutes(x: bv32, y: bv32)
    ensures x + y == y + x
  {
  }

  lemma Regroup(x: bv32, y: bv32)
    ensures Plus(1, Plus(x, y)) == Plus(x, Plus(1, y))
  {
    hide Plus;
    Raised(x, y);
    PlusIs(x, y);
    PlusIs(1, y);
  }

  lemma Raised(x: bv32, y: bv32)
    ensures Plus(1, x + y) == Plus(x, 1 + y)
  {
  }

  lemma NoAddend(x: bv32)
    ensures Plus(x, 0) == x
  {
  }

  /** Doubling 32 times leaves nothing, so a full turn of counting leaves the word alone. */
  lemma WrappedTurns(n: nat)
    ensures Wrapped(n + WORD) == Wrapped(n)
  {
    hide Wrapped, Plus, Shl;
    WrappedSixteenth(1);
    WrappedSixteenth(16);
    WrappedSixteenth(256);
    WrappedSixteenth(4096);
    WrappedSixteenth(65536);
    WrappedSixteenth(1048576);
    WrappedSixteenth(16777216);
    WrappedSixteenth(268435456);
    ShiftedOut(Wrapped(1));
    WrappedAdds(n, WORD);
    NoAddend(Wrapped(n));
  }

  function Shl(x: bv32, k: bv6): bv32
    requires k < 32
  {
    x << k
  }

  lemma ShiftedOut(x: bv32)
    ensures Shl(Shl(Shl(Shl(Shl(Shl(Shl(Shl(x, 4), 4), 4), 4), 4), 4), 4), 4) == 0
  {
    ShiftsOut(x);
  }

  lemma ShiftsOut(x: bv32)
    ensures (((((((x << 4) << 4) << 4) << 4) << 4) << 4) << 4) << 4 == 0
  {
  }

  lemma WrappedSixteenth(n: nat)
    ensures Wrapped(16 * n) == Shl(Wrapped(n), 4)
  {
    hide Wrapped, Shl;
    WrappedFourfold(n);
    WrappedFourfold(4 * n);
    ShiftTwice(Wrapped(n));
  }

  lemma ShiftTwice(x: bv32)
    ensures Shl(Shl(x, 2), 2) == Shl(x, 4)
  {
    ShiftsTwice(x);
  }

  lemma ShiftsTwice(x: bv32)
    ensures (x << 2) << 2 == x << 4
  {
  }

  lemma WrappedFourfold(n: nat)
    ensures Wrapped(4 * n) == Shl(Wrapped(n), 2)
  {
    hide Plus, Wrapped, Shl;
    WrappedAdds(n, n);
    WrappedAdds(2 * n, 2 * n);
    Fourfold(Wrapped(n));
  }

  lemma Fourfold(x: bv32)
    ensures Plus(Plus(x, x), Plus(x, x)) == Shl(x, 2)
  {
    Quadruple(x);
  }

  lemma Quadruple(x: bv32)
    ensures (x + x) + (x + x) == x << 2
  {
  }

  /** The start of every hash: the length and one or two seeds. */
  function Start(length: bv32, seed: bv32, more: bv32): State {
    var x := Plus(Plus(0xdead_beef, length), seed);
    State(x, x, Plus(x, more))
  }
}
