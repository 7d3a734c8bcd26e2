/**
 * The hash as published: the mixing steps line by line with their rotations, and the known values
 * the file itself lists for its functions.
 */
module HashMeaning {
  import opened Mixing
  import opened Lookup3

  // ---------------------------------------------------------------------------------------------
  // The steps with their shifts

  lemma SumMeans(x: bv32, y: bv32)
    ensures Plus(x, y) == x + y
  {
  }

  lemma DifferenceMeans(x: bv32, y: bv32)
    ensures Minus(x, y) == x - y
  {
  }

  lemma XorMeans(x: bv32, y: bv32)
    ensures Xor(x, y) == x ^ y
  {
  }

  /** Rotating to the left by each amount the steps use. */
  lemma RotationMeans(x: bv32)
    ensures Rot(x, 4) == (x << 4) | (x >> 28)
    ensures Rot(x, 6) == (x << 6) | (x >> 26)
    ensures Rot(x, 8) == (x << 8) | (x >> 24)
    ensures Rot(x, 11) == (x << 11) | (x >> 21)
    ensures Rot(x, 14) == (x << 14) | (x >> 18)
    ensures Rot(x, 16) == (x << 16) | (x >> 16)
    ensures Rot(x, 19) == (x << 19) | (x >> 13)
    ensures Rot(x, 24) == (x << 24) | (x >> 8)
    ensures Rot(x, 25) == (x << 25) | (x >> 7)
  {
  }

  /** The six lines of the mix: subtract, rotate in, add. */
  lemma MixMeans(s: State)
    ensures var a := Xor(Minus(s.a, s.c), Rot(s.c, 4));
            var c := Plus(s.c, s.b);
            var b := Xor(Minus(s.b, a), Rot(a, 6));
            var a2 := Plus(a, c);
            var c2 := Xor(Minus(c, b), Rot(b, 8));
            var b2 := Plus(b, a2);
            var a3 := Xor(Minus(a2, c2), Rot(c2, 16));
            var c3 := Plus(c2, b2);
            var b3 := Xor(Minus(b2, a3), Rot(a3, 19));
            var a4 := Plus(a3, c3);
            var c4 := Xor(Minus(c3, b3), Rot(b3, 4));
            Mix(s) == State(a4, Plus(b3, a4), c4)
  {
    hide Xor, Plus, Minus, Rot;
  }

  /** The seven lines of the final mix: exclusive or, then take the rotation away. */
  lemma FinalMeans(s: State)
    ensures var c := Minus(Xor(s.c, s.b), Rot(s.b, 14));
            var a := Minus(Xor(s.a, c), Rot(c, 11));
            var b := Minus(Xor(s.b, a), Rot(a, 25));
            var c2 := Minus(Xor(c, b), Rot(b, 16));
            var a2 := Minus(Xor(a, c2), Rot(c2, 4));
            var b2 := Minus(Xor(b, a2), Rot(a2, 14));
            Final(s) == State(a2, b2, Minus(Xor(c2, b2), Rot(b2, 24)))
  {
    hide Xor, Minus, Rot;
  }

  /** Four bytes as a word, the first byte lowest on a little-endian machine. */
  lemma WordMeans(p: bv8, q: bv8, r: bv8, s: bv8)
    ensures Word(true, p, q, r, s) == (p as bv32) | ((q as bv32) << 8) | ((r as bv32) << 16) | ((s as bv32) << 24)
    ensures Word(false, s, r, q, p) == (p as bv32) | ((q as bv32) << 8) | ((r as bv32) << 16) | ((s as bv32) << 24)
  {
    hide Joined;
    JoinedIs(p, q, r, s);
  }

  /** Every hash starts from 0xdeadbeef, the length and the seeds. */
  lemma StartMeans(length: bv32, seed: bv32, more: bv32)
    ensures var x := Plus(Plus(0xdead_beef, length), seed); Start(length, seed, more) == State(x, x, Plus(x, more))
  {
    hide Plus;
  }

  // ---------------------------------------------------------------------------------------------
  // Known values

  lemma EmptyKnown()
    ensures Outcome(true, [], 0, 0) == State(0xdead_beef, 0xdead_beef, 0xdead_beef)
    ensures Outcome(true, [], 0, 0xdead_beef) == State(0xdead_beef, 0xdead_beef, 0xbd5b_7dde)
    ensures Outcome(true, [], 0xdead_beef, 0xdead_beef) == State(0xbd5b_7dde, 0xbd5b_7dde, 0x9c09_3ccd)
  {
  }

  /** The published key, `Four score and seven years ago`, in blocks of twelve bytes. */
  const FIRST: seq<bv8> := [70, 111, 117, 114, 32, 115, 99, 111, 114, 101, 32, 97]
  const SECOND: seq<bv8> := [110, 100, 32, 115, 101, 118, 101, 110, 32, 121, 101, 97]
  const THIRD: seq<bv8> := [114, 115, 32, 97, 103, 111]

  const SPEECH: seq<bv8> := FIRST + (SECOND + THIRD)

  lemma Sums()
    ensures Plus(1, 0) == 1 && Plus(1, 1) == 2 && Plus(2, 1) == 3 && Plus(3, 3) == 6 && Plus(6, 1) == 7
    ensures Plus(7, 7) == 14 && Plus(14, 1) == 15 && Plus(15, 15) == 30
  {
  }

  lemma SpeechLength()
    ensures |SPEECH| == 30 && Wrapped(30) == 30
  {
    hide Plus;
    Sums();
    assert Wrapped(1) == 1;
    hide Wrapped;
    WrappedAdds(1, 1);
    WrappedAdds(2, 1);
    WrappedAdds(3, 3);
    WrappedAdds(6, 1);
    WrappedAdds(7, 7);
    WrappedAdds(14, 1);
    WrappedAdds(15, 15);
  }

  lemma BlockWords(s: State)
    ensures Added(true, s, FIRST) == State(Plus(s.a, 0x7275_6f46), Plus(s.b, 0x6f63_7320), Plus(s.c, 0x6120_6572))
    ensures Added(true, s, SECOND) == State(Plus(s.a, 0x7320_646e), Plus(s.b, 0x6e65_7665), Plus(s.c, 0x6165_7920))
    ensures Added(true, s, THIRD) == State(Plus(s.a, 0x6120_7372), Plus(s.b, 0x0000_6f67), Plus(s.c, 0))
  {
    hide Plus, Joined;
    JoinedBytes();
  }

  /** The words of the key, low byte first. */
  lemma JoinedBytes()
    ensures Joined(70, 111, 117, 114) == 0x7275_6f46
    ensures Joined(32, 115, 99, 111) == 0x6f63_7320
    ensures Joined(114, 101, 32, 97) == 0x6120_6572
    ensures Joined(110, 100, 32, 115) == 0x7320_646e
    ensures Joined(101, 118, 101, 110) == 0x6e65_7665
    ensures Joined(32, 121, 101, 97) == 0x6165_7920
    ensures Joined(114, 115, 32, 97) == 0x6120_7372
    ensures Joined(103, 111, 0, 0) == 0x0000_6f67
    ensures Joined(0, 0, 0, 0) == 0
  {
  }

  /** Three blocks: two are mixed, the last is finished. */
  lemma SpeechSteps(s: State)
    ensures Hashed(true, s, SPEECH) ==
            Final(Added(true, Mix(Added(true, Mix(Added(true, s, FIRST)), SECOND)), THIRD))
  {
    hide Added, Mix, Final;
    assert SPEECH[..12] == FIRST && SPEECH[12..] == SECOND + THIRD;
    assert (SECOND + THIRD)[..12] == SECOND && (SECOND + THIRD)[12..] == THIRD;
    var t := Mix(Added(true, s, FIRST));
    assert Hashed(true, s, SPEECH) == Hashed(true, t, SECOND + THIRD);
    assert Hashed(true, t, SECOND + THIRD) == Hashed(true, Mix(Added(true, t, SECOND)), THIRD);
  }

  lemma PrimaryKnown1()
    ensures Mix(State(0x5123_2e53, 0x4e11_322d, 0x3fce_247f)) == State(0xf859_ad7a, 0x04bc_57ae, 0x40dd_dd7e)
  {
  }

  lemma PrimaryKnown2()
    ensures Mix(State(0x6b7a_11e8, 0x7321_ce13, 0xa243_569e)) == State(0x336a_ded2, 0x059f_2642, 0xbd02_ebd5)
  {
  }

  lemma PrimaryKnown3()
    ensures Final(State(0x948b_5244, 0x059f_95a9, 0xbd02_ebd5)) == State(0x9a83_7816, 0xce72_26e6, 0x1777_0551)
  {
  }

  lemma PrimaryKnownSums()
    ensures Start(30, 0, 0) == State(0xdead_bf0d, 0xdead_bf0d, 0xdead_bf0d)
    ensures Plus(0xdead_bf0d, 0x7275_6f46) == 0x5123_2e53 && Plus(0xdead_bf0d, 0x6f63_7320) == 0x4e11_322d && Plus(0xdead_bf0d, 0x6120_6572) == 0x3fce_247f
    ensures Plus(0xf859_ad7a, 0x7320_646e) == 0x6b7a_11e8 && Plus(0x04bc_57ae, 0x6e65_7665) == 0x7321_ce13 && Plus(0x40dd_dd7e, 0x6165_7920) == 0xa243_569e
    ensures Plus(0x336a_ded2, 0x6120_7372) == 0x948b_5244 && Plus(0x059f_2642, 0x0000_6f67) == 0x059f_95a9 && Plus(0xbd02_ebd5, 0) == 0xbd02_ebd5
  {
  }

  lemma PrimaryKnown()
    ensures Outcome(true, SPEECH, 0, 0) == State(0x9a83_7816, 0xce72_26e6, 0x1777_0551)
  {
    hide Plus, Mix, Final, Added, Hashed, Start, Wrapped;
    SpeechLength();
    SpeechSteps(State(0xdead_bf0d, 0xdead_bf0d, 0xdead_bf0d));
    PrimaryKnownSums();
    BlockWords(State(0xdead_bf0d, 0xdead_bf0d, 0xdead_bf0d));
    BlockWords(State(0xf859_ad7a, 0x04bc_57ae, 0x40dd_dd7e));
    BlockWords(State(0x336a_ded2, 0x059f_2642, 0xbd02_ebd5));
    PrimaryKnown1();
    PrimaryKnown2();
    PrimaryKnown3();
  }

  lemma SecondSeedKnown1()
    ensures Mix(State(0x5123_2e53, 0x4e11_322d, 0x3fce_2480)) == State(0x5880_bf0f, 0x0507_c285, 0x2e1a_fadd)
  {
  }

  lemma SecondSeedKnown2()
    ensures Mix(State(0xcba1_237d, 0x736d_38ea, 0x8f80_73fd)) == State(0xf0a9_5c6c, 0x6ea7_2b3e, 0x3272_97d5)
  {
  }

  lemma SecondSeedKnown3()
    ensures Final(State(0x51c9_cfde, 0x6ea7_9aa5, 0x3272_97d5)) == State(0x6cd4_0950, 0xbd37_1de4, 0xe360_7cae)
  {
  }

  lemma SecondSeedKnownSums()
    ensures Start(30, 0, 1) == State(0xdead_bf0d, 0xdead_bf0d, 0xdead_bf0e)
    ensures Plus(0xdead_bf0d, 0x7275_6f46) == 0x5123_2e53 && Plus(0xdead_bf0d, 0x6f63_7320) == 0x4e11_322d && Plus(0xdead_bf0e, 0x6120_6572) == 0x3fce_2480
    ensures Plus(0x5880_bf0f, 0x7320_646e) == 0xcba1_237d && Plus(0x0507_c285, 0x6e65_7665) == 0x736d_38ea && Plus(0x2e1a_fadd, 0x6165_7920) == 0x8f80_73fd
    ensures Plus(0xf0a9_5c6c, 0x6120_7372) == 0x51c9_cfde && Plus(0x6ea7_2b3e, 0x0000_6f67) == 0x6ea7_9aa5 && Plus(0x3272_97d5, 0) == 0x3272_97d5
  {
  }

  lemma SecondSeedKnown()
    ensures Outcome(true, SPEECH, 0, 1) == State(0x6cd4_0950, 0xbd37_1de4, 0xe360_7cae)
  {
    hide Plus, Mix, Final, Added, Hashed, Start, Wrapped;
    SpeechLength();
    SpeechSteps(State(0xdead_bf0d, 0xdead_bf0d, 0xdead_bf0e));
    SecondSeedKnownSums();
    BlockWords(State(0xdead_bf0d, 0xdead_bf0d, 0xdead_bf0e));
    BlockWords(State(0x5880_bf0f, 0x0507_c285, 0x2e1a_fadd));
    BlockWords(State(0xf0a9_5c6c, 0x6ea7_2b3e, 0x3272_97d5));
    SecondSeedKnown1();
    SecondSeedKnown2();
    SecondSeedKnown3();
  }

  lemma FirstSeedKnown1()
    ensures Mix(State(0x5123_2e54, 0x4e11_322e, 0x3fce_2480)) == State(0x9fb9_ade6, 0x8921_1ba9, 0x3fff_f143)
  {
  }

  lemma FirstSeedKnown2()
    ensures Mix(State(0x12da_1254, 0xf786_920e, 0xa165_6a63)) == State(0xd680_42ad, 0x488e_0a5d, 0xab16_e7b2)
  {
  }

  lemma FirstSeedKnown3()
    ensures Final(State(0x37a0_b61f, 0x488e_79c4, 0xab16_e7b2)) == State(0x1336_f927, 0x6cbe_a4b3, 0xcd62_8161)
  {
  }

  lemma FirstSeedKnownSums()
    ensures Start(30, 1, 0) == State(0xdead_bf0e, 0xdead_bf0e, 0xdead_bf0e)
    ensures Plus(0xdead_bf0e, 0x7275_6f46) == 0x5123_2e54 && Plus(0xdead_bf0e, 0x6f63_7320) == 0x4e11_322e && Plus(0xdead_bf0e, 0x6120_6572) == 0x3fce_2480
    ensures Plus(0x9fb9_ade6, 0x7320_646e) == 0x12da_1254 && Plus(0x8921_1ba9, 0x6e65_7665) == 0xf786_920e && Plus(0x3fff_f143, 0x6165_7920) == 0xa165_6a63
    ensures Plus(0xd680_42ad, 0x6120_7372) == 0x37a0_b61f && Plus(0x488e_0a5d, 0x0000_6f67) == 0x488e_79c4 && Plus(0xab16_e7b2, 0) == 0xab16_e7b2
  {
  }

  lemma FirstSeedKnown()
    ensures Outcome(true, SPEECH, 1, 0) == State(0x1336_f927, 0x6cbe_a4b3, 0xcd62_8161)
  {
    hide Plus, Mix, Final, Added, Hashed, Start, Wrapped;
    SpeechLength();
    SpeechSteps(State(0xdead_bf0e, 0xdead_bf0e, 0xdead_bf0e));
    FirstSeedKnownSums();
    BlockWords(State(0xdead_bf0e, 0xdead_bf0e, 0xdead_bf0e));
    BlockWords(State(0x9fb9_ade6, 0x8921_1ba9, 0x3fff_f143));
    BlockWords(State(0xd680_42ad, 0x488e_0a5d, 0xab16_e7b2));
    FirstSeedKnown1();
    FirstSeedKnown2();
    FirstSeedKnown3();
  }
}
