/** Known answers of SHA-1 and the laws of its schedule: the examples of FIPS 180 of one block and of two. */
module Sha1Answers {
  import opened Text
  import opened Sha1

  // The schedule.

  /** Each later word is the exclusive or of four earlier ones, its top bit moved to the bottom. */
  lemma LaterWords(block: Bytes, t: nat)
    requires |block| == 64 && 16 <= t < 80
    ensures var x := W(block, t - 3) ^ W(block, t - 8) ^ W(block, t - 14) ^ W(block, t - 16);
            W(block, t) == (x << 1) | (x >> 31)
  {
    hide W;
    LaterWord(block, t);
    Rotated(W(block, t - 3) ^ W(block, t - 8) ^ W(block, t - 14) ^ W(block, t - 16));
  }

  lemma LaterWord(block: Bytes, t: nat)
    requires |block| == 64 && 16 <= t < 80
    ensures W(block, t)
         == (W(block, t - 3) ^ W(block, t - 8) ^ W(block, t - 14) ^ W(block, t - 16)).RotateLeft(1)
  {
    hide WordOf;
  }

  lemma Rotated(x: bv32)
    ensures x.RotateLeft(1) == (x << 1) | (x >> 31)
  {
  }

  // Several rounds at once, on words that are known.

  datatype Window = Window(w0: bv32, w1: bv32, w2: bv32, w3: bv32, w4: bv32, w5: bv32, w6: bv32, w7: bv32,
                           w8: bv32, w9: bv32, w10: bv32, w11: bv32, w12: bv32, w13: bv32, w14: bv32, w15: bv32)

  /** The working variables before round `t` and the sixteen words from there on. */
  datatype State = State(v: Hash, t: nat, words: Window)

  function Slide(x: Window): Window {
    Window(x.w1, x.w2, x.w3, x.w4, x.w5, x.w6, x.w7, x.w8, x.w9, x.w10, x.w11, x.w12, x.w13, x.w14, x.w15,
           Mix(x.w13, x.w8, x.w2, x.w0))
  }

  function Next(s: State): State { State(Round(s.v, s.t, s.words.w0), s.t + 1, Slide(s.words)) }

  function Steps(s: State, n: nat): State
    decreases n
  {
    if n == 0 then s else Steps(Next(s), n - 1)
  }

  lemma {:induction false} StepsAdd(s: State, m: nat, n: nat)
    ensures Steps(s, m + n) == Steps(Steps(s, m), n)
    decreases m
  {
    if m > 0 {
      hide Next;
      StepsAdd(Next(s), m - 1, n);
    }
  }

  /** The words stand in the schedule of the block from `t` on, as far as that goes. */
  ghost predicate Stand(block: Bytes, t: nat, x: Window)
    requires |block| == 64
  {
    && (t + 0 < 80 ==> x.w0 == W(block, t + 0))
    && (t + 1 < 80 ==> x.w1 == W(block, t + 1))
    && (t + 2 < 80 ==> x.w2 == W(block, t + 2))
    && (t + 3 < 80 ==> x.w3 == W(block, t + 3))
    && (t + 4 < 80 ==> x.w4 == W(block, t + 4))
    && (t + 5 < 80 ==> x.w5 == W(block, t + 5))
    && (t + 6 < 80 ==> x.w6 == W(block, t + 6))
    && (t + 7 < 80 ==> x.w7 == W(block, t + 7))
    && (t + 8 < 80 ==> x.w8 == W(block, t + 8))
    && (t + 9 < 80 ==> x.w9 == W(block, t + 9))
    && (t + 10 < 80 ==> x.w10 == W(block, t + 10))
    && (t + 11 < 80 ==> x.w11 == W(block, t + 11))
    && (t + 12 < 80 ==> x.w12 == W(block, t + 12))
    && (t + 13 < 80 ==> x.w13 == W(block, t + 13))
    && (t + 14 < 80 ==> x.w14 == W(block, t + 14))
    && (t + 15 < 80 ==> x.w15 == W(block, t + 15))
  }

  /** The state is that of the block after some rounds. */
  ghost predicate Tracks(h: Hash, block: Bytes, s: State)
    requires |block| == 64
  {
    s.t <= 80 && s.v == Rounds(h, block, s.t) && Stand(block, s.t, s.words)
  }

  lemma WordsSlide(block: Bytes, t: nat, x: Window)
    requires |block| == 64 && t < 80 && Stand(block, t, x)
    ensures Stand(block, t + 1, Slide(x))
  {
    hide Mix, WordOf, W;
    if t + 16 < 80 {
      NextWord(block, t);
    }
  }

  lemma NextWord(block: Bytes, t: nat)
    requires |block| == 64 && t + 16 < 80
    ensures W(block, t + 16) == Mix(W(block, t + 13), W(block, t + 8), W(block, t + 2), W(block, t))
  {
    hide WordOf, Mix;
  }

  lemma NextTracks(h: Hash, block: Bytes, s: State)
    requires |block| == 64 && Tracks(h, block, s) && s.t < 80
    ensures Tracks(h, block, Next(s))
  {
    assert s.words.w0 == W(block, s.t) by { assert s.t + 0 == s.t; }
    hide W, Round, Stand, Slide;
    WordsSlide(block, s.t, s.words);
  }

  lemma {:induction false} StepsTrack(h: Hash, block: Bytes, s: State, n: nat)
    requires |block| == 64 && Tracks(h, block, s) && s.t + n <= 80
    ensures Tracks(h, block, Steps(s, n)) && Steps(s, n).t == s.t + n
    decreases n
  {
    if n > 0 {
      hide Tracks, Slide, Round;
      NextTracks(h, block, s);
      StepsTrack(h, block, Next(s), n - 1);
    }
  }

  /** A block with these words adds what eighty steps come to. */
  lemma CompressedBy(h: Hash, block: Bytes, start: State, end: State)
    requires |block| == 64 && start.v == h && start.t == 0 && Steps(start, 80) == end
    requires Stand(block, 0, start.words)
    ensures Compressed(h, block) == Plus(h, end.v)
  {
    hide W, Steps, Plus, Round, Stand;
    assert Rounds(h, block, 0) == h;
    assert Tracks(h, block, start);
    StepsTrack(h, block, start, 80);
  }

  // Words and their bytes.

  lemma OctetsAToF()
    ensures Octet('a') == 0x61 && Octet('b') == 0x62 && Octet('c') == 0x63
    ensures Octet('d') == 0x64 && Octet('e') == 0x65 && Octet('f') == 0x66
  {
  }

  lemma OctetsGToL()
    ensures Octet('g') == 0x67 && Octet('h') == 0x68 && Octet('i') == 0x69
    ensures Octet('j') == 0x6A && Octet('k') == 0x6B && Octet('l') == 0x6C
  {
  }

  lemma OctetsMToQ()
    ensures Octet('m') == 0x6D && Octet('n') == 0x6E && Octet('o') == 0x6F
    ensures Octet('p') == 0x70 && Octet('q') == 0x71
  {
  }

  lemma OctetsOfPadding()
    ensures Octet('\0') == 0 && Octet(ByteOf(0x80)) == 0x80 && Octet(ByteOf(0x18)) == 0x18
    ensures Octet(ByteOf(0x01)) == 0x01 && Octet(ByteOf(0xC0)) == 0xC0
  {
  }

  function Joined(a: bv32, b: bv32, c: bv32, d: bv32): bv32 { (a << 24) | (b << 16) | (c << 8) | d }

  /** One of the first sixteen words, by what its four bytes stand for. */
  lemma WordAt(block: Bytes, i: nat, a: bv32, b: bv32, c: bv32, d: bv32)
    requires |block| == 64 && i < 16
    requires Octet(block[4 * i]) == a && Octet(block[4 * i + 1]) == b
    requires Octet(block[4 * i + 2]) == c && Octet(block[4 * i + 3]) == d
    ensures W(block, i) == Joined(a, b, c, d)
  {
    hide Octet;
  }

  lemma ZeroWord(block: Bytes, i: nat)
    requires |block| == 64 && i < 16
    requires block[4 * i] == block[4 * i + 1] == block[4 * i + 2] == block[4 * i + 3] == '\0'
    ensures W(block, i) == 0
  {
    hide W, Octet;
    OctetsOfPadding();
    WordAt(block, i, 0, 0, 0, 0);
  }

  /** Sixteen words make a window. */
  lemma StandFrom(block: Bytes, x: Window)
    requires |block| == 64
    requires W(block, 0) == x.w0 && W(block, 1) == x.w1 && W(block, 2) == x.w2 && W(block, 3) == x.w3
    requires W(block, 4) == x.w4 && W(block, 5) == x.w5 && W(block, 6) == x.w6 && W(block, 7) == x.w7
    requires W(block, 8) == x.w8 && W(block, 9) == x.w9 && W(block, 10) == x.w10 && W(block, 11) == x.w11
    requires W(block, 12) == x.w12 && W(block, 13) == x.w13 && W(block, 14) == x.w14 && W(block, 15) == x.w15
    ensures Stand(block, 0, x)
  {
    hide W;
  }

  lemma {:induction false} NoDigits(k: nat)
    ensures BigEndian(0, k) == Zeros(k)
  {
    if k > 0 {
      NoDigits(k - 1);
    }
  }

  lemma Digit(n: nat, k: nat)
    requires k > 0
    ensures BigEndian(n, k) == BigEndian(n / 256, k - 1) + [ByteOf(n % 256)]
  {
  }

  lemma TwoDigits(n: nat)
    requires n < 0x1_0000
    ensures BigEndian(n, 8) == BigEndian(0, 6) + [ByteOf(n / 256), ByteOf(n % 256)]
  {
    hide BigEndian;
    Digit(n, 8);
    Digit(n / 256, 7);
    assert n / 256 / 256 == 0 && n / 256 % 256 == n / 256;
  }

  lemma BigEndianOf(n: nat)
    requires n < 0x1_0000
    ensures BigEndian(n, 8) == Zeros(6) + [ByteOf(n / 256), ByteOf(n % 256)]
  {
    hide BigEndian;
    NoDigits(6);
    TwoDigits(n);
  }

  function Numbers(ns: seq<nat>): Bytes
    requires forall i :: 0 <= i < |ns| ==> ns[i] < 256
  {
    seq(|ns|, i requires 0 <= i < |ns| => ByteOf(ns[i]))
  }

  // One block.

  const ABC0 :=
    State(Hash(0x67452301, 0xEFCDAB89, 0x98BADCFE, 0x10325476, 0xC3D2E1F0), 0,
          Window(0x61626380, 0x00000000, 0x00000000, 0x00000000, 0x00000000, 0x00000000, 0x00000000, 0x00000000,
                 0x00000000, 0x00000000, 0x00000000, 0x00000000, 0x00000000, 0x00000000, 0x00000000, 0x00000018))

  const ABC8 :=
    State(Hash(0x9E8C07D4, 0x993E30C1, 0x0FF1F290, 0xB3F52677, 0xF3763846), 8,
          Window(0x00000000, 0x00000000, 0x00000000, 0x00000000, 0x00000000, 0x00000000, 0x00000000, 0x00000018,
                 0xC2C4C700, 0x00000000, 0x00000030, 0x85898E01, 0x00000000, 0x00000060, 0x0B131C03, 0x00000030))

  const ABC16 :=
    State(Hash(0x20BDD62F, 0x196BEE77, 0x644A3DA5, 0x1181ED99, 0x18C623F9), 16,
          Window(0xC2C4C700, 0x00000000, 0x00000030, 0x85898E01, 0x00000000, 0x00000060, 0x0B131C03, 0x00000030,
                 0x85898EC1, 0x16263806, 0x00000000, 0x00000180, 0x2C4C700C, 0x000000F0, 0x93AFB507, 0x5898E048))

  const ABC24 :=
    State(Hash(0xD541F12D, 0x21283486, 0x0CE88EFF, 0x868DEC32, 0x7F67875F), 24,
          Window(0x85898EC1, 0x16263806, 0x00000000, 0x00000180, 0x2C4C700C, 0x000000F0, 0x93AFB507, 0x5898E048,
                 0x8E9A9202, 0x00000600, 0xB131C0F0, 0x16263BC6, 0x4EBED41E, 0x626380A1, 0x16263806, 0x000018C0))

  const ABC32 :=
    State(Hash(0x3B845D33, 0x1267B407, 0x717EEBD7, 0xA0DC2D4B, 0xD2AA1365), 32,
          Window(0x8E9A9202, 0x00000600, 0xB131C0F0, 0x16263BC6, 0x4EBED41E, 0x626380A1, 0x16263806, 0x000018C0,
                 0xD2E138C4, 0x00000F00, 0x3AFB5079, 0x898E04E5, 0xE2BA3C2B, 0x000060C0, 0x053A37CD, 0x74458547))

  const ABC40 :=
    State(Hash(0x32DE1CBA, 0x4C986405, 0xF718E5CF, 0x03D447F6, 0xF72EEC32), 40,
          Window(0xD2E138C4, 0x00000F00, 0x3AFB5079, 0x898E04E5, 0xE2BA3C2B, 0x000060C0, 0x053A37CD, 0x74458547,
                 0xDA9415ED, 0x26380A16, 0x626383A1, 0x4EBF54DE, 0x3835B44B, 0x0000F600, 0x1E84C7A3, 0x98E04D98))

  const ABC48 :=
    State(Hash(0xBEAD02CA, 0xA01B846C, 0x8714787C, 0x503CA382, 0xFB86C6AB), 48,
          Window(0xDA9415ED, 0x26380A16, 0x626383A1, 0x4EBF54DE, 0x3835B44B, 0x0000F600, 0x1E84C7A3, 0x98E04D98,
                 0x651D16A0, 0x62658CA1, 0x458544D6, 0x44584CB7, 0x7BA06619, 0x6380AEA2, 0x0AE55269, 0x627B49A1))

  const ABC56 :=
    State(Hash(0x5E6456AF, 0x7B71F76D, 0x09FA7C76, 0x792410DB, 0x8E11EB59), 56,
          Window(0x651D16A0, 0x62658CA1, 0x458544D6, 0x44584CB7, 0x7BA06619, 0x6380AEA2, 0x0AE55269, 0x627B49A1,
                 0x7CD45C9D, 0x000F0000, 0xFB50753A, 0xEC6765E8, 0xBA3C2BE2, 0x0060C000, 0x3A37CD05, 0x458546F4))

  const ABC64 :=
    State(Hash(0x6B61C9E1, 0xB66C020B, 0x9523272C, 0xF5D5B051, 0x8FD4B796), 64,
          Window(0x7CD45C9D, 0x000F0000, 0xFB50753A, 0xEC6765E8, 0xBA3C2BE2, 0x0060C000, 0x3A37CD05, 0x458546F4,
                 0xB8599DD6, 0x380A1A26, 0x01E02203, 0xE7CC3456, 0xE6E60B69, 0x00F60A00, 0x5795EF4F, 0x822E0879))

  const ABC72 :=
    State(Hash(0x39859DE7, 0xC199F8C7, 0x8FC96230, 0x125C24F0, 0xDE37534A), 72,
          Window(0xB8599DD6, 0x380A1A26, 0x01E02203, 0xE7CC3456, 0xE6E60B69, 0x00F60A00, 0x5795EF4F, 0x822E0879,
                 0x7E577CE2, 0x07EF2103, 0x8544E945, 0xEB39DAB8, 0xC205991A, 0x80AECB63, 0x7D84CA48, 0x7B499B62))

  const ABC80 :=
    State(Hash(0x42541B35, 0x5738D5E1, 0x21834873, 0x681E6DF6, 0xD8FDF6AD), 80,
          Window(0x7E577CE2, 0x07EF2103, 0x8544E945, 0xEB39DAB8, 0xC205991A, 0x80AECB63, 0x7D84CA48, 0x7B499B62,
                 0x8E8010A8, 0x4B5B8A77, 0x3216B69A, 0x0507E88D, 0x705BEE96, 0x60C0FF00, 0xA28362D0, 0x1DA6B91D))

  lemma Abc0To8()
    ensures Steps(ABC0, 8) == ABC8
  {
  }

  lemma Abc8To16()
    ensures Steps(ABC8, 8) == ABC16
  {
  }

  lemma Abc16To24()
    ensures Steps(ABC16, 8) == ABC24
  {
  }

  lemma Abc24To32()
    ensures Steps(ABC24, 8) == ABC32
  {
  }

  lemma Abc32To40()
    ensures Steps(ABC32, 8) == ABC40
  {
  }

  lemma Abc40To48()
    ensures Steps(ABC40, 8) == ABC48
  {
  }

  lemma Abc48To56()
    ensures Steps(ABC48, 8) == ABC56
  {
  }

  lemma Abc56To64()
    ensures Steps(ABC56, 8) == ABC64
  {
  }

  lemma Abc64To72()
    ensures Steps(ABC64, 8) == ABC72
  {
  }

  lemma Abc72To80()
    ensures Steps(ABC72, 8) == ABC80
  {
  }

  lemma AbcRounds()
    ensures Steps(ABC0, 80) == ABC80
  {
    hide Steps;
    Abc0To8();
    Abc8To16();
    StepsAdd(ABC0, 8, 8);
    Abc16To24();
    StepsAdd(ABC0, 16, 8);
    Abc24To32();
    StepsAdd(ABC0, 24, 8);
    Abc32To40();
    StepsAdd(ABC0, 32, 8);
    Abc40To48();
    StepsAdd(ABC0, 40, 8);
    Abc48To56();
    StepsAdd(ABC0, 48, 8);
    Abc56To64();
    StepsAdd(ABC0, 56, 8);
    Abc64To72();
    StepsAdd(ABC0, 64, 8);
    Abc72To80();
    StepsAdd(ABC0, 72, 8);
  }

  const ABC: Bytes := "abc" + [ByteOf(0x80)] + Zeros(59) + [ByteOf(0x18)]

  lemma AbcAt()
    ensures |ABC| == 64 && ABC[0] == 'a' && ABC[1] == 'b' && ABC[2] == 'c' && ABC[3] == ByteOf(0x80)
    ensures forall i :: 4 <= i < 63 ==> ABC[i] == '\0'
    ensures ABC[63] == ByteOf(0x18)
  {
  }

  lemma AbcPadded()
    ensures Padded("abc") == ABC
  {
    BigEndianOf(24);
  }

  lemma AbcFirst()
    ensures |ABC| == 64 && W(ABC, 0) == 0x61626380
  {
    hide W, ABC, Octet;
    AbcAt();
    OctetsAToF();
    OctetsOfPadding();
    WordAt(ABC, 0, 0x61, 0x62, 0x63, 0x80);
  }

  lemma AbcZero(i: nat)
    requires 1 <= i < 15
    ensures |ABC| == 64 && W(ABC, i) == 0
  {
    hide W, ABC;
    AbcAt();
    ZeroWord(ABC, i);
  }

  lemma AbcLast()
    ensures |ABC| == 64 && W(ABC, 15) == 0x18
  {
    hide W, ABC, Octet;
    AbcAt();
    OctetsOfPadding();
    WordAt(ABC, 15, 0, 0, 0, 0x18);
  }

  lemma AbcWords()
    ensures |ABC| == 64 && Stand(ABC, 0, ABC0.words)
  {
    hide W, ABC, Stand;
    AbcFirst();
    forall i: nat | 1 <= i < 15 ensures W(ABC, i) == 0 {
      AbcZero(i);
    }
    AbcLast();
    StandFrom(ABC, ABC0.words);
  }

  lemma AbcSum()
    ensures Plus(INITIAL, ABC80.v) == ABC_HASH
  {
  }

  const ABC_HASH := Hash(0xA9993E36, 0x4706816A, 0xBA3E2571, 0x7850C26C, 0x9CD0D89D)

  lemma AbcBytes()
    ensures HashBytes(ABC_HASH)
         == Numbers([0xA9, 0x99, 0x3E, 0x36, 0x47, 0x06, 0x81, 0x6A, 0xBA, 0x3E,
                   0x25, 0x71, 0x78, 0x50, 0xC2, 0x6C, 0x9C, 0xD0, 0xD8, 0x9D])
  {
  }

  /** The answer for "abc". */
  lemma AbcDigest()
    ensures Digest("abc")
         == Numbers([0xA9, 0x99, 0x3E, 0x36, 0x47, 0x06, 0x81, 0x6A, 0xBA, 0x3E,
                   0x25, 0x71, 0x78, 0x50, 0xC2, 0x6C, 0x9C, 0xD0, 0xD8, 0x9D])
  {
    hide W, Steps, Compressed, WordBytes, Padded, Plus, HashBytes;
    AbcPadded();
    AbcWords();
    AbcRounds();
    CompressedBy(INITIAL, ABC, ABC0, ABC80);
    AbcSum();
    assert ABC[0..64] == ABC;
    assert HashOf(ABC, 0) == INITIAL;
    assert HashOf(ABC, 1) == Compressed(INITIAL, ABC);
    AbcBytes();
  }

  // Two blocks.

  const FIRST0 :=
    State(Hash(0x67452301, 0xEFCDAB89, 0x98BADCFE, 0x10325476, 0xC3D2E1F0), 0,
          Window(0x61626364, 0x62636465, 0x63646566, 0x64656667, 0x65666768, 0x66676869, 0x6768696A, 0x68696A6B,
                 0x696A6B6C, 0x6A6B6C6D, 0x6B6C6D6E, 0x6C6D6E6F, 0x6D6E6F70, 0x6E6F7071, 0x80000000, 0x00000000))

  const FIRST8 :=
    State(Hash(0x45833F0F, 0xDB04CB58, 0x65AE1462, 0xCCFD2B96, 0x0B13DBAB), 8,
          Window(0x696A6B6C, 0x6A6B6C6D, 0x6B6C6D6E, 0x6C6D6E6F, 0x6D6E6F70, 0x6E6F7071, 0x80000000, 0x00000000,
                 0x0A063A3E, 0xD8DADCDF, 0xDADCDEC0, 0xC8D2B4BE, 0x6F757B5B, 0x757B5967, 0x8DA16D70, 0xDAEEFABA))

  const FIRST16 :=
    State(Hash(0x42637E39, 0xB2E7A8BE, 0x4CBE52A1, 0xA180D207, 0xB867B2A8), 16,
          Window(0x0A063A3E, 0xD8DADCDF, 0xDADCDEC0, 0xC8D2B4BE, 0x6F757B5B, 0x757B5967, 0x8DA16D70, 0xDAEEFABA,
                 0xFAF6CAB6, 0xA6FB675A, 0x0C604CC8, 0x604CC02C, 0x49C0E6E2, 0x2EE8CBBC, 0xCFD72EC4, 0x97E9810E))

  const FIRST24 :=
    State(Hash(0xFD224575, 0xE2B92DC4, 0xC254445D, 0x6560DB69, 0x9B111594), 24,
          Window(0xFAF6CAB6, 0xA6FB675A, 0x0C604CC8, 0x604CC02C, 0x49C0E6E2, 0x2EE8CBBC, 0xCFD72EC4, 0x97E9810E,
                 0x0989CBE8, 0xF24843FE, 0x5C40D0BA, 0xA8D9CC3B, 0xB2B9666E, 0xBA7B71B7, 0x20B28A72, 0xB28AF500))

  const FIRST32 :=
    State(Hash(0x52E31F60, 0xA9C84BEC, 0x816D15EC, 0x78448908, 0x3549A991), 32,
          Window(0x0989CBE8, 0xF24843FE, 0x5C40D0BA, 0xA8D9CC3B, 0xB2B9666E, 0xBA7B71B7, 0x20B28A72, 0xB28AF500,
                 0x8AC87842, 0x289ADDF4, 0x56D51F21, 0xD96B7FD2, 0x3868E778, 0xAB5E4848, 0x7F0E2118, 0xDE87A111))

  const FIRST40 :=
    State(Hash(0xADEB7478, 0x24957F22, 0x50FE1EBA, 0x564CFF26, 0xAADF0CBB), 40,
          Window(0x8AC87842, 0x289ADDF4, 0x56D51F21, 0xD96B7FD2, 0x3868E778, 0xAB5E4848, 0x7F0E2118, 0xDE87A111,
                 0xE8BE56B0, 0x1A0AE652, 0xCD5611C8, 0x46EF29DC, 0x60D3DA6D, 0xDDF3BA6E, 0x2737F5E9, 0x4888A710))

  const FIRST48 :=
    State(Hash(0xC8A69090, 0xA2AD4F02, 0xB1BA8907, 0x26307A99, 0x58CFA558), 48,
          Window(0xE8BE56B0, 0x1A0AE652, 0xCD5611C8, 0x46EF29DC, 0x60D3DA6D, 0xDDF3BA6E, 0x2737F5E9, 0x4888A710,
                 0xD2A1177B, 0x9999633B, 0xD6C69D03, 0xCCF6127B, 0x7C58FE6D, 0xFDD99C68, 0xF8E32074, 0xE0BA3C7D))

  const FIRST56 :=
    State(Hash(0x776C3910, 0x36D1230A, 0x7B7AA56C, 0x33A24B84, 0x234B9DB2), 56,
          Window(0xD2A1177B, 0x9999633B, 0xD6C69D03, 0xCCF6127B, 0x7C58FE6D, 0xFDD99C68, 0xF8E32074, 0xE0BA3C7D,
                 0x152198D6, 0x7B3F1982, 0x37F2D5B7, 0x8596323E, 0x810790D6, 0xBEA0A942, 0x11C7E1B1, 0x6158D101))

  const FIRST64 :=
    State(Hash(0x513F9CA0, 0x2BFAF7A8, 0x10203537, 0xCD8952C4, 0xE7BDDD70), 64,
          Window(0x152198D6, 0x7B3F1982, 0x37F2D5B7, 0x8596323E, 0x810790D6, 0xBEA0A942, 0x11C7E1B1, 0x6158D101,
                 0x5FCD77D9, 0x7F2F12E6, 0xF868CFB1, 0xD6E997E9, 0xF526B852, 0xB7578DCC, 0x55D99DF4, 0x1FF69958))

  const FIRST72 :=
    State(Hash(0x84065712, 0x112B96E3, 0xFF7DBBFF, 0x4B1EC1EF, 0x5B45F27F), 72,
          Window(0x5FCD77D9, 0x7F2F12E6, 0xF868CFB1, 0xD6E997E9, 0xF526B852, 0xB7578DCC, 0x55D99DF4, 0x1FF69958,
                 0x94936EE9, 0xA8BF495D, 0xA2D62710, 0xF298C4F8, 0x9AB300D1, 0x94F3A53F, 0xD2979EC9, 0x3664B4DD))

  const FIRST80 :=
    State(Hash(0x8CE34517, 0xD3AD7C25, 0x6B4E1883, 0x74351CD2, 0x86838382), 80,
          Window(0x94936EE9, 0xA8BF495D, 0xA2D62710, 0xF298C4F8, 0x9AB300D1, 0x94F3A53F, 0xD2979EC9, 0x3664B4DD,
                 0x4F8AE77D, 0xA7DCA537, 0x33F9C85D, 0xB9587341, 0x3B210081, 0x1F56F3EC, 0x550A3D2B, 0x7418C8B3))

  lemma First0To8()
    ensures Steps(FIRST0, 8) == FIRST8
  {
  }

  lemma First8To16()
    ensures Steps(FIRST8, 8) == FIRST16
  {
  }

  lemma First16To24()
    ensures Steps(FIRST16, 8) == FIRST24
  {
  }

  lemma First24To32()
    ensures Steps(FIRST24, 8) == FIRST32
  {
  }

  lemma First32To40()
    ensures Steps(FIRST32, 8) == FIRST40
  {
  }

  lemma First40To48()
    ensures Steps(FIRST40, 8) == FIRST48
  {
  }

  lemma First48To56()
    ensures Steps(FIRST48, 8) == FIRST56
  {
  }

  lemma First56To64()
    ensures Steps(FIRST56, 8) == FIRST64
  {
  }

  lemma First64To72()
    ensures Steps(FIRST64, 8) == FIRST72
  {
  }

  lemma First72To80()
    ensures Steps(FIRST72, 8) == FIRST80
  {
  }

  lemma FirstRounds()
    ensures Steps(FIRST0, 80) == FIRST80
  {
    hide Steps;
    First0To8();
    First8To16();
    StepsAdd(FIRST0, 8, 8);
    First16To24();
    StepsAdd(FIRST0, 16, 8);
    First24To32();
    StepsAdd(FIRST0, 24, 8);
    First32To40();
    StepsAdd(FIRST0, 32, 8);
    First40To48();
    StepsAdd(FIRST0, 40, 8);
    First48To56();
    StepsAdd(FIRST0, 48, 8);
    First56To64();
    StepsAdd(FIRST0, 56, 8);
    First64To72();
    StepsAdd(FIRST0, 64, 8);
    First72To80();
    StepsAdd(FIRST0, 72, 8);
  }

  const LAST0 :=
    State(Hash(0xF4286818, 0xC37B27AE, 0x0408F581, 0x84677148, 0x4A566572), 0,
          Window(0x00000000, 0x00000000, 0x00000000, 0x00000000, 0x00000000, 0x00000000, 0x00000000, 0x00000000,
                 0x00000000, 0x00000000, 0x00000000, 0x00000000, 0x00000000, 0x00000000, 0x00000000, 0x000001C0))

  const LAST8 :=
    State(Hash(0xC6946813, 0xE7FA0377, 0x1510E457, 0xD078D09D, 0xBBBDD0F1), 8,
          Window(0x00000000, 0x00000000, 0x00000000, 0x00000000, 0x00000000, 0x00000000, 0x00000000, 0x000001C0,
                 0x00000000, 0x00000000, 0x00000380, 0x00000000, 0x00000000, 0x00000700, 0x00000000, 0x00000380))

  const LAST16 :=
    State(Hash(0xD9772360, 0x258B0BAA, 0x2898132A, 0xFFB35EEF, 0xD0E89E4B), 16,
          Window(0x00000000, 0x00000000, 0x00000380, 0x00000000, 0x00000000, 0x00000700, 0x00000000, 0x00000380,
                 0x00000E00, 0x00000000, 0x00000000, 0x00001C00, 0x00000000, 0x00000D80, 0x00003800, 0x00000480))

  const LAST24 :=
    State(Hash(0x8FBAA5B9, 0x9AD594B9, 0x7BA1C02F, 0xCDD20BD7, 0xF6264854), 24,
          Window(0x00000E00, 0x00000000, 0x00000000, 0x00001C00, 0x00000000, 0x00000D80, 0x00003800, 0x00000480,
                 0x00000000, 0x00007000, 0x00000E00, 0x00003600, 0x0000E000, 0x00000E00, 0x00000000, 0x0001CE00))

  const LAST32 :=
    State(Hash(0x8A4AF384, 0x17986223, 0x028BEC42, 0xC90A6F97, 0xD7105B6B), 32,
          Window(0x00000000, 0x00007000, 0x00000E00, 0x00003600, 0x0000E000, 0x00000E00, 0x00000000, 0x0001CE00,
                 0x00000000, 0x0000D800, 0x00038000, 0x00004F00, 0x00000000, 0x00070E00, 0x0000EE00, 0x00037500))

  const LAST40 :=
    State(Hash(0x03BB6310, 0x84E2A5F2, 0x21F56E03, 0xB3BD6B84, 0x1A5B6901), 40,
          Window(0x00000000, 0x0000D800, 0x00038000, 0x00004F00, 0x00000000, 0x00070E00, 0x0000EE00, 0x00037500,
                 0x000E0000, 0x0000E000, 0x00003600, 0x001CEE00, 0x00000000, 0x000DF000, 0x00380000, 0x0004C600))

  const LAST48 :=
    State(Hash(0x46F93B68, 0x7316056A, 0xB0F40CFA, 0xCF2BB5EB, 0x7B074F58), 48,
          Window(0x000E0000, 0x0000E000, 0x00003600, 0x001CEE00, 0x00000000, 0x000DF000, 0x00380000, 0x0004C600,
                 0x0000E000, 0x0070EE00, 0x000EE000, 0x00369E00, 0x00E00000, 0x000ED600, 0x0000E000, 0x01CEA600))

  const LAST56 :=
    State(Hash(0x6DA72E7F, 0x2BDBB8CB, 0x10C7596F, 0x05E5F88A, 0x627EF507), 56,
          Window(0x0000E000, 0x0070EE00, 0x000EE000, 0x00369E00, 0x00E00000, 0x000ED600, 0x0000E000, 0x01CEA600,
                 0x00000000, 0x00D80000, 0x0380E000, 0x004F0000, 0x00000000, 0x070E0000, 0x00EE0000, 0x03751C00))

  const LAST64 :=
    State(Hash(0xD504902B, 0xF66D9BF4, 0x24D85327, 0xDEAAC406, 0xE996063D), 64,
          Window(0x00000000, 0x00D80000, 0x0380E000, 0x004F0000, 0x00000000, 0x070E0000, 0x00EE0000, 0x03751C00,
                 0x0E000000, 0x00E0E000, 0x00363800, 0x1CEE9000, 0x00000000, 0x0DF09000, 0x3800E000, 0x04C77400))

  const LAST72 :=
    State(Hash(0xAE1B8E7B, 0x8B2C7573, 0x66277459, 0xDDB0158E, 0xFD889AEF), 72,
          Window(0x0E000000, 0x00E0E000, 0x00363800, 0x1CEE9000, 0x00000000, 0x0DF09000, 0x3800E000, 0x04C77400,
                 0x00E0E000, 0x70EE0000, 0x0EE35800, 0x369EE000, 0xE0000000, 0x0ED1A800, 0x00E00000, 0xCEA51001))

  const LAST80 :=
    State(Hash(0x906FD62C, 0x58C0AAC0, 0xB6A55520, 0x74E9B89D, 0x9AF00B7F), 80,
          Window(0x00E0E000, 0x70EE0000, 0x0EE35800, 0x369EE000, 0xE0000000, 0x0ED1A800, 0x00E00000, 0xCEA51001,
                 0x000EE000, 0xD800E000, 0x80E0E003, 0x4F1C0000, 0x00000000, 0x0E0D5807, 0xEE380000, 0x7518C803))

  lemma Last0To8()
    ensures Steps(LAST0, 8) == LAST8
  {
  }

  lemma Last8To16()
    ensures Steps(LAST8, 8) == LAST16
  {
  }

  lemma Last16To24()
    ensures Steps(LAST16, 8) == LAST24
  {
  }

  lemma Last24To32()
    ensures Steps(LAST24, 8) == LAST32
  {
  }

  lemma Last32To40()
    ensures Steps(LAST32, 8) == LAST40
  {
  }

  lemma Last40To48()
    ensures Steps(LAST40, 8) == LAST48
  {
  }

  lemma Last48To56()
    ensures Steps(LAST48, 8) == LAST56
  {
  }

  lemma Last56To64()
    ensures Steps(LAST56, 8) == LAST64
  {
  }

  lemma Last64To72()
    ensures Steps(LAST64, 8) == LAST72
  {
  }

  lemma Last72To80()
    ensures Steps(LAST72, 8) == LAST80
  {
  }

  lemma LastRounds()
    ensures Steps(LAST0, 80) == LAST80
  {
    hide Steps;
    Last0To8();
    Last8To16();
    StepsAdd(LAST0, 8, 8);
    Last16To24();
    StepsAdd(LAST0, 16, 8);
    Last24To32();
    StepsAdd(LAST0, 24, 8);
    Last32To40();
    StepsAdd(LAST0, 32, 8);
    Last40To48();
    StepsAdd(LAST0, 40, 8);
    Last48To56();
    StepsAdd(LAST0, 48, 8);
    Last56To64();
    StepsAdd(LAST0, 56, 8);
    Last64To72();
    StepsAdd(LAST0, 64, 8);
    Last72To80();
    StepsAdd(LAST0, 72, 8);
  }

  const ATOG: Bytes := "abcdbcdecdefdefg"
  const ETOK: Bytes := "efghfghighijhijk"
  const ITOO: Bytes := "ijkljklmklmnlmno"
  const MTOQ: Bytes := "mnopnopq"
  const LETTERS: Bytes := ATOG + ETOK + ITOO + MTOQ
  const FIRST: Bytes := LETTERS + [ByteOf(0x80)] + Zeros(7)
  const LAST: Bytes := Zeros(62) + [ByteOf(0x01), ByteOf(0xC0)]

  lemma LettersPadded()
    ensures |FIRST| == 64 && |LAST| == 64 && Padded(LETTERS) == FIRST + LAST
  {
    hide ATOG, ETOK, ITOO, MTOQ;
    Lengths();
    BigEndianOf(448);
  }

  lemma Lengths()
    ensures |ATOG| == |ETOK| == |ITOO| == 16 && |MTOQ| == 8 && |FIRST| == 64
  {
  }

  /** Where the letters stand in the first block. */
  lemma FirstAt(i: nat)
    requires i < 56
    ensures |ATOG| == |ETOK| == |ITOO| == 16 && |MTOQ| == 8 && |FIRST| == 64
    ensures FIRST[i] == if i < 16 then ATOG[i] else if i < 32 then ETOK[i - 16] else if i < 48 then ITOO[i - 32]
                        else MTOQ[i - 48]
  {
    Lengths();
    hide ATOG, ETOK, ITOO, MTOQ;
  }

  lemma FirstRest()
    ensures |FIRST| == 64 && FIRST[56] == ByteOf(0x80) && forall i :: 57 <= i < 64 ==> FIRST[i] == '\0'
  {
    Lengths();
    hide ATOG, ETOK, ITOO, MTOQ;
  }

  lemma First0()
    ensures |FIRST| == 64 && W(FIRST, 0) == 0x61626364
  {
    hide W, Octet, FIRST;
    FirstAt(0);
    FirstAt(1);
    FirstAt(2);
    FirstAt(3);
    OctetsAToF();
    WordAt(FIRST, 0, 0x61, 0x62, 0x63, 0x64);
  }

  lemma First1()
    ensures |FIRST| == 64 && W(FIRST, 1) == 0x62636465
  {
    hide W, Octet, FIRST;
    FirstAt(4);
    FirstAt(5);
    FirstAt(6);
    FirstAt(7);
    OctetsAToF();
    WordAt(FIRST, 1, 0x62, 0x63, 0x64, 0x65);
  }

  lemma First2()
    ensures |FIRST| == 64 && W(FIRST, 2) == 0x63646566
  {
    hide W, Octet, FIRST;
    FirstAt(8);
    FirstAt(9);
    FirstAt(10);
    FirstAt(11);
    OctetsAToF();
    WordAt(FIRST, 2, 0x63, 0x64, 0x65, 0x66);
  }

  lemma First3()
    ensures |FIRST| == 64 && W(FIRST, 3) == 0x64656667
  {
    hide W, Octet, FIRST;
    FirstAt(12);
    FirstAt(13);
    FirstAt(14);
    FirstAt(15);
    OctetsAToF();
    OctetsGToL();
    WordAt(FIRST, 3, 0x64, 0x65, 0x66, 0x67);
  }

  lemma First4()
    ensures |FIRST| == 64 && W(FIRST, 4) == 0x65666768
  {
    hide W, Octet, FIRST;
    FirstAt(16);
    FirstAt(17);
    FirstAt(18);
    FirstAt(19);
    OctetsAToF();
    OctetsGToL();
    WordAt(FIRST, 4, 0x65, 0x66, 0x67, 0x68);
  }

  lemma First5()
    ensures |FIRST| == 64 && W(FIRST, 5) == 0x66676869
  {
    hide W, Octet, FIRST;
    FirstAt(20);
    FirstAt(21);
    FirstAt(22);
    FirstAt(23);
    OctetsAToF();
    OctetsGToL();
    WordAt(FIRST, 5, 0x66, 0x67, 0x68, 0x69);
  }

  lemma First6()
    ensures |FIRST| == 64 && W(FIRST, 6) == 0x6768696A
  {
    hide W, Octet, FIRST;
    FirstAt(24);
    FirstAt(25);
    FirstAt(26);
    FirstAt(27);
    OctetsGToL();
    WordAt(FIRST, 6, 0x67, 0x68, 0x69, 0x6A);
  }

  lemma First7()
    ensures |FIRST| == 64 && W(FIRST, 7) == 0x68696A6B
  {
    hide W, Octet, FIRST;
    FirstAt(28);
    FirstAt(29);
    FirstAt(30);
    FirstAt(31);
    OctetsGToL();
    WordAt(FIRST, 7, 0x68, 0x69, 0x6A, 0x6B);
  }

  lemma First8()
    ensures |FIRST| == 64 && W(FIRST, 8) == 0x696A6B6C
  {
    hide W, Octet, FIRST;
    FirstAt(32);
    FirstAt(33);
    FirstAt(34);
    FirstAt(35);
    OctetsGToL();
    WordAt(FIRST, 8, 0x69, 0x6A, 0x6B, 0x6C);
  }

  lemma First9()
    ensures |FIRST| == 64 && W(FIRST, 9) == 0x6A6B6C6D
  {
    hide W, Octet, FIRST;
    FirstAt(36);
    FirstAt(37);
    FirstAt(38);
    FirstAt(39);
    OctetsGToL();
    OctetsMToQ();
    WordAt(FIRST, 9, 0x6A, 0x6B, 0x6C, 0x6D);
  }

  lemma First10()
    ensures |FIRST| == 64 && W(FIRST, 10) == 0x6B6C6D6E
  {
    hide W, Octet, FIRST;
    FirstAt(40);
    FirstAt(41);
    FirstAt(42);
    FirstAt(43);
    OctetsGToL();
    OctetsMToQ();
    WordAt(FIRST, 10, 0x6B, 0x6C, 0x6D, 0x6E);
  }

  lemma First11()
    ensures |FIRST| == 64 && W(FIRST, 11) == 0x6C6D6E6F
  {
    hide W, Octet, FIRST;
    FirstAt(44);
    FirstAt(45);
    FirstAt(46);
    FirstAt(47);
    OctetsGToL();
    OctetsMToQ();
    WordAt(FIRST, 11, 0x6C, 0x6D, 0x6E, 0x6F);
  }

  lemma First12()
    ensures |FIRST| == 64 && W(FIRST, 12) == 0x6D6E6F70
  {
    hide W, Octet, FIRST;
    FirstAt(48);
    FirstAt(49);
    FirstAt(50);
    FirstAt(51);
    OctetsMToQ();
    WordAt(FIRST, 12, 0x6D, 0x6E, 0x6F, 0x70);
  }

  lemma First13()
    ensures |FIRST| == 64 && W(FIRST, 13) == 0x6E6F7071
  {
    hide W, Octet, FIRST;
    FirstAt(52);
    FirstAt(53);
    FirstAt(54);
    FirstAt(55);
    OctetsMToQ();
    WordAt(FIRST, 13, 0x6E, 0x6F, 0x70, 0x71);
  }

  lemma FirstPadding()
    ensures |FIRST| == 64 && W(FIRST, 14) == 0x80000000 && W(FIRST, 15) == 0
  {
    hide W, Octet, FIRST;
    FirstRest();
    OctetsOfPadding();
    WordAt(FIRST, 14, 0x80, 0, 0, 0);
    ZeroWord(FIRST, 15);
  }

  lemma FirstWords()
    ensures |FIRST| == 64 && Stand(FIRST, 0, FIRST0.words)
  {
    hide W, FIRST, Stand;
    First0();
    First1();
    First2();
    First3();
    First4();
    First5();
    First6();
    First7();
    First8();
    First9();
    First10();
    First11();
    First12();
    First13();
    FirstPadding();
    StandFrom(FIRST, FIRST0.words);
  }

  lemma LastAt()
    ensures |LAST| == 64 && LAST[62] == ByteOf(0x01) && LAST[63] == ByteOf(0xC0)
    ensures forall i :: 0 <= i < 62 ==> LAST[i] == '\0'
  {
  }

  lemma LastZero(i: nat)
    requires i < 15
    ensures |LAST| == 64 && W(LAST, i) == 0
  {
    hide W, LAST;
    LastAt();
    ZeroWord(LAST, i);
  }

  lemma LastLength()
    ensures |LAST| == 64 && W(LAST, 15) == 0x1C0
  {
    hide W, LAST, Octet;
    LastAt();
    OctetsOfPadding();
    WordAt(LAST, 15, 0, 0, 0x01, 0xC0);
  }

  lemma LastWords()
    ensures |LAST| == 64 && Stand(LAST, 0, LAST0.words)
  {
    hide W, LAST, Stand;
    forall i: nat | i < 15 ensures |LAST| == 64 && W(LAST, i) == 0 {
      LastZero(i);
    }
    LastLength();
    StandFrom(LAST, LAST0.words);
  }

  const FIRST_HASH := Hash(0xF4286818, 0xC37B27AE, 0x0408F581, 0x84677148, 0x4A566572)
  const LAST_HASH := Hash(0x84983E44, 0x1C3BD26E, 0xBAAE4AA1, 0xF95129E5, 0xE54670F1)

  lemma FirstSum()
    ensures Plus(INITIAL, FIRST80.v) == FIRST_HASH
  {
  }

  lemma LastSum()
    ensures Plus(FIRST_HASH, LAST80.v) == LAST_HASH
  {
  }

  lemma LastBytes()
    ensures HashBytes(LAST_HASH)
         == Numbers([0x84, 0x98, 0x3E, 0x44, 0x1C, 0x3B, 0xD2, 0x6E, 0xBA, 0xAE,
                   0x4A, 0xA1, 0xF9, 0x51, 0x29, 0xE5, 0xE5, 0x46, 0x70, 0xF1])
  {
  }

  /** The answer for a message of two blocks. */
  lemma TwoBlockDigest()
    ensures Digest("abcdbcdecdefdefg" + "efghfghighijhijk" + "ijkljklmklmnlmno" + "mnopnopq")
         == Numbers([0x84, 0x98, 0x3E, 0x44, 0x1C, 0x3B, 0xD2, 0x6E, 0xBA, 0xAE,
                   0x4A, 0xA1, 0xF9, 0x51, 0x29, 0xE5, 0xE5, 0x46, 0x70, 0xF1])
  {
    hide W, Steps, Compressed, WordBytes, Padded, Plus, HashBytes, FIRST, LAST;
    LettersPadded();
    FirstWords();
    LastWords();
    FirstRounds();
    LastRounds();
    CompressedBy(INITIAL, FIRST, FIRST0, FIRST80);
    FirstSum();
    CompressedBy(FIRST_HASH, LAST, LAST0, LAST80);
    LastSum();
    var data := FIRST + LAST;
    assert data[0..64] == FIRST && data[64..128] == LAST;
    assert HashOf(data, 0) == INITIAL;
    assert HashOf(data, 1) == Compressed(INITIAL, FIRST);
    assert HashOf(data, 2) == Compressed(FIRST_HASH, LAST);
    LastBytes();
  }
}
