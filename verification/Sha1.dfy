/** SHA-1 (section 6.1 of FIPS 180-4): a recursive specification and the in-place computation. */
module Sha1 {
  import opened Text

  // Section 5.1.1: padding.

  /** The `k` low-order big-endian base-256 digits of `n`. */
  function BigEndian(n: nat, k: nat): (r: Bytes)
    ensures |r| == k
  {
    if k == 0 then [] else BigEndian(n / 256, k - 1) + [ByteOf(n % 256)]
  }

  const TWO64: nat := 0x1_0000_0000_0000_0000

  /** Zero bytes between the 0x80 byte and the length. */
  function ZeroCount(n: nat): nat { (119 - n % 64) % 64 }

  function Zeros(k: nat): (r: Bytes)
    ensures |r| == k
  {
    seq(k, _ => '\0')
  }

  function Padded(m: Bytes): Bytes {
    m + [ByteOf(0x80)] + Zeros(ZeroCount(|m|)) + BigEndian(8 * |m| % TWO64, 8)
  }

  // Section 4.1.1: functions, section 4.2.1: constants.

  function Ch(x: bv32, y: bv32, z: bv32): bv32 { (x & y) ^ (!x & z) }

  function Parity(x: bv32, y: bv32, z: bv32): bv32 { x ^ y ^ z }

  function Maj(x: bv32, y: bv32, z: bv32): bv32 { (x & y) ^ (x & z) ^ (y & z) }

  function F(t: nat, x: bv32, y: bv32, z: bv32): bv32 {
    if t < 20 then Ch(x, y, z) else if t < 40 then Parity(x, y, z) else if t < 60 then Maj(x, y, z) else Parity(x, y, z)
  }

  function K(t: nat): bv32 {
    if t < 20 then 0x5A827999 else if t < 40 then 0x6ED9EBA1 else if t < 60 then 0x8F1BBCDC else 0xCA62C1D6
  }

  // Section 6.1.2: the computation.

  datatype Hash = Hash(a: bv32, b: bv32, c: bv32, d: bv32, e: bv32)

  const INITIAL := Hash(0x67452301, 0xEFCDAB89, 0x98BADCFE, 0x10325476, 0xC3D2E1F0)

  function Octet(b: Byte): bv32 { ((b as int) as bv8) as bv32 }

  /** `u32::from_be_bytes`. */
  function WordOf(b0: Byte, b1: Byte, b2: Byte, b3: Byte): bv32 {
    (Octet(b0) << 24) | (Octet(b1) << 16) | (Octet(b2) << 8) | Octet(b3)
  }

  function Mix(p: bv32, q: bv32, r: bv32, s: bv32): bv32 { (p ^ q ^ r ^ s).RotateLeft(1) }

  /** The message schedule. */
  function W(block: Bytes, t: nat): bv32
    requires |block| == 64 && t < 80
  {
    if t < 16 then WordOf(block[4 * t], block[4 * t + 1], block[4 * t + 2], block[4 * t + 3])
    else Mix(W(block, t - 3), W(block, t - 8), W(block, t - 14), W(block, t - 16))
  }

  /** Addition modulo 2^32 of the five terms of a round. */
  function Sum(a: bv32, f: bv32, e: bv32, k: bv32, w: bv32): bv32 { a.RotateLeft(5) + f + e + k + w }

  function Round(v: Hash, t: nat, w: bv32): Hash {
    Hash(Sum(v.a, F(t, v.b, v.c, v.d), v.e, K(t), w), v.a, v.b.RotateLeft(30), v.c, v.d)
  }

  function Add(x: bv32, y: bv32): bv32 { x + y }

  function Plus(x: Hash, y: Hash): Hash {
    Hash(Add(x.a, y.a), Add(x.b, y.b), Add(x.c, y.c), Add(x.d, y.d), Add(x.e, y.e))
  }

  /** The working variables after `t` rounds. */
  function Rounds(h: Hash, block: Bytes, t: nat): Hash
    requires |block| == 64 && t <= 80
  {
    if t == 0 then h else Round(Rounds(h, block, t - 1), t - 1, W(block, t - 1))
  }

  function Compressed(h: Hash, block: Bytes): Hash
    requires |block| == 64
  {
    Plus(h, Rounds(h, block, 80))
  }

  /** The hash after the first `n` blocks of padded data. */
  function HashOf(data: Bytes, n: nat): Hash
    requires 64 * n <= |data|
  {
    if n == 0 then INITIAL else Compressed(HashOf(data, n - 1), data[64 * (n - 1)..64 * n])
  }

  function LowByte(w: bv32): Byte { ByteOf(((w & 0xFF) as bv8) as int) }

  /** `u32::to_be_bytes`. */
  function WordBytes(w: bv32): (r: Bytes)
    ensures |r| == 4
  {
    [LowByte(w >> 24), LowByte(w >> 16), LowByte(w >> 8), LowByte(w)]
  }

  function HashBytes(h: Hash): (r: Bytes)
    ensures |r| == 20
  {
    WordBytes(h.a) + WordBytes(h.b) + WordBytes(h.c) + WordBytes(h.d) + WordBytes(h.e)
  }

  function Digest(m: Bytes): (r: Bytes)
    ensures |r| == 20
  {
    PaddedLength(m);
    HashBytes(HashOf(Padded(m), |Padded(m)| / 64))
  }

  // Padding properties.

  lemma ZeroCountFits(n: nat)
    ensures (n + 1 + ZeroCount(n)) % 64 == 56 && ZeroCount(n) < 64
  {
  }

  /** The padded length is a multiple of 64, at least 9 and at most 72 bytes longer. */
  lemma PaddedLength(m: Bytes)
    ensures |Padded(m)| % 64 == 0 && |m| + 9 <= |Padded(m)| <= |m| + 72
  {
    hide ZeroCount, Padded;
    ZeroCountFits(|m|);
    PaddedSize(m);
    EightMore(|m| + 1 + ZeroCount(|m|));
  }

  lemma PaddedSize(m: Bytes)
    ensures |Padded(m)| == |m| + 1 + ZeroCount(|m|) + 8
  {
    hide ZeroCount;
  }

  lemma EightMore(n: nat)
    requires n % 64 == 56
    ensures (n + 8) % 64 == 0
  {
  }

  /** `ZeroCount` is the smallest number of zero bytes that leaves room for the length. */
  lemma ZeroCountSmallest(n: nat, k: nat)
    requires (n + 1 + k) % 64 == 56
    ensures (n + 1 + ZeroCount(n)) % 64 == 56 && ZeroCount(n) <= k
  {
    assert (n % 64 + 1 + k) % 64 == 56;
  }

  function Power256(k: nat): nat { if k == 0 then 1 else 256 * Power256(k - 1) }

  lemma {:induction false} BigEndianInjective(a: nat, b: nat, k: nat)
    requires BigEndian(a, k) == BigEndian(b, k) && a < Power256(k) && b < Power256(k)
    ensures a == b
    decreases k
  {
    if k > 0 {
      var x, y := BigEndian(a, k), BigEndian(b, k);
      assert x[..k - 1] == BigEndian(a / 256, k - 1) && y[..k - 1] == BigEndian(b / 256, k - 1);
      assert x[k - 1] as int == a % 256 && y[k - 1] as int == b % 256;
      BigEndianInjective(a / 256, b / 256, k - 1);
    }
  }

  lemma EightDigits()
    ensures Power256(8) == TWO64
  {
    assert Power256(4) == 0x1_0000_0000;
  }

  lemma SameLength(a: nat, b: nat)
    requires 8 * a % TWO64 == 8 * b % TWO64 && a <= b + 63 && b <= a + 63
    ensures a == b
  {
  }

  /** Padding is injective on all messages: equal padded data has equal length, and the length field
      then tells lengths within 63 bytes of each other apart. */
  lemma PaddedInjective(a: Bytes, b: Bytes)
    requires Padded(a) == Padded(b)
    ensures a == b
  {
    PaddedLength(a);
    PaddedLength(b);
    var n := |Padded(a)| - 8;
    assert Padded(a)[n..] == BigEndian(8 * |a| % TWO64, 8);
    assert Padded(b)[n..] == BigEndian(8 * |b| % TWO64, 8);
    EightDigits();
    BigEndianInjective(8 * |a| % TWO64, 8 * |b| % TWO64, 8);
    SameLength(|a|, |b|);
    assert Padded(a)[..|a|] == a && Padded(b)[..|a|] == b;
  }

  // The in-place computation.

  // The code's own forms of the three functions.

  function Choice(b: bv32, c: bv32, d: bv32): bv32 { (b & c) | ((!b) & d) }

  function Majority(b: bv32, c: bv32, d: bv32): bv32 { (b & c) | (b & d) | (c & d) }

  lemma ChoiceTerm(b: bv32, c: bv32, d: bv32)
    ensures (b & c) | ((!b) & d) == (b & c) ^ (!b & d)
  {
  }

  lemma ChoiceIsCh(b: bv32, c: bv32, d: bv32)
    ensures Choice(b, c, d) == Ch(b, c, d)
  {
    ChoiceTerm(b, c, d);
  }

  lemma MajorityTerm(b: bv32, c: bv32, d: bv32)
    ensures (b & c) | (b & d) | (c & d) == (b & c) ^ (b & d) ^ (c & d)
  {
  }

  lemma MajorityIsMaj(b: bv32, c: bv32, d: bv32)
    ensures Majority(b, c, d) == Maj(b, c, d)
  {
    MajorityTerm(b, c, d);
  }

  lemma ZerosSnoc(k: nat)
    ensures Zeros(k) + ['\0'] == Zeros(k + 1)
  {
  }

  /** The padding loop of `sha1`. */
  method Pad(input: Bytes) returns (data: Bytes)
    ensures data == Padded(input)
  {
    var bitLength := 8 * |input| % TWO64;
    ghost var head := input + [ByteOf(0x80)];
    data := input + [ByteOf(0x80)];
    assert head + Zeros(0) == head;
    ghost var added := 0;
    while |data| % 64 != 56
      invariant added <= ZeroCount(|input|) && data == head + Zeros(added)
      decreases ZeroCount(|input|) - added
    {
      PadNotDone(|input|, added);
      ZerosSnoc(added);
      assert head + Zeros(added) + ['\0'] == head + (Zeros(added) + ['\0']);
      data := data + ['\0'];
      added := added + 1;
    }
    ZeroCountSmallest(|input|, added);
    data := data + BigEndian(bitLength, 8);
  }

  lemma PadNotDone(n: nat, added: nat)
    requires added <= ZeroCount(n) && (n + 1 + added) % 64 != 56
    ensures added < ZeroCount(n)
  {
    ZeroCountFits(n);
  }

  /** Fills the message schedule of one block. */
  method Schedule(chunk: Bytes, words: array<bv32>)
    requires |chunk| == 64 && words.Length == 80
    modifies words
    ensures forall t :: 0 <= t < 80 ==> words[t] == W(chunk, t)
  {
    hide WordOf, Mix;
    for index := 0 to 16
      invariant forall t :: 0 <= t < index ==> words[t] == W(chunk, t)
    {
      var start := index * 4;
      words[index] := WordOf(chunk[start], chunk[start + 1], chunk[start + 2], chunk[start + 3]);
    }
    for index := 16 to 80
      invariant forall t :: 0 <= t < index ==> words[t] == W(chunk, t)
    {
      words[index] := Mix(words[index - 3], words[index - 8], words[index - 14], words[index - 16]);
    }
  }

  /** The function and constant of a round, chosen by its index. */
  method RoundFunction(index: nat, b: bv32, c: bv32, d: bv32) returns (f: bv32, constant: bv32)
    ensures f == F(index, b, c, d) && constant == K(index)
  {
    hide Ch, Maj, Parity, Choice, Majority;
    ChoiceIsCh(b, c, d);
    MajorityIsMaj(b, c, d);
    if index < 20 {
      f, constant := Choice(b, c, d), 0x5A827999;
    } else if index < 40 {
      f, constant := Parity(b, c, d), 0x6ED9EBA1;
    } else if index < 60 {
      f, constant := Majority(b, c, d), 0x8F1BBCDC;
    } else {
      f, constant := Parity(b, c, d), 0xCA62C1D6;
    }
  }

  /** The eighty rounds of one block. */
  method RunRounds(h: Hash, chunk: Bytes, words: array<bv32>) returns (v: Hash)
    requires |chunk| == 64 && words.Length == 80
    requires forall t :: 0 <= t < 80 ==> words[t] == W(chunk, t)
    ensures v == Rounds(h, chunk, 80)
  {
    hide W, F, K, Sum;
    var a, b, c, d, e := h.a, h.b, h.c, h.d, h.e;
    for index := 0 to 80
      invariant Hash(a, b, c, d, e) == Rounds(h, chunk, index)
    {
      var f, constant := RoundFunction(index, b, c, d);
      var temp := Sum(a, f, e, constant, words[index]);
      e := d;
      d := c;
      c := b.RotateLeft(30);
      b := a;
      a := temp;
    }
    v := Hash(a, b, c, d, e);
  }

  ghost function HashIn(hash: array<bv32>): Hash
    requires hash.Length == 5
    reads hash
  {
    Hash(hash[0], hash[1], hash[2], hash[3], hash[4])
  }

  method AddInto(hash: array<bv32>, v: Hash)
    requires hash.Length == 5
    modifies hash
    ensures HashIn(hash) == Plus(old(HashIn(hash)), v)
  {
    hide Add;
    hash[0] := Add(hash[0], v.a);
    hash[1] := Add(hash[1], v.b);
    hash[2] := Add(hash[2], v.c);
    hash[3] := Add(hash[3], v.d);
    hash[4] := Add(hash[4], v.e);
  }

  /** One block: the rounds over its schedule, added into the hash in place. */
  method Compress(chunk: Bytes, words: array<bv32>, hash: array<bv32>)
    requires |chunk| == 64 && words.Length == 80 && hash.Length == 5 && words != hash
    modifies words, hash
    ensures HashIn(hash) == Compressed(old(HashIn(hash)), chunk)
  {
    hide W, Rounds, Plus;
    Schedule(chunk, words);
    var v := RunRounds(Hash(hash[0], hash[1], hash[2], hash[3], hash[4]), chunk, words);
    AddInto(hash, v);
  }

  /** `sha1`. */
  method Sha1(input: Bytes) returns (out: Bytes)
    ensures out == Digest(input)
  {
    hide Compressed, WordBytes, Padded;
    var hash := new bv32[] [0x67452301, 0xEFCDAB89, 0x98BADCFE, 0x10325476, 0xC3D2E1F0];
    var words := new bv32[80];
    var data := Pad(input);
    PaddedLength(input);
    var chunks := |data| / 64;
    for i := 0 to chunks
      invariant HashIn(hash) == HashOf(data, i)
    {
      Compress(data[64 * i..64 * (i + 1)], words, hash);
    }
    out := [];
    for index := 0 to 5
      invariant HashIn(hash) == HashOf(data, chunks)
      invariant out == HashBytes(HashIn(hash))[..4 * index]
    {
      out := out + WordBytes(hash[index]);
    }
  }
}
