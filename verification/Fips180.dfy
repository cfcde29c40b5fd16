/** SHA-256 as FIPS 180-4 defines it and HMAC as section 2 of RFC 2104 defines it: the
    references the streaming code of sha256.c is proved against. */
module Fips180 {
  type word = bv32
  type byte = bv8

  // ---- section 4.1.2: the logical functions, the macros of sha256.h ----

  function Ch(x: word, y: word, z: word): word { (x & y) ^ (!x & z) }
  function Maj(x: word, y: word, z: word): word { (x & y) ^ (x & z) ^ (y & z) }
  function RotR(x: word, n: nat): word
    requires 0 < n < 32
  {
    (x >> n) | (x << (32 - n))
  }
  /** Addition modulo 2^32. */
  function Add(x: word, y: word): word { x + y }
  function BigSigma0(x: word): word { RotR(x, 2) ^ RotR(x, 13) ^ RotR(x, 22) }
  function BigSigma1(x: word): word { RotR(x, 6) ^ RotR(x, 11) ^ RotR(x, 25) }
  function SmallSigma0(x: word): word { RotR(x, 7) ^ RotR(x, 18) ^ (x >> 3) }
  function SmallSigma1(x: word): word { RotR(x, 17) ^ RotR(x, 19) ^ (x >> 10) }

  // ---- section 4.2.2: the round constants ----

  const K0: seq<nat> := [
    0x428a2f98, 0x71374491, 0xb5c0fbcf, 0xe9b5dba5, 0x3956c25b, 0x59f111f1, 0x923f82a4, 0xab1c5ed5,
    0xd807aa98, 0x12835b01, 0x243185be, 0x550c7dc3, 0x72be5d74, 0x80deb1fe, 0x9bdc06a7, 0xc19bf174
  ]
  const K1: seq<nat> := [
    0xe49b69c1, 0xefbe4786, 0x0fc19dc6, 0x240ca1cc, 0x2de92c6f, 0x4a7484aa, 0x5cb0a9dc, 0x76f988da,
    0x983e5152, 0xa831c66d, 0xb00327c8, 0xbf597fc7, 0xc6e00bf3, 0xd5a79147, 0x06ca6351, 0x14292967
  ]
  const K2: seq<nat> := [
    0x27b70a85, 0x2e1b2138, 0x4d2c6dfc, 0x53380d13, 0x650a7354, 0x766a0abb, 0x81c2c92e, 0x92722c85,
    0xa2bfe8a1, 0xa81a664b, 0xc24b8b70, 0xc76c51a3, 0xd192e819, 0xd6990624, 0xf40e3585, 0x106aa070
  ]
  const K3: seq<nat> := [
    0x19a4c116, 0x1e376c08, 0x2748774c, 0x34b0bcb5, 0x391c0cb3, 0x4ed8aa4a, 0x5b9cca4f, 0x682e6ff3,
    0x748f82ee, 0x78a5636f, 0x84c87814, 0x8cc70208, 0x90befffa, 0xa4506ceb, 0xbef9a3f7, 0xc67178f2
  ]

  const PRIMES0: seq<nat> := [
    2, 3, 5, 7, 11, 13, 17, 19, 23, 29, 31, 37, 41, 43, 47, 53
  ]
  const PRIMES1: seq<nat> := [
    59, 61, 67, 71, 73, 79, 83, 89, 97, 101, 103, 107, 109, 113, 127, 131
  ]
  const PRIMES2: seq<nat> := [
    137, 139, 149, 151, 157, 163, 167, 173, 179, 181, 191, 193, 197, 199, 211, 223
  ]
  const PRIMES3: seq<nat> := [
    227, 229, 233, 239, 241, 251, 257, 263, 269, 271, 277, 281, 283, 293, 307, 311
  ]

  const K: seq<nat> := K0 + K1 + K2 + K3
  const PRIMES: seq<nat> := PRIMES0 + PRIMES1 + PRIMES2 + PRIMES3
  const H0: seq<nat> := [
    0x6a09e667, 0xbb67ae85, 0x3c6ef372, 0xa54ff53a, 0x510e527f, 0x9b05688c, 0x1f83d9ab, 0x5be0cd19
  ]

  /** The whole part of the cube root of p < 343. */
  function WholeRoot(p: nat): nat {
    if p < 8 then 1 else if p < 27 then 2 else if p < 64 then 3 else if p < 125 then 4 else if p < 216 then 5 else 6
  }

  /** w is the first 32 fractional bits of the cube root of p < 343. */
  predicate CubeRootBits(p: nat, w: nat) {
    var low := WholeRoot(p) * 0x1_0000_0000 + w;
    w < 0x1_0000_0000 &&
    low * low * low <= p * 0x1_0000_0000_0000_0000_0000_0000 < (low + 1) * (low + 1) * (low + 1)
  }

  /** w is the first 32 fractional bits of the square root of p < 25. */
  predicate SquareRootBits(p: nat, w: nat) {
    var whole := if p < 4 then 1 else if p < 9 then 2 else if p < 16 then 3 else 4;
    var low := whole * 0x1_0000_0000 + w;
    w < 0x1_0000_0000 && low * low <= p * 0x1_0000_0000_0000_0000 < (low + 1) * (low + 1)
  }

  lemma CubeRoots0(i: nat)
    requires i < 16
    ensures CubeRootBits(PRIMES0[i], K0[i])
  {
  }

  lemma CubeRoots1(i: nat)
    requires i < 16
    ensures CubeRootBits(PRIMES1[i], K1[i])
  {
  }

  lemma CubeRoots2(i: nat)
    requires i < 16
    ensures CubeRootBits(PRIMES2[i], K2[i])
  {
  }

  lemma CubeRoots3(i: nat)
    requires i < 16
    ensures CubeRootBits(PRIMES3[i], K3[i])
  {
  }

  lemma AtQuarter(a: seq<nat>, b: seq<nat>, c: seq<nat>, d: seq<nat>, i: nat)
    requires |a| == |b| == |c| == |d| == 16 && i < 64
    ensures |a + b + c + d| == 64
    ensures (a + b + c + d)[i] == (if i < 16 then a[i] else if i < 32 then b[i - 16] else if i < 48 then c[i - 32] else d[i - 48])
  {
  }

  /** Where FIPS 180-4 takes its round constants from (section 4.2.2). */
  lemma RoundConstants(i: nat)
    requires i < 64
    ensures |K| == |PRIMES| == 64 && CubeRootBits(PRIMES[i], K[i])
  {
    hide CubeRootBits;
    AtQuarter(K0, K1, K2, K3, i);
    AtQuarter(PRIMES0, PRIMES1, PRIMES2, PRIMES3, i);
    if i < 16 {
      CubeRoots0(i);
    } else if i < 32 {
      CubeRoots1(i - 16);
    } else if i < 48 {
      CubeRoots2(i - 32);
    } else {
      CubeRoots3(i - 48);
    }
  }

  /** Where it takes the initial hash value from (section 5.3.3). */
  lemma InitialValues(i: nat)
    requires i < 8
    ensures |H0| == 8 && SquareRootBits([2, 3, 5, 7, 11, 13, 17, 19][i], H0[i])
  {
  }

  lemma ConstantsAreWords()
    ensures |K| == 64 && |H0| == 8
    ensures forall i :: 0 <= i < 64 ==> K[i] < 0x1_0000_0000
    ensures forall i :: 0 <= i < 8 ==> H0[i] < 0x1_0000_0000
  {
    RoundConstants(0);
    forall i | 0 <= i < 64
      ensures K[i] < 0x1_0000_0000
    {
      RoundConstants(i);
    }
  }

  function RoundConstant(t: nat): word
    requires t < 64
  {
    ConstantsAreWords();
    K[t] as word
  }

  function InitialHash(): (h: seq<word>)
    ensures |h| == 8
  {
    ConstantsAreWords();
    seq(8, i requires 0 <= i < 8 => H0[i] as word)
  }

  // ---- section 6.2.2: the compression of one block ----

  type Block = s: seq<byte> | |s| == 64 witness seq(64, _ => 0)
  type Hash = s: seq<word> | |s| == 8 witness seq(8, _ => 0)

  /** Words are stored most significant byte first (section 3.1). */
  function FromBytes(b0: byte, b1: byte, b2: byte, b3: byte): word {
    ((b0 as word) << 24) | ((b1 as word) << 16) | ((b2 as word) << 8) | (b3 as word)
  }

  function ByteOf(w: word, i: nat): byte
    requires i < 4
  {
    match i
    case 0 => ((w >> 24) & 0xFF) as byte
    case 1 => ((w >> 16) & 0xFF) as byte
    case 2 => ((w >> 8) & 0xFF) as byte
    case 3 => (w & 0xFF) as byte
  }

  lemma ShiftsRejoin(w: word)
    ensures FromBytes(((w >> 24) & 0xFF) as byte, ((w >> 16) & 0xFF) as byte, ((w >> 8) & 0xFF) as byte, (w & 0xFF) as byte) == w
  {
  }

  lemma WordFromItsBytes(w: word)
    ensures FromBytes(ByteOf(w, 0), ByteOf(w, 1), ByteOf(w, 2), ByteOf(w, 3)) == w
  {
    hide FromBytes;
    ShiftsRejoin(w);
  }

  function ScheduleStep(w2: word, w7: word, w15: word, w16: word): word {
    Add(Add(Add(SmallSigma1(w2), w7), SmallSigma0(w15)), w16)
  }

  function Schedule(block: Block, t: nat): word
    requires t < 64
  {
    if t < 16 then FromBytes(block[4 * t], block[4 * t + 1], block[4 * t + 2], block[4 * t + 3])
    else ScheduleStep(Schedule(block, t - 2), Schedule(block, t - 7), Schedule(block, t - 15), Schedule(block, t - 16))
  }

  datatype Vars = Vars(a: word, b: word, c: word, d: word, e: word, f: word, g: word, h: word)

  function T1(v: Vars, k: word, w: word): word { Add(Add(Add(Add(v.h, BigSigma1(v.e)), Ch(v.e, v.f, v.g)), k), w) }
  function T2(v: Vars): word { Add(BigSigma0(v.a), Maj(v.a, v.b, v.c)) }

  function Round(v: Vars, k: word, w: word): Vars {
    var t1 := T1(v, k, w);
    Vars(Add(t1, T2(v)), v.a, v.b, v.c, Add(v.d, t1), v.e, v.f, v.g)
  }

  function Rounds(h: Hash, block: Block, t: nat): Vars
    requires t <= 64
  {
    if t == 0 then Vars(h[0], h[1], h[2], h[3], h[4], h[5], h[6], h[7])
    else Round(Rounds(h, block, t - 1), RoundConstant(t - 1), Schedule(block, t - 1))
  }

  function AddVars(h: Hash, v: Vars): Hash {
    [Add(h[0], v.a), Add(h[1], v.b), Add(h[2], v.c), Add(h[3], v.d), Add(h[4], v.e), Add(h[5], v.f), Add(h[6], v.g), Add(h[7], v.h)]
  }

  function Compress(h: Hash, block: Block): Hash {
    AddVars(h, Rounds(h, block, 64))
  }

  function HashBlocks(blocks: seq<byte>): Hash
    requires |blocks| % 64 == 0
  {
    if blocks == [] then InitialHash()
    else Compress(HashBlocks(blocks[..|blocks| - 64]), blocks[|blocks| - 64..])
  }

  // ---- section 5.1.1: padding ----

  const TWO32 := 0x1_0000_0000
  const TWO64 := 0x1_0000_0000_0000_0000

  function Zeros(n: nat): (z: seq<byte>)
    ensures |z| == n
  {
    seq(n, _ => 0)
  }

  function AsByte(d: nat): byte
    requires d < 256
  {
    d as byte
  }

  function LowByte(n: nat): byte {
    AsByte(n % 256)
  }

  /** A 64-bit number, most significant byte first, from its two halves. */
  function LengthBytes(hi: nat, lo: nat): (s: seq<byte>)
    ensures |s| == 8
  {
    [LowByte(hi / 0x100_0000), LowByte(hi / 0x1_0000), LowByte(hi / 0x100), LowByte(hi),
     LowByte(lo / 0x100_0000), LowByte(lo / 0x1_0000), LowByte(lo / 0x100), LowByte(lo)]
  }

  /** Byte k of n, counted from its low end. */
  function ByteAt(n: nat, k: nat): byte {
    if k == 0 then LowByte(n) else ByteAt(n / 256, k - 1)
  }

  function PadZeros(n: nat): nat {
    (119 - n % 64) % 64
  }

  /** The length field holds the number of bits modulo 2^64. */
  function Pad(m: seq<byte>): seq<byte> {
    var bits := 8 * |m| % TWO64;
    m + [0x80] + Zeros(PadZeros(|m|)) + LengthBytes(bits / TWO32, bits % TWO32)
  }

  function BytesOf(h: Hash): (s: seq<byte>)
    ensures |s| == 32
  {
    seq(32, i requires 0 <= i < 32 => ByteOf(h[i / 4], i % 4))
  }

  function Sha256(m: seq<byte>): (d: seq<byte>)
    ensures |d| == 32
  {
    PaddedToBlocks(m);
    BytesOf(HashBlocks(Pad(m)))
  }

  lemma PadLength(m: seq<byte>)
    ensures |Pad(m)| == |m| + 9 + PadZeros(|m|)
  {
    hide LengthBytes, Zeros, PadZeros;
  }

  lemma PaddedToBlocks(m: seq<byte>)
    ensures |Pad(m)| % 64 == 0
  {
    hide Pad;
    PadLength(m);
  }

  lemma DropLowByte(a: nat, lo: nat)
    ensures (256 * a + lo) % 256 == lo % 256 && (256 * a + lo) / 256 == a + lo / 256
  {
  }

  lemma DivideTwice(n: nat)
    ensures n / 0x100 / 256 == n / 0x1_0000 && n / 0x1_0000 / 256 == n / 0x100_0000 && n / 0x100_0000 / 256 == n / TWO32
  {
  }

  lemma SmallDigits(n: nat)
    ensures ByteAt(n, 0) == LowByte(n) && ByteAt(n, 1) == LowByte(n / 0x100)
    ensures ByteAt(n, 2) == LowByte(n / 0x1_0000) && ByteAt(n, 3) == LowByte(n / 0x100_0000)
  {
    hide LowByte;
    DivideTwice(n);
    assert ByteAt(n / 256, 0) == LowByte(n / 0x100);
    assert ByteAt(n / 256, 1) == ByteAt(n / 256 / 256, 0);
    assert ByteAt(n / 256, 2) == ByteAt(n / 256 / 256, 1) == ByteAt(n / 256 / 256 / 256, 0);
  }

  lemma SkipFour(n: nat, k: nat)
    ensures ByteAt(n, 4 + k) == ByteAt(n / TWO32, k)
  {
    hide LowByte;
    DivideTwice(n);
    assert ByteAt(n, 4 + k) == ByteAt(n / 256, 3 + k) == ByteAt(n / 256 / 256, 2 + k)
        == ByteAt(n / 256 / 256 / 256, 1 + k) == ByteAt(n / 256 / 256 / 256 / 256, k);
  }

  /** 256^m more or less does not show in the first m bytes. */
  lemma {:induction false} SameLowBytes(high: nat, lo: nat, k: nat)
    ensures k == 0 ==> ByteAt(256 * high + lo, 0) == ByteAt(lo, 0)
    ensures k == 1 ==> ByteAt(0x1_0000 * high + lo, 1) == ByteAt(lo, 1)
    ensures k == 2 ==> ByteAt(0x100_0000 * high + lo, 2) == ByteAt(lo, 2)
    ensures k == 3 ==> ByteAt(TWO32 * high + lo, 3) == ByteAt(lo, 3)
  {
    hide AsByte;
    if k == 0 {
      DropLowByte(high, lo);
    } else if k == 1 {
      DropLowByte(256 * high, lo);
      SameLowBytes(high, lo / 256, 0);
    } else if k == 2 {
      DropLowByte(0x1_0000 * high, lo);
      SameLowBytes(high, lo / 256, 1);
    } else if k == 3 {
      DropLowByte(0x100_0000 * high, lo);
      SameLowBytes(high, lo / 256, 2);
    }
  }

  /** The eight bytes are the base-256 digits of the number, the last one first. */
  lemma LengthDigits(n: nat, k: nat)
    requires k < 8
    ensures LengthBytes(n / TWO32, n % TWO32)[7 - k] == ByteAt(n, k)
  {
    hide LowByte, ByteAt;
    var hi, lo := n / TWO32, n % TWO32;
    if k < 4 {
      SmallDigits(lo);
      assert n == 256 * (0x100_0000 * hi) + lo == 0x1_0000 * (0x1_0000 * hi) + lo == 0x100_0000 * (256 * hi) + lo;
      SameLowBytes(if k == 0 then 0x100_0000 * hi else if k == 1 then 0x1_0000 * hi else if k == 2 then 256 * hi else hi, lo, k);
    } else {
      SmallDigits(hi);
      SkipFour(n, k - 4);
    }
  }

  lemma PadIsShortest(m: seq<byte>, n: nat)
    requires |m| + 9 <= n && n % 64 == 0
    ensures |Pad(m)| <= n
  {
    hide Pad;
    PadLength(m);
  }

  lemma PadParts(m: seq<byte>)
    ensures var bits := 8 * |m| % TWO64;
      Pad(m) == m + [0x80] + Zeros(PadZeros(|m|)) + LengthBytes(bits / TWO32, bits % TWO32)
  {
    hide LengthBytes, PadZeros, Zeros;
  }

  /** Section 5.1.1: p is the message, a one bit, zero bits, and the message's bit length in
      64 bits, most significant byte first; it fills whole blocks and no shorter string does. */
  ghost predicate FipsPadding(m: seq<byte>, p: seq<byte>) {
    var n := |p|;
    && n % 64 == 0 && n >= |m| + 9
    && (forall other :: other % 64 == 0 && other >= |m| + 9 ==> n <= other)
    && p[..|m|] == m && p[|m|] == 0x80
    && (forall i :: |m| < i < n - 8 ==> p[i] == 0)
    && (forall k :: 0 <= k < 8 ==> p[n - 1 - k] == ByteAt(8 * |m|, k))
  }

  lemma PadIsFips(m: seq<byte>)
    requires 8 * |m| < TWO64
    ensures FipsPadding(m, Pad(m))
  {
    hide LengthBytes, PadZeros, Pad, ByteAt;
    var bits := 8 * |m|;
    var hi, lo := bits / TWO32, bits % TWO32;
    assert bits % TWO64 == bits;
    PadLength(m);
    PaddedToBlocks(m);
    PadParts(m);
    forall n | n % 64 == 0 && n >= |m| + 9
      ensures |Pad(m)| <= n
    {
      PadIsShortest(m, n);
    }
    forall k | 0 <= k < 8
      ensures Pad(m)[|Pad(m)| - 1 - k] == ByteAt(bits, k)
    {
      LengthDigits(bits, k);
      assert Pad(m)[|Pad(m)| - 1 - k] == LengthBytes(hi, lo)[7 - k];
    }
  }

  // ---- RFC 2104, section 2 ----

  function Xor(x: byte, y: byte): byte { x ^ y }

  function XorAll(s: seq<byte>, y: byte): (r: seq<byte>)
    ensures |r| == |s|
  {
    seq(|s|, i requires 0 <= i < |s| => Xor(s[i], y))
  }

  /** B = 64 bytes: a key longer than a block is hashed first. */
  function KeyBlock(key: seq<byte>): (k: seq<byte>)
    ensures |k| == 64
  {
    var short := if |key| > 64 then Sha256(key) else key;
    short + Zeros(64 - |short|)
  }

  function HmacOfBlock(block: seq<byte>, text: seq<byte>): (d: seq<byte>)
    ensures |d| == 32
  {
    Sha256(XorAll(block, 0x5C) + Sha256(XorAll(block, 0x36) + text))
  }

  function Hmac(key: seq<byte>, text: seq<byte>): (d: seq<byte>)
    ensures |d| == 32
  {
    HmacOfBlock(KeyBlock(key), text)
  }
}
