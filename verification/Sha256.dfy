/** The streaming SHA-256 and the HMAC of sha256.c, proved against Fips180. */
module Sha256Code {
  import opened Fips180

  /** DBL_INT_ADD: one 64-bit counter kept in two 32-bit words. */
  function DblIntAdd(lo: nat, hi: nat, c: nat): (r: (nat, nat))
    requires lo < TWO32 && hi < TWO32 && c < TWO32
    ensures r.0 < TWO32 && r.1 < TWO32
    ensures r.1 * TWO32 + r.0 == (hi * TWO32 + lo + c) % TWO64
  {
    var hi' := if lo > TWO32 - 1 - c then (hi + 1) % TWO32 else hi;
    ((lo + c) % TWO32, hi')
  }

  lemma AddModulo(x: nat, c: nat, y: nat)
    requires y == x % TWO64
    ensures (y + c) % TWO64 == (x + c) % TWO64
  {
  }

  function Whole(n: nat): (w: nat)
    ensures w <= n && w % 64 == 0
  {
    n / 64 * 64
  }

  lemma TwoWords(hi: nat, lo: nat)
    requires lo < TWO32
    ensures (hi * TWO32 + lo) / TWO32 == hi && (hi * TWO32 + lo) % TWO32 == lo
  {
  }

  /** The counter of the whole blocks and the bits of the rest make the length. */
  lemma Counted(n: nat, y: nat, hi: nat, lo: nat)
    requires lo < TWO32 && y == 8 * Whole(n) % TWO64 && hi * TWO32 + lo == (y + n % 64 * 8) % TWO64
    ensures hi == 8 * n % TWO64 / TWO32 && lo == 8 * n % TWO64 % TWO32
  {
    AddModulo(8 * Whole(n), n % 64 * 8, y);
    assert 8 * Whole(n) + n % 64 * 8 == 8 * n;
    TwoWords(hi, lo);
  }

  // ---- padding, as the two cases of sha256_final see it ----

  function Length(m: seq<byte>): (s: seq<byte>)
    ensures |s| == 8
  {
    var bits := 8 * |m| % TWO64;
    LengthBytes(bits / TWO32, bits % TWO32)
  }

  lemma ZerosNeeded(full: nat, tail: nat)
    requires full % 64 == 0 && tail < 64
    ensures PadZeros(full + tail) == if tail < 56 then 55 - tail else 63 - tail + 56
  {
  }

  lemma PadShort(full: seq<byte>, tail: seq<byte>)
    requires |full| % 64 == 0 && |tail| < 56
    ensures Pad(full + tail) == full + (tail + [0x80] + Zeros(55 - |tail|) + Length(full + tail))
  {
    hide LengthBytes;
    var m := full + tail;
    PadParts(m);
    ZerosNeeded(|full|, |tail|);
    hide *;
    assert m + [0x80] == full + (tail + [0x80]);
  }

  lemma PadLong(full: seq<byte>, tail: seq<byte>)
    requires |full| % 64 == 0 && 56 <= |tail| < 64
    ensures Pad(full + tail) == full + (tail + [0x80] + Zeros(63 - |tail|)) + (Zeros(56) + Length(full + tail))
  {
    hide LengthBytes;
    var m := full + tail;
    PadParts(m);
    ZerosNeeded(|full|, |tail|);
    assert Zeros(63 - |tail| + 56) == Zeros(63 - |tail|) + Zeros(56);
    hide PadZeros, Pad, Zeros;
  }

  lemma AllZeros(s: seq<byte>)
    requires forall i :: 0 <= i < |s| ==> s[i] == 0
    ensures s == Zeros(|s|)
  {
  }

  lemma HashOneMore(blocks: seq<byte>, block: seq<byte>)
    requires |blocks| % 64 == 0 && |block| == 64
    ensures |blocks + block| % 64 == 0
    ensures HashBlocks(blocks + block) == Compress(HashBlocks(blocks), block)
  {
    hide Compress;
    assert (blocks + block)[..|blocks|] == blocks && (blocks + block)[|blocks|..] == block;
  }

  lemma ScheduleOfData(block: Block, t: nat)
    requires t < 16
    ensures Schedule(block, t) == FromBytes(block[4 * t], block[4 * t + 1], block[4 * t + 2], block[4 * t + 3])
  {
    hide FromBytes, ScheduleStep;
  }

  lemma ScheduleRecurrence(block: Block, t: nat)
    requires 16 <= t < 64
    ensures Schedule(block, t)
         == Add(Add(Add(SmallSigma1(Schedule(block, t - 2)), Schedule(block, t - 7)), SmallSigma0(Schedule(block, t - 15))), Schedule(block, t - 16))
  {
    hide FromBytes, SmallSigma0, SmallSigma1, Add;
  }

  lemma Grown(m: seq<byte>, b: byte, d: nat)
    requires d == |m| % 64
    ensures Whole(|m|) % 64 == 0 && Whole(|m|) + d == |m|
    ensures d == 63 ==> Whole(|m + [b]|) == |m + [b]| && |m + [b]| % 64 == 0
    ensures d < 63 ==> Whole(|m + [b]|) == Whole(|m|) && |m + [b]| % 64 == d + 1
  {
  }

  class Sha256Ctx {
    const data: array<byte>
    var datalen: nat
    var bitlen0: nat
    var bitlen1: nat
    const state: array<word>

    /** Everything passed to Update so far. */
    ghost var message: seq<byte>

    ghost predicate Shape()
      reads this
    {
      data.Length == 64 && state.Length == 8 && datalen < 64 && bitlen0 < TWO32 && bitlen1 < TWO32
    }

    /** The context between calls: complete blocks hashed and counted, the rest buffered. */
    ghost predicate Valid()
      reads this, data, state
    {
      && Shape()
      && datalen == |message| % 64
      && bitlen1 * TWO32 + bitlen0 == 8 * Whole(|message|) % TWO64
      && data[..datalen] == message[Whole(|message|)..]
      && state[..] == HashBlocks(message[..Whole(|message|)])
    }

    /** `sha256_init`. */
    constructor ()
      ensures Valid() && message == [] && fresh(data) && fresh(state)
    {
      data := new byte[64](_ => 0);
      datalen := 0;
      bitlen0 := 0;
      bitlen1 := 0;
      state := new word[8](i requires 0 <= i < 8 => InitialHash()[i]);
      message := [];
      new;
      assert state[..] == InitialHash();
      hide InitialHash;
    }

    /** The message schedule, an array of 64 words filled in two loops. */
    method Expand() returns (m: array<word>)
      requires data.Length == 64
      ensures fresh(m) && m.Length == 64
      ensures forall t :: 0 <= t < 64 ==> m[t] == Schedule(data[..], t)
    {
      hide FromBytes, SmallSigma0, SmallSigma1, Add, Schedule;
      m := new word[64](_ => 0);
      var j := 0;
      for i := 0 to 16
        invariant j == 4 * i
        invariant forall t :: 0 <= t < i ==> m[t] == Schedule(data[..], t)
      {
        ScheduleOfData(data[..], i);
        m[i] := FromBytes(data[j], data[j + 1], data[j + 2], data[j + 3]);
        j := j + 4;
      }
      for i := 16 to 64
        invariant forall t :: 0 <= t < i ==> m[t] == Schedule(data[..], t)
      {
        ScheduleRecurrence(data[..], i);
        m[i] := Add(Add(Add(SmallSigma1(m[i - 2]), m[i - 7]), SmallSigma0(m[i - 15])), m[i - 16]);
      }
    }

    /** The 64 rounds on eight rotating variables. */
    method RunRounds(m: array<word>) returns (a: word, b: word, c: word, d: word, e: word, f: word, g: word, h: word)
      requires data.Length == 64 && state.Length == 8 && m.Length == 64
      requires forall t :: 0 <= t < 64 ==> m[t] == Schedule(data[..], t)
      ensures Vars(a, b, c, d, e, f, g, h) == Rounds(state[..], data[..], 64)
    {
      hide Schedule, RoundConstant, BigSigma0, BigSigma1, Ch, Maj, Add;
      a, b, c, d := state[0], state[1], state[2], state[3];
      e, f, g, h := state[4], state[5], state[6], state[7];
      for i := 0 to 64
        invariant Vars(a, b, c, d, e, f, g, h) == Rounds(state[..], data[..], i)
      {
        var t1 := Add(Add(Add(Add(h, BigSigma1(e)), Ch(e, f, g)), RoundConstant(i)), m[i]);
        var t2 := Add(BigSigma0(a), Maj(a, b, c));
        h := g;
        g := f;
        f := e;
        e := Add(d, t1);
        d := c;
        c := b;
        b := a;
        a := Add(t1, t2);
      }
    }

    /** The eight additions at the end of `sha256_transform`. */
    method Accumulate(v: Vars)
      requires state.Length == 8
      modifies state
      ensures state[..] == AddVars(old(state[..]), v)
    {
      hide Add;
      state[0], state[1], state[2], state[3], state[4], state[5], state[6], state[7] :=
        Add(state[0], v.a), Add(state[1], v.b), Add(state[2], v.c), Add(state[3], v.d),
        Add(state[4], v.e), Add(state[5], v.f), Add(state[6], v.g), Add(state[7], v.h);
    }

    /** `sha256_transform`. */
    method Transform()
      requires data.Length == 64 && state.Length == 8
      modifies state
      ensures state[..] == Compress(old(state[..]), data[..])
    {
      hide Schedule, Rounds, AddVars;
      var m := Expand();
      var a, b, c, d, e, f, g, h := RunRounds(m);
      Accumulate(Vars(a, b, c, d, e, f, g, h));
    }

    /** The buffer is full: hash it, count its 512 bits, start over. */
    method TakeBlock(ghost before: seq<byte>)
      requires data.Length == 64 && state.Length == 8 && datalen == 64 && bitlen0 < TWO32 && bitlen1 < TWO32
      requires |before| % 64 == 0 && state[..] == HashBlocks(before) && bitlen1 * TWO32 + bitlen0 == 8 * |before| % TWO64
      modifies this`datalen, this`bitlen0, this`bitlen1, state
      ensures datalen == 0 && bitlen0 < TWO32 && bitlen1 < TWO32
      ensures |before + data[..]| % 64 == 0 && state[..] == HashBlocks(before + data[..])
      ensures bitlen1 * TWO32 + bitlen0 == 8 * |before + data[..]| % TWO64
    {
      hide Compress, DblIntAdd, HashBlocks;
      HashOneMore(before, data[..]);
      Transform();
      AddModulo(8 * |before|, 512, bitlen1 * TWO32 + bitlen0);
      assert 512 < TWO32;
      var sum := DblIntAdd(bitlen0, bitlen1, 512);
      bitlen0, bitlen1 := sum.0, sum.1;
      datalen := 0;
    }

    /** One turn of the loop in `sha256_update`. */
    method TakeByte(b: byte)
      requires Valid()
      modifies this, data, state
      ensures Valid() && message == old(message) + [b]
    {
      hide HashBlocks, Whole;
      Grown(message, b, datalen);
      ghost var m, start := message + [b], Whole(|message|);
      assert m[..start] == message[..start] && m[start..] == message[start..] + [b];
      data[datalen] := b;
      datalen := datalen + 1;
      assert data[..datalen] == m[start..];
      if datalen == 64 {
        assert data[..] == data[..64];
        TakeBlock(message[..start]);
        assert m[..start] + m[start..] == m == m[..|m|] && m[|m|..] == [];
      }
      message := m;
    }

    /** `sha256_update`. */
    method Update(d: array<byte>, len: nat)
      requires Valid() && d != data && len <= d.Length && len < TWO32
      modifies this, data, state
      ensures Valid() && message == old(message) + d[..len]
    {
      hide Valid;
      assert d[..0] == [];
      for i := 0 to len
        invariant Valid() && message == old(message) + d[..i]
      {
        assert d[..i + 1] == d[..i] + [d[i]];
        TakeByte(d[i]);
      }
    }

    /** The 0x80 byte and the zeros up to `limit`. */
    method Fill(limit: nat)
      requires Shape() && datalen < limit <= 64
      modifies data
      ensures data[..limit] == old(data[..datalen]) + [0x80] + Zeros(limit - 1 - datalen)
    {
      var i := datalen;
      data[i] := 0x80;
      i := i + 1;
      while i < limit
        invariant datalen < i <= limit
        invariant data[..i] == old(data[..datalen]) + [0x80] + Zeros(i - 1 - datalen)
      {
        data[i] := 0;
        i := i + 1;
        assert Zeros(i - 1 - datalen) == Zeros(i - 2 - datalen) + [0];
      }
    }

    /** The buffer is hashed and starts again with zeros. */
    method Spill(ghost full: seq<byte>, ghost block: seq<byte>)
      requires data.Length == 64 && state.Length == 8 && data[..] == block
      requires |full| % 64 == 0 && state[..] == HashBlocks(full)
      modifies data, state
      ensures |full + block| % 64 == 0 && state[..] == HashBlocks(full + block) && data[..56] == Zeros(56)
    {
      hide *;
      HashOneMore(full, block);
      Transform();
      forall i | 0 <= i < 56 {
        data[i] := 0;
      }
      AllZeros(data[..56]);
    }

    /** The first half of `sha256_final`: either there is room for the length in this block, or
        this block is hashed and the next one starts with zeros. */
    method PadBuffer() returns (ghost prefix: seq<byte>)
      requires Valid()
      modifies data, state
      ensures |prefix| % 64 == 0 && state[..] == HashBlocks(prefix)
      ensures Pad(message) == prefix + (data[..56] + Length(message))
    {
      hide Compress, HashBlocks, Pad, Length, Zeros, LengthBytes;
      ghost var start := Whole(|message|);
      ghost var full, tail := message[..start], message[start..];
      assert message == full + tail;
      if datalen < 56 {
        Fill(56);
        PadShort(full, tail);
        prefix := full;
      } else {
        Fill(64);
        PadLong(full, tail);
        assert data[..] == data[..64];
        prefix := full + data[..];
        Spill(full, data[..]);
      }
    }

    /** The length field, written from the last byte back. */
    method StoreLength()
      requires Shape()
      modifies data
      ensures data[..] == old(data[..56]) + LengthBytes(bitlen1, bitlen0)
    {
      hide LowByte;
      data[63], data[62], data[61], data[60], data[59], data[58], data[57], data[56] :=
        LowByte(bitlen0), LowByte(bitlen0 / 0x100), LowByte(bitlen0 / 0x1_0000), LowByte(bitlen0 / 0x100_0000),
        LowByte(bitlen1), LowByte(bitlen1 / 0x100), LowByte(bitlen1 / 0x1_0000), LowByte(bitlen1 / 0x100_0000);
      assert data[..56] == old(data[..56]);
      assert data[56..] == LengthBytes(bitlen1, bitlen0);
      assert data[..] == data[..56] + data[56..];
    }

    /** Byte i of every state word. */
    method OutputColumn(hash: array<byte>, i: nat)
      requires state.Length == 8 && hash.Length >= 32 && i < 4
      modifies hash
      ensures forall n :: 0 <= n < 32 && n % 4 == i ==> hash[n] == ByteOf(state[n / 4], i)
      ensures forall n :: 0 <= n < hash.Length && (n >= 32 || n % 4 != i) ==> hash[n] == old(hash[n])
    {
      hide ByteOf;
      for j := 0 to 8
        invariant forall n :: 0 <= n < 4 * j && n % 4 == i ==> hash[n] == ByteOf(state[n / 4], i)
        invariant forall n :: 0 <= n < hash.Length && (n >= 32 || n % 4 != i) ==> hash[n] == old(hash[n])
      {
        hash[4 * j + i] := ByteOf(state[j], i);
      }
    }

    /** The state, most significant byte first. */
    method Output(hash: array<byte>)
      requires state.Length == 8 && hash.Length >= 32
      modifies hash
      ensures hash[..32] == BytesOf(state[..]) && hash[32..] == old(hash[32..])
    {
      hide ByteOf;
      for i := 0 to 4
        invariant forall n :: 0 <= n < 32 && n % 4 < i ==> hash[n] == ByteOf(state[n / 4], n % 4)
        invariant hash[32..] == old(hash[32..])
      {
        OutputColumn(hash, i);
      }
    }

    /** The bits of the last, partial block are added to the two counters. */
    method CountRest(ghost m: seq<byte>)
      requires Shape() && datalen == |m| % 64 && bitlen1 * TWO32 + bitlen0 == 8 * Whole(|m|) % TWO64
      modifies this`bitlen0, this`bitlen1
      ensures Shape() && LengthBytes(bitlen1, bitlen0) == Length(m)
    {
      hide DblIntAdd, LengthBytes, Whole;
      var sum := DblIntAdd(bitlen0, bitlen1, datalen * 8);
      Counted(|m|, bitlen1 * TWO32 + bitlen0, sum.1, sum.0);
      bitlen0, bitlen1 := sum.0, sum.1;
    }

    /** `sha256_final`. */
    method Final(hash: array<byte>)
      requires Valid() && hash != data && hash.Length >= 32
      modifies this, data, state, hash
      ensures hash[..32] == Sha256(old(message)) && hash[32..] == old(hash[32..])
    {
      hide Compress, HashBlocks, Pad, LengthBytes, BytesOf, DblIntAdd, Zeros, PadZeros, LowByte;
      ghost var m := message;
      ghost var prefix := PadBuffer();
      CountRest(m);
      StoreLength();
      ghost var last := data[..];
      HashOneMore(prefix, last);
      Transform();
      PaddedToBlocks(m);
      assert Pad(m) == prefix + last;
      Output(hash);
    }
  }

  /** Fragment n bytes long: its size_t length is cut to the uint32_t that `sha256_update` takes. */
  ghost function Fragment(a: array<byte>, n: nat): seq<byte>
    requires n <= a.Length
    reads a
  {
    a[..n % TWO32]
  }

  ghost function Fragments(addr: seq<array<byte>>, len: seq<nat>): (f: seq<seq<byte>>)
    requires |addr| == |len| && forall i :: 0 <= i < |addr| ==> len[i] <= addr[i].Length
    reads addr
    ensures |f| == |addr|
  {
    seq(|addr|, i requires 0 <= i < |addr| reads addr => Fragment(addr[i], len[i]))
  }

  ghost function Concat(f: seq<seq<byte>>): seq<byte> {
    if f == [] then [] else Concat(f[..|f| - 1]) + f[|f| - 1]
  }

  /** The loop of `sha256_vector`. */
  method UpdateAll(ctx: Sha256Ctx, addr: seq<array<byte>>, len: seq<nat>, ghost f: seq<seq<byte>>)
    requires |f| == |addr| == |len| && forall i :: 0 <= i < |addr| ==> len[i] <= addr[i].Length && addr[i] != ctx.data
    requires forall i :: 0 <= i < |addr| ==> f[i] == addr[i][..len[i] % TWO32]
    requires ctx.Valid() && ctx.message == []
    modifies ctx, ctx.data, ctx.state
    ensures ctx.Valid() && ctx.message == Concat(f)
  {
    hide Sha256Ctx.Valid;
    assert f[..0] == [] && Concat([]) == [];
    for i := 0 to |addr|
      invariant ctx.Valid() && ctx.message == Concat(f[..i])
      invariant forall i :: 0 <= i < |addr| ==> f[i] == addr[i][..len[i] % TWO32]
    {
      assert Concat(f[..i + 1]) == Concat(f[..i]) + f[i] by {
        assert f[..i + 1][..i] == f[..i];
      }
      ctx.Update(addr[i], len[i] % TWO32);
    }
    assert f[..|addr|] == f;
  }

  /** `sha256_vector`; mac may be one of the fragments. */
  method Vector(addr: seq<array<byte>>, len: seq<nat>, mac: array<byte>)
    requires |addr| == |len| && forall i :: 0 <= i < |addr| ==> len[i] <= addr[i].Length
    requires mac.Length >= 32
    modifies mac
    ensures mac[..32] == Sha256(Concat(old(Fragments(addr, len)))) && mac[32..] == old(mac[32..])
  {
    hide Concat, Sha256, Sha256Ctx.Valid;
    ghost var f := Fragments(addr, len);
    var ctx := new Sha256Ctx();
    assert forall i :: 0 <= i < |addr| ==> f[i] == addr[i][..len[i] % TWO32];
    UpdateAll(ctx, addr, len, f);
    ctx.Final(mac);
  }

  /** `sha256_32_vector`: the first state word of the hash. */
  method Vector32(addr: seq<array<byte>>, len: seq<nat>) returns (nid: word)
    requires |addr| == |len| && forall i :: 0 <= i < |addr| ==> len[i] <= addr[i].Length
    ensures |Pad(Concat(Fragments(addr, len)))| % 64 == 0 && nid == HashBlocks(Pad(Concat(Fragments(addr, len))))[0]
  {
    hide ByteOf, FromBytes, HashBlocks, Pad;
    ghost var m := Concat(Fragments(addr, len));
    PaddedToBlocks(m);
    var hash := new byte[32](_ => 0);
    Vector(addr, len, hash);
    ghost var h := HashBlocks(Pad(m));
    assert hash[..32][0] == ByteOf(h[0], 0) && hash[..32][1] == ByteOf(h[0], 1)
        && hash[..32][2] == ByteOf(h[0], 2) && hash[..32][3] == ByteOf(h[0], 3);
    WordFromItsBytes(h[0]);
    nid := FromBytes(hash[0], hash[1], hash[2], hash[3]);
  }

  // ---- HMAC ----

  lemma ConcatFirst(a: seq<byte>, f: seq<seq<byte>>)
    ensures Concat([a] + f) == a + Concat(f)
  {
    if f == [] {
      assert ([a] + f)[..0] == [];
    } else {
      ConcatFirst(a, f[..|f| - 1]);
      assert ([a] + f)[..|f|] == [a] + f[..|f| - 1];
    }
  }

  lemma PadsCompose(x: byte)
    ensures Xor(Xor(x, 0x36), 0x6A) == Xor(x, 0x5C)
  {
  }

  /** XORing the inner pad with 0x6A gives the outer pad, because 0x36 ^ 0x6A == 0x5C. */
  lemma OuterFromInner(k: seq<byte>)
    ensures XorAll(XorAll(k, 0x36), 0x6A) == XorAll(k, 0x5C)
  {
    hide Xor;
    forall i | 0 <= i < |k|
      ensures Xor(Xor(k[i], 0x36), 0x6A) == Xor(k[i], 0x5C)
    {
      PadsCompose(k[i]);
    }
  }

  /** The block the code derives from a key: a long key goes through `sha256_vector`, which
      sees its length modulo 2^32. */
  function CodeKeyBlock(key: seq<byte>): (k: seq<byte>)
    ensures |k| == 64
    ensures |key| < TWO32 ==> k == KeyBlock(key)
  {
    hide Sha256;
    assert |key| < TWO32 ==> key[..|key| % TWO32] == key;
    var short := if |key| > 64 then Sha256(key[..|key| % TWO32]) else key;
    short + Zeros(64 - |short|)
  }

  method XorInPlace(a: array<byte>, y: byte)
    modifies a
    ensures a[..] == XorAll(old(a[..]), y)
  {
    hide Xor;
    for i := 0 to a.Length
      invariant forall j :: 0 <= j < i ==> a[j] == Xor(old(a[j]), y)
      invariant forall j :: i <= j < a.Length ==> a[j] == old(a[j])
    {
      a[i] := Xor(a[i], y);
    }
  }

  /** The key, hashed first when it is longer than a block, at the start of a zeroed block. */
  method LoadKey(key: array<byte>, keyLen: nat) returns (kPad: array<byte>)
    requires keyLen <= key.Length
    ensures fresh(kPad) && kPad[..] == CodeKeyBlock(key[..keyLen])
  {
    hide Sha256;
    ghost var block := CodeKeyBlock(key[..keyLen]);
    var k, n := key, keyLen;
    if keyLen > 64 {
      var tk := new byte[32](_ => 0);
      ghost var hashed := key[..keyLen % TWO32];
      assert Concat(Fragments([key], [keyLen])) == hashed by {
        assert Fragments([key], [keyLen]) == [hashed] + [];
        ConcatFirst(hashed, []);
      }
      Vector([key], [keyLen], tk);
      assert key[..keyLen][..keyLen % TWO32] == hashed;
      k, n := tk, 32;
    }
    ghost var short := k[..n];
    assert block == short + Zeros(64 - n);
    kPad := new byte[64](_ => 0);
    forall i | 0 <= i < n {
      kPad[i] := k[i];
    }
    assert kPad[..] == short + Zeros(64 - n);
    assert key[..keyLen] == old(key[..keyLen]);
  }

  /** `hmac_sha256_vector`; mac receives the inner hash and is then hashed into itself. */
  method HmacVector(key: array<byte>, keyLen: nat, addr: seq<array<byte>>, len: seq<nat>, mac: array<byte>)
    requires |addr| == |len| && forall i :: 0 <= i < |addr| ==> len[i] <= addr[i].Length
    requires keyLen <= key.Length && mac.Length >= 32
    modifies mac
    ensures |addr| > 5 ==> mac[..] == old(mac[..])
    ensures |addr| <= 5 ==>
      mac[..32] == HmacOfBlock(old(CodeKeyBlock(key[..keyLen])), Concat(old(Fragments(addr, len))))
    ensures |addr| <= 5 && keyLen < TWO32 ==>
      mac[..32] == Hmac(old(key[..keyLen]), Concat(old(Fragments(addr, len))))
    ensures mac[32..] == old(mac[32..])
  {
    hide CodeKeyBlock, KeyBlock, Sha256, XorAll;
    if |addr| > 5 {
      return;
    }
    ghost var k, f := CodeKeyBlock(key[..keyLen]), Fragments(addr, len);
    var kPad := LoadKey(key, keyLen);
    XorInPlace(kPad, 0x36);
    HashAfterPad(kPad, addr, len, mac);
    XorInPlace(kPad, 0x6A);
    OuterFromInner(k);
    ghost var inner := mac[..32];
    assert Concat(Fragments([mac], [32])) == inner by {
      assert Fragments([mac], [32]) == [inner] + [];
      ConcatFirst(inner, []);
    }
    HashAfterPad(kPad, [mac], [32], mac);
    assert mac[..32] == Sha256(XorAll(k, 0x5C) + inner);
  }

  /** `sha256_vector` over the pad and the fragments behind it. */
  method HashAfterPad(kPad: array<byte>, addr: seq<array<byte>>, len: seq<nat>, mac: array<byte>)
    requires |addr| == |len| && forall i :: 0 <= i < |addr| ==> len[i] <= addr[i].Length
    requires kPad.Length == 64 && mac.Length >= 32
    modifies mac
    ensures mac[..32] == Sha256(old(kPad[..]) + Concat(old(Fragments(addr, len)))) && mac[32..] == old(mac[32..])
  {
    hide Sha256;
    ghost var f := Fragments(addr, len);
    var all, sizes := [kPad] + addr, [64] + len;
    assert forall i :: 1 <= i < |all| ==> all[i] == addr[i - 1] && sizes[i] == len[i - 1];
    ghost var g := Fragments(all, sizes);
    assert g == [kPad[..]] + f by {
      assert g[0] == kPad[..64] == kPad[..];
      forall i | 1 <= i < |all|
        ensures g[i] == f[i - 1]
      {
        assert g[i] == Fragment(all[i], sizes[i]) == Fragment(addr[i - 1], len[i - 1]) == f[i - 1];
      }
    }
    ConcatFirst(kPad[..], f);
    Vector(all, sizes, mac);
  }
}
