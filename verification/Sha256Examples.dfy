/** Known answers and laws that say what the functions of Fips180 compute: the SHA-256 example "abc"
    of FIPS 180-4, round by round, the chaining of blocks, and HMAC byte by byte. */
module Sha256Examples {
  import opened Fips180

  // ---- evaluation of words ----

  // The rotations and shifts with their amounts written out, which the solver computes on numbers.

  function R2(x: word): word { (x >> 2) | (x << 30) }
  function R6(x: word): word { (x >> 6) | (x << 26) }
  function R7(x: word): word { (x >> 7) | (x << 25) }
  function R11(x: word): word { (x >> 11) | (x << 21) }
  function R13(x: word): word { (x >> 13) | (x << 19) }
  function R17(x: word): word { (x >> 17) | (x << 15) }
  function R18(x: word): word { (x >> 18) | (x << 14) }
  function R19(x: word): word { (x >> 19) | (x << 13) }
  function R22(x: word): word { (x >> 22) | (x << 10) }
  function R25(x: word): word { (x >> 25) | (x << 7) }
  function S3(x: word): word { x >> 3 }
  function S10(x: word): word { x >> 10 }
  function XorOf(a: word, b: word, c: word): word { a ^ b ^ c }

  lemma Rotations(x: word)
    ensures RotR(x, 2) == R2(x) && RotR(x, 6) == R6(x) && RotR(x, 7) == R7(x) && RotR(x, 11) == R11(x) && RotR(x, 13) == R13(x)
    ensures RotR(x, 17) == R17(x) && RotR(x, 18) == R18(x) && RotR(x, 19) == R19(x) && RotR(x, 22) == R22(x) && RotR(x, 25) == R25(x)
  {
  }

  lemma BigSigmas(x: word)
    ensures BigSigma0(x) == XorOf(R2(x), R13(x), R22(x)) && BigSigma1(x) == XorOf(R6(x), R11(x), R25(x))
  {
    Rotations(x);
    hide RotR, R2, R13, R22, R6, R11, R25;
  }

  lemma SmallSigmas(x: word)
    ensures SmallSigma0(x) == XorOf(R7(x), R18(x), S3(x)) && SmallSigma1(x) == XorOf(R17(x), R19(x), S10(x))
  {
    Rotations(x);
    hide RotR, R7, R18, R17, R19;
  }

  function EvalRound(v: Vars, k: word, w: word): Vars {
    var t1 := Add(Add(Add(Add(v.h, XorOf(R6(v.e), R11(v.e), R25(v.e))), Ch(v.e, v.f, v.g)), k), w);
    var t2 := Add(XorOf(R2(v.a), R13(v.a), R22(v.a)), Maj(v.a, v.b, v.c));
    Vars(Add(t1, t2), v.a, v.b, v.c, Add(v.d, t1), v.e, v.f, v.g)
  }

  lemma EvalRoundIs(v: Vars, k: word, w: word)
    ensures EvalRound(v, k, w) == Round(v, k, w)
  {
    BigSigmas(v.e);
    BigSigmas(v.a);
    hide BigSigma0, BigSigma1, Ch, Maj, Add, XorOf, R2, R13, R22, R6, R11, R25;
  }

  function EvalSchedule(w2: word, w7: word, w15: word, w16: word): word {
    Add(Add(Add(XorOf(R17(w2), R19(w2), S10(w2)), w7), XorOf(R7(w15), R18(w15), S3(w15))), w16)
  }

  lemma EvalScheduleIs(w2: word, w7: word, w15: word, w16: word)
    ensures EvalSchedule(w2, w7, w15, w16) == ScheduleStep(w2, w7, w15, w16)
  {
    SmallSigmas(w2);
    SmallSigmas(w15);
    hide SmallSigma0, SmallSigma1, Add, XorOf, R7, R18, R17, R19, S3, S10;
  }

  function AsWord(n: nat): word
    requires n < TWO32
  {
    n as word
  }

  lemma ConstantIs(t: nat, n: nat)
    requires t < 64 && K[t] == n < TWO32
    ensures RoundConstant(t) == AsWord(n)
  {
    hide K;
  }

  lemma InitialIs(i: nat, n: nat)
    requires i < 8 && H0[i] == n < TWO32
    ensures InitialHash()[i] == AsWord(n)
  {
    hide H0;
  }

  lemma InitialWords()
    ensures InitialHash() == [0x6a09e667, 0xbb67ae85, 0x3c6ef372, 0xa54ff53a, 0x510e527f, 0x9b05688c, 0x1f83d9ab, 0x5be0cd19]
  {
    hide InitialHash;
    InitialIs(0, 0x6a09e667);
    InitialIs(1, 0xbb67ae85);
    InitialIs(2, 0x3c6ef372);
    InitialIs(3, 0xa54ff53a);
    InitialIs(4, 0x510e527f);
    InitialIs(5, 0x9b05688c);
    InitialIs(6, 0x1f83d9ab);
    InitialIs(7, 0x5be0cd19);
  }

  /** One more round: the constant n, the word w, and the two new variables. */
  lemma NextRound(m: Block, t: nat, v: Vars, n: nat, w: word, a: word, e: word) returns (v': Vars)
    requires t < 64 && Rounds(InitialHash(), m, t) == v && K[t] == n < TWO32 && Schedule(m, t) == w
    requires EvalRound(v, AsWord(n), w) == Vars(a, v.a, v.b, v.c, e, v.e, v.f, v.g)
    ensures v' == Vars(a, v.a, v.b, v.c, e, v.e, v.f, v.g) && Rounds(InitialHash(), m, t + 1) == v'
  {
    ConstantIs(t, n);
    EvalRoundIs(v, AsWord(n), w);
    hide Round, EvalRound, RoundConstant, Schedule, InitialHash, K, AsWord;
    v' := Vars(a, v.a, v.b, v.c, e, v.e, v.f, v.g);
  }

  lemma NextWord(m: Block, t: nat, w2: word, w7: word, w15: word, w16: word, w: word)
    requires 16 <= t < 64
    requires Schedule(m, t - 2) == w2 && Schedule(m, t - 7) == w7 && Schedule(m, t - 15) == w15 && Schedule(m, t - 16) == w16
    requires EvalSchedule(w2, w7, w15, w16) == w
    ensures Schedule(m, t) == w
  {
    EvalScheduleIs(w2, w7, w15, w16);
    hide ScheduleStep, EvalSchedule, FromBytes;
  }

  /** The padded message "abc". */
  predicate IsAbc(m: Block) {
    m[0] == 0x61 && m[1] == 0x62 && m[2] == 0x63 && m[3] == 0x80 && m[63] == 0x18 && forall i :: 4 <= i < 63 ==> m[i] == 0
  }

  lemma AbcWords(m: Block)
    requires IsAbc(m)
    ensures FromBytes(m[0], m[1], m[2], m[3]) == 0x61626380 && FromBytes(m[60], m[61], m[62], m[63]) == 0x18
    ensures forall t :: 1 <= t < 15 ==> FromBytes(m[4 * t], m[4 * t + 1], m[4 * t + 2], m[4 * t + 3]) == 0
  {
  }

  // ---- the message schedule of "abc" ----

  lemma Words0(m: Block)
    requires IsAbc(m)
    ensures Schedule(m, 0) == 0x61626380 && Schedule(m, 1) == 0x00000000 && Schedule(m, 2) == 0x00000000 && Schedule(m, 3) == 0x00000000
    ensures Schedule(m, 4) == 0x00000000 && Schedule(m, 5) == 0x00000000 && Schedule(m, 6) == 0x00000000 && Schedule(m, 7) == 0x00000000
    ensures Schedule(m, 8) == 0x00000000 && Schedule(m, 9) == 0x00000000 && Schedule(m, 10) == 0x00000000 && Schedule(m, 11) == 0x00000000
    ensures Schedule(m, 12) == 0x00000000 && Schedule(m, 13) == 0x00000000 && Schedule(m, 14) == 0x00000000 && Schedule(m, 15) == 0x00000018
  {
    hide FromBytes;
    AbcWords(m);
  }

  lemma Words16(m: Block)
    requires IsAbc(m)
    ensures Schedule(m, 16) == 0x61626380 && Schedule(m, 17) == 0x000f0000 && Schedule(m, 18) == 0x7da86405 && Schedule(m, 19) == 0x600003c6
    ensures Schedule(m, 20) == 0x3e9d7b78 && Schedule(m, 21) == 0x0183fc00 && Schedule(m, 22) == 0x12dcbfdb && Schedule(m, 23) == 0xe2e2c38e
  {
    hide Schedule, IsAbc;
    Words0(m);
    NextWord(m, 16, 0x00000000, 0x00000000, 0x00000000, 0x61626380, 0x61626380);
    NextWord(m, 17, 0x00000018, 0x00000000, 0x00000000, 0x00000000, 0x000f0000);
    NextWord(m, 18, 0x61626380, 0x00000000, 0x00000000, 0x00000000, 0x7da86405);
    NextWord(m, 19, 0x000f0000, 0x00000000, 0x00000000, 0x00000000, 0x600003c6);
    NextWord(m, 20, 0x7da86405, 0x00000000, 0x00000000, 0x00000000, 0x3e9d7b78);
    NextWord(m, 21, 0x600003c6, 0x00000000, 0x00000000, 0x00000000, 0x0183fc00);
    NextWord(m, 22, 0x3e9d7b78, 0x00000018, 0x00000000, 0x00000000, 0x12dcbfdb);
    NextWord(m, 23, 0x0183fc00, 0x61626380, 0x00000000, 0x00000000, 0xe2e2c38e);
  }

  lemma Words24(m: Block)
    requires IsAbc(m)
    ensures Schedule(m, 24) == 0xc8215c1a && Schedule(m, 25) == 0xb73679a2 && Schedule(m, 26) == 0xe5bc3909 && Schedule(m, 27) == 0x32663c5b
    ensures Schedule(m, 28) == 0x9d209d67 && Schedule(m, 29) == 0xec8726cb && Schedule(m, 30) == 0x702138a4 && Schedule(m, 31) == 0xd3b7973b
  {
    hide Schedule, IsAbc;
    Words0(m);
    Words16(m);
    NextWord(m, 24, 0x12dcbfdb, 0x000f0000, 0x00000000, 0x00000000, 0xc8215c1a);
    NextWord(m, 25, 0xe2e2c38e, 0x7da86405, 0x00000000, 0x00000000, 0xb73679a2);
    NextWord(m, 26, 0xc8215c1a, 0x600003c6, 0x00000000, 0x00000000, 0xe5bc3909);
    NextWord(m, 27, 0xb73679a2, 0x3e9d7b78, 0x00000000, 0x00000000, 0x32663c5b);
    NextWord(m, 28, 0xe5bc3909, 0x0183fc00, 0x00000000, 0x00000000, 0x9d209d67);
    NextWord(m, 29, 0x32663c5b, 0x12dcbfdb, 0x00000000, 0x00000000, 0xec8726cb);
    NextWord(m, 30, 0x9d209d67, 0xe2e2c38e, 0x00000018, 0x00000000, 0x702138a4);
    NextWord(m, 31, 0xec8726cb, 0xc8215c1a, 0x61626380, 0x00000018, 0xd3b7973b);
  }

  lemma Words32(m: Block)
    requires IsAbc(m)
    ensures Schedule(m, 32) == 0x93f5997f && Schedule(m, 33) == 0x3b68ba73 && Schedule(m, 34) == 0xaff4ffc1 && Schedule(m, 35) == 0xf10a5c62
    ensures Schedule(m, 36) == 0x0a8b3996 && Schedule(m, 37) == 0x72af830a && Schedule(m, 38) == 0x9409e33e && Schedule(m, 39) == 0x24641522
  {
    hide Schedule, IsAbc;
    Words16(m);
    Words24(m);
    NextWord(m, 32, 0x702138a4, 0xb73679a2, 0x000f0000, 0x61626380, 0x93f5997f);
    NextWord(m, 33, 0xd3b7973b, 0xe5bc3909, 0x7da86405, 0x000f0000, 0x3b68ba73);
    NextWord(m, 34, 0x93f5997f, 0x32663c5b, 0x600003c6, 0x7da86405, 0xaff4ffc1);
    NextWord(m, 35, 0x3b68ba73, 0x9d209d67, 0x3e9d7b78, 0x600003c6, 0xf10a5c62);
    NextWord(m, 36, 0xaff4ffc1, 0xec8726cb, 0x0183fc00, 0x3e9d7b78, 0x0a8b3996);
    NextWord(m, 37, 0xf10a5c62, 0x702138a4, 0x12dcbfdb, 0x0183fc00, 0x72af830a);
    NextWord(m, 38, 0x0a8b3996, 0xd3b7973b, 0xe2e2c38e, 0x12dcbfdb, 0x9409e33e);
    NextWord(m, 39, 0x72af830a, 0x93f5997f, 0xc8215c1a, 0xe2e2c38e, 0x24641522);
  }

  lemma Words40(m: Block)
    requires IsAbc(m)
    ensures Schedule(m, 40) == 0x9f47bf94 && Schedule(m, 41) == 0xf0a64f5a && Schedule(m, 42) == 0x3e246a79 && Schedule(m, 43) == 0x27333ba3
    ensures Schedule(m, 44) == 0x0c4763f2 && Schedule(m, 45) == 0x840abf27 && Schedule(m, 46) == 0x7a290d5d && Schedule(m, 47) == 0x065c43da
  {
    hide Schedule, IsAbc;
    Words24(m);
    Words32(m);
    NextWord(m, 40, 0x9409e33e, 0x3b68ba73, 0xb73679a2, 0xc8215c1a, 0x9f47bf94);
    NextWord(m, 41, 0x24641522, 0xaff4ffc1, 0xe5bc3909, 0xb73679a2, 0xf0a64f5a);
    NextWord(m, 42, 0x9f47bf94, 0xf10a5c62, 0x32663c5b, 0xe5bc3909, 0x3e246a79);
    NextWord(m, 43, 0xf0a64f5a, 0x0a8b3996, 0x9d209d67, 0x32663c5b, 0x27333ba3);
    NextWord(m, 44, 0x3e246a79, 0x72af830a, 0xec8726cb, 0x9d209d67, 0x0c4763f2);
    NextWord(m, 45, 0x27333ba3, 0x9409e33e, 0x702138a4, 0xec8726cb, 0x840abf27);
    NextWord(m, 46, 0x0c4763f2, 0x24641522, 0xd3b7973b, 0x702138a4, 0x7a290d5d);
    NextWord(m, 47, 0x840abf27, 0x9f47bf94, 0x93f5997f, 0xd3b7973b, 0x065c43da);
  }

  lemma Words48(m: Block)
    requires IsAbc(m)
    ensures Schedule(m, 48) == 0xfb3e89cb && Schedule(m, 49) == 0xcc7617db && Schedule(m, 50) == 0xb9e66c34 && Schedule(m, 51) == 0xa9993667
    ensures Schedule(m, 52) == 0x84badedd && Schedule(m, 53) == 0xc21462bc && Schedule(m, 54) == 0x1487472c && Schedule(m, 55) == 0xb20f7a99
  {
    hide Schedule, IsAbc;
    Words32(m);
    Words40(m);
    NextWord(m, 48, 0x7a290d5d, 0xf0a64f5a, 0x3b68ba73, 0x93f5997f, 0xfb3e89cb);
    NextWord(m, 49, 0x065c43da, 0x3e246a79, 0xaff4ffc1, 0x3b68ba73, 0xcc7617db);
    NextWord(m, 50, 0xfb3e89cb, 0x27333ba3, 0xf10a5c62, 0xaff4ffc1, 0xb9e66c34);
    NextWord(m, 51, 0xcc7617db, 0x0c4763f2, 0x0a8b3996, 0xf10a5c62, 0xa9993667);
    NextWord(m, 52, 0xb9e66c34, 0x840abf27, 0x72af830a, 0x0a8b3996, 0x84badedd);
    NextWord(m, 53, 0xa9993667, 0x7a290d5d, 0x9409e33e, 0x72af830a, 0xc21462bc);
    NextWord(m, 54, 0x84badedd, 0x065c43da, 0x24641522, 0x9409e33e, 0x1487472c);
    NextWord(m, 55, 0xc21462bc, 0xfb3e89cb, 0x9f47bf94, 0x24641522, 0xb20f7a99);
  }

  lemma Words56(m: Block)
    requires IsAbc(m)
    ensures Schedule(m, 56) == 0xef57b9cd && Schedule(m, 57) == 0xebe6b238 && Schedule(m, 58) == 0x9fe3095e && Schedule(m, 59) == 0x78bc8d4b
    ensures Schedule(m, 60) == 0xa43fcf15 && Schedule(m, 61) == 0x668b2ff8 && Schedule(m, 62) == 0xeeaba2cc && Schedule(m, 63) == 0x12b1edeb
  {
    hide Schedule, IsAbc;
    Words40(m);
    Words48(m);
    NextWord(m, 56, 0x1487472c, 0xcc7617db, 0xf0a64f5a, 0x9f47bf94, 0xef57b9cd);
    NextWord(m, 57, 0xb20f7a99, 0xb9e66c34, 0x3e246a79, 0xf0a64f5a, 0xebe6b238);
    NextWord(m, 58, 0xef57b9cd, 0xa9993667, 0x27333ba3, 0x3e246a79, 0x9fe3095e);
    NextWord(m, 59, 0xebe6b238, 0x84badedd, 0x0c4763f2, 0x27333ba3, 0x78bc8d4b);
    NextWord(m, 60, 0x9fe3095e, 0xc21462bc, 0x840abf27, 0x0c4763f2, 0xa43fcf15);
    NextWord(m, 61, 0x78bc8d4b, 0x1487472c, 0x7a290d5d, 0x840abf27, 0x668b2ff8);
    NextWord(m, 62, 0xa43fcf15, 0xb20f7a99, 0x065c43da, 0x7a290d5d, 0xeeaba2cc);
    NextWord(m, 63, 0x668b2ff8, 0xef57b9cd, 0xfb3e89cb, 0x065c43da, 0x12b1edeb);
  }

  // ---- its rounds ----

  lemma Rounds0(m: Block)
    ensures Rounds(InitialHash(), m, 0)
         == Vars(0x6a09e667, 0xbb67ae85, 0x3c6ef372, 0xa54ff53a, 0x510e527f, 0x9b05688c, 0x1f83d9ab, 0x5be0cd19)
  {
    InitialWords();
  }

  lemma Constants0()
    ensures K[0] == 0x428a2f98 && K[1] == 0x71374491 && K[2] == 0xb5c0fbcf && K[3] == 0xe9b5dba5
    ensures K[4] == 0x3956c25b && K[5] == 0x59f111f1 && K[6] == 0x923f82a4 && K[7] == 0xab1c5ed5
  {
  }

  lemma Rounds8(m: Block)
    requires IsAbc(m)
    ensures Rounds(InitialHash(), m, 8)
         == Vars(0x85a07b5f, 0xe5030380, 0x2b4209f5, 0x04409a6a, 0x0c657a79, 0x9b27a401, 0x714260ad, 0x43ada245)
  {
    hide Rounds, Schedule, IsAbc, K, InitialHash;
    Constants0();
    Words0(m);
    Rounds0(m);
    var v := Vars(0x6a09e667, 0xbb67ae85, 0x3c6ef372, 0xa54ff53a, 0x510e527f, 0x9b05688c, 0x1f83d9ab, 0x5be0cd19);
    v := NextRound(m, 0, v, 0x428a2f98, 0x61626380, 0x5d6aebcd, 0xfa2a4622);
    v := NextRound(m, 1, v, 0x71374491, 0x00000000, 0x5a6ad9ad, 0x78ce7989);
    v := NextRound(m, 2, v, 0xb5c0fbcf, 0x00000000, 0xc8c347a7, 0xf92939eb);
    v := NextRound(m, 3, v, 0xe9b5dba5, 0x00000000, 0xd550f666, 0x24e00850);
    v := NextRound(m, 4, v, 0x3956c25b, 0x00000000, 0x04409a6a, 0x43ada245);
    v := NextRound(m, 5, v, 0x59f111f1, 0x00000000, 0x2b4209f5, 0x714260ad);
    v := NextRound(m, 6, v, 0x923f82a4, 0x00000000, 0xe5030380, 0x9b27a401);
    v := NextRound(m, 7, v, 0xab1c5ed5, 0x00000000, 0x85a07b5f, 0x0c657a79);
  }

  lemma Constants8()
    ensures K[8] == 0xd807aa98 && K[9] == 0x12835b01 && K[10] == 0x243185be && K[11] == 0x550c7dc3
    ensures K[12] == 0x72be5d74 && K[13] == 0x80deb1fe && K[14] == 0x9bdc06a7 && K[15] == 0xc19bf174
  {
  }

  lemma Rounds16(m: Block)
    requires IsAbc(m)
    ensures Rounds(InitialHash(), m, 16)
         == Vars(0xb0fa238e, 0xc0645fde, 0xd932eb16, 0x87912990, 0x07590dcd, 0x0b92f20c, 0x745a48de, 0x1e578218)
  {
    hide Rounds, Schedule, IsAbc, K, InitialHash;
    Constants8();
    Words0(m);
    Rounds8(m);
    var v := Vars(0x85a07b5f, 0xe5030380, 0x2b4209f5, 0x04409a6a, 0x0c657a79, 0x9b27a401, 0x714260ad, 0x43ada245);
    v := NextRound(m, 8, v, 0xd807aa98, 0x00000000, 0x8e04ecb9, 0x32ca2d8c);
    v := NextRound(m, 9, v, 0x12835b01, 0x00000000, 0x8c87346b, 0x1cc92596);
    v := NextRound(m, 10, v, 0x243185be, 0x00000000, 0x4798a3f4, 0x436b23e8);
    v := NextRound(m, 11, v, 0x550c7dc3, 0x00000000, 0xf71fc5a9, 0x816fd6e9);
    v := NextRound(m, 12, v, 0x72be5d74, 0x00000000, 0x87912990, 0x1e578218);
    v := NextRound(m, 13, v, 0x80deb1fe, 0x00000000, 0xd932eb16, 0x745a48de);
    v := NextRound(m, 14, v, 0x9bdc06a7, 0x00000000, 0xc0645fde, 0x0b92f20c);
    v := NextRound(m, 15, v, 0xc19bf174, 0x00000018, 0xb0fa238e, 0x07590dcd);
  }

  lemma Constants16()
    ensures K[16] == 0xe49b69c1 && K[17] == 0xefbe4786 && K[18] == 0x0fc19dc6 && K[19] == 0x240ca1cc
    ensures K[20] == 0x2de92c6f && K[21] == 0x4a7484aa && K[22] == 0x5cb0a9dc && K[23] == 0x76f988da
  {
  }

  lemma Rounds24(m: Block)
    requires IsAbc(m)
    ensures Rounds(InitialHash(), m, 24)
         == Vars(0xc5d53d8d, 0xa7a3623f, 0xc2606d6d, 0x9dc68b63, 0xaa47c347, 0x49f5114a, 0xe1257970, 0x8ada8930)
  {
    hide Rounds, Schedule, IsAbc, K, InitialHash;
    Constants16();
    Words16(m);
    Rounds16(m);
    var v := Vars(0xb0fa238e, 0xc0645fde, 0xd932eb16, 0x87912990, 0x07590dcd, 0x0b92f20c, 0x745a48de, 0x1e578218);
    v := NextRound(m, 16, v, 0xe49b69c1, 0x61626380, 0x21da9a9b, 0x8034229c);
    v := NextRound(m, 17, v, 0xefbe4786, 0x000f0000, 0xc2fbd9d1, 0x846ee454);
    v := NextRound(m, 18, v, 0x0fc19dc6, 0x7da86405, 0xfe777bbf, 0xcc899961);
    v := NextRound(m, 19, v, 0x240ca1cc, 0x600003c6, 0xe1f20c33, 0xb0638179);
    v := NextRound(m, 20, v, 0x2de92c6f, 0x3e9d7b78, 0x9dc68b63, 0x8ada8930);
    v := NextRound(m, 21, v, 0x4a7484aa, 0x0183fc00, 0xc2606d6d, 0xe1257970);
    v := NextRound(m, 22, v, 0x5cb0a9dc, 0x12dcbfdb, 0xa7a3623f, 0x49f5114a);
    v := NextRound(m, 23, v, 0x76f988da, 0xe2e2c38e, 0xc5d53d8d, 0xaa47c347);
  }

  lemma Constants24()
    ensures K[24] == 0x983e5152 && K[25] == 0xa831c66d && K[26] == 0xb00327c8 && K[27] == 0xbf597fc7
    ensures K[28] == 0xc6e00bf3 && K[29] == 0xd5a79147 && K[30] == 0x06ca6351 && K[31] == 0x14292967
  {
  }

  lemma Rounds32(m: Block)
    requires IsAbc(m)
    ensures Rounds(InitialHash(), m, 32)
         == Vars(0x73b33bf5, 0xea992a22, 0xa0060b30, 0x363482c9, 0xba591112, 0x0109ab3a, 0xade79437, 0x6112a3b7)
  {
    hide Rounds, Schedule, IsAbc, K, InitialHash;
    Constants24();
    Words24(m);
    Rounds24(m);
    var v := Vars(0xc5d53d8d, 0xa7a3623f, 0xc2606d6d, 0x9dc68b63, 0xaa47c347, 0x49f5114a, 0xe1257970, 0x8ada8930);
    v := NextRound(m, 24, v, 0x983e5152, 0xc8215c1a, 0x1c2c2838, 0x2823ef91);
    v := NextRound(m, 25, v, 0xa831c66d, 0xb73679a2, 0xcde8037d, 0x14383d8e);
    v := NextRound(m, 26, v, 0xb00327c8, 0xe5bc3909, 0xb62ec4bc, 0xc74c6516);
    v := NextRound(m, 27, v, 0xbf597fc7, 0x32663c5b, 0x77d37528, 0xedffbff8);
    v := NextRound(m, 28, v, 0xc6e00bf3, 0x9d209d67, 0x363482c9, 0x6112a3b7);
    v := NextRound(m, 29, v, 0xd5a79147, 0xec8726cb, 0xa0060b30, 0xade79437);
    v := NextRound(m, 30, v, 0x06ca6351, 0x702138a4, 0xea992a22, 0x0109ab3a);
    v := NextRound(m, 31, v, 0x14292967, 0xd3b7973b, 0x73b33bf5, 0xba591112);
  }

  lemma Constants32()
    ensures K[32] == 0x27b70a85 && K[33] == 0x2e1b2138 && K[34] == 0x4d2c6dfc && K[35] == 0x53380d13
    ensures K[36] == 0x650a7354 && K[37] == 0x766a0abb && K[38] == 0x81c2c92e && K[39] == 0x92722c85
  {
  }

  lemma Rounds40(m: Block)
    requires IsAbc(m)
    ensures Rounds(InitialHash(), m, 40)
         == Vars(0x79ea687a, 0x6dc57a8a, 0x34df1604, 0x41a65cb1, 0x1efbc0a0, 0xf0781bc8, 0xa507a53d, 0x0772a26b)
  {
    hide Rounds, Schedule, IsAbc, K, InitialHash;
    Constants32();
    Words32(m);
    Rounds32(m);
    var v := Vars(0x73b33bf5, 0xea992a22, 0xa0060b30, 0x363482c9, 0xba591112, 0x0109ab3a, 0xade79437, 0x6112a3b7);
    v := NextRound(m, 32, v, 0x27b70a85, 0x93f5997f, 0x98e12507, 0x9cd9f5f6);
    v := NextRound(m, 33, v, 0x2e1b2138, 0x3b68ba73, 0xfe604df5, 0x59249dd3);
    v := NextRound(m, 34, v, 0x4d2c6dfc, 0xaff4ffc1, 0xa9a7738c, 0x085f3833);
    v := NextRound(m, 35, v, 0x53380d13, 0xf10a5c62, 0x65a0cfe4, 0xf4b002d6);
    v := NextRound(m, 36, v, 0x650a7354, 0x0a8b3996, 0x41a65cb1, 0x0772a26b);
    v := NextRound(m, 37, v, 0x766a0abb, 0x72af830a, 0x34df1604, 0xa507a53d);
    v := NextRound(m, 38, v, 0x81c2c92e, 0x9409e33e, 0x6dc57a8a, 0xf0781bc8);
    v := NextRound(m, 39, v, 0x92722c85, 0x24641522, 0x79ea687a, 0x1efbc0a0);
  }

  lemma Constants40()
    ensures K[40] == 0xa2bfe8a1 && K[41] == 0xa81a664b && K[42] == 0xc24b8b70 && K[43] == 0xc76c51a3
    ensures K[44] == 0xd192e819 && K[45] == 0xd6990624 && K[46] == 0xf40e3585 && K[47] == 0x106aa070
  {
  }

  lemma Rounds48(m: Block)
    requires IsAbc(m)
    ensures Rounds(InitialHash(), m, 48)
         == Vars(0x4172328d, 0xa14c14b0, 0x72ab4b91, 0x26628815, 0xfecf0bc6, 0xd57b94a9, 0xb7755da1, 0xa80f11f0)
  {
    hide Rounds, Schedule, IsAbc, K, InitialHash;
    Constants40();
    Words40(m);
    Rounds40(m);
    var v := Vars(0x79ea687a, 0x6dc57a8a, 0x34df1604, 0x41a65cb1, 0x1efbc0a0, 0xf0781bc8, 0xa507a53d, 0x0772a26b);
    v := NextRound(m, 40, v, 0xa2bfe8a1, 0x9f47bf94, 0xd6670766, 0x26352d63);
    v := NextRound(m, 41, v, 0xa81a664b, 0xf0a64f5a, 0xdf46652f, 0x838b2711);
    v := NextRound(m, 42, v, 0xc24b8b70, 0x3e246a79, 0x17aa0dfe, 0xdecd4715);
    v := NextRound(m, 43, v, 0xc76c51a3, 0x27333ba3, 0x9d4baf93, 0xfda24c2e);
    v := NextRound(m, 44, v, 0xd192e819, 0x0c4763f2, 0x26628815, 0xa80f11f0);
    v := NextRound(m, 45, v, 0xd6990624, 0x840abf27, 0x72ab4b91, 0xb7755da1);
    v := NextRound(m, 46, v, 0xf40e3585, 0x7a290d5d, 0xa14c14b0, 0xd57b94a9);
    v := NextRound(m, 47, v, 0x106aa070, 0x065c43da, 0x4172328d, 0xfecf0bc6);
  }

  lemma Constants48()
    ensures K[48] == 0x19a4c116 && K[49] == 0x1e376c08 && K[50] == 0x2748774c && K[51] == 0x34b0bcb5
    ensures K[52] == 0x391c0cb3 && K[53] == 0x4ed8aa4a && K[54] == 0x5b9cca4f && K[55] == 0x682e6ff3
  {
  }

  lemma Rounds56(m: Block)
    requires IsAbc(m)
    ensures Rounds(InitialHash(), m, 56)
         == Vars(0x38cc9913, 0x3ec45cdb, 0xf5702fdb, 0x101fd28f, 0x54cb266b, 0xe50e1b4f, 0x9f4787c3, 0x529e7d00)
  {
    hide Rounds, Schedule, IsAbc, K, InitialHash;
    Constants48();
    Words48(m);
    Rounds48(m);
    var v := Vars(0x4172328d, 0xa14c14b0, 0x72ab4b91, 0x26628815, 0xfecf0bc6, 0xd57b94a9, 0xb7755da1, 0xa80f11f0);
    v := NextRound(m, 48, v, 0x19a4c116, 0xfb3e89cb, 0x05757ceb, 0xbd714038);
    v := NextRound(m, 49, v, 0x1e376c08, 0xcc7617db, 0xf11bfaa8, 0x6e5c390c);
    v := NextRound(m, 50, v, 0x2748774c, 0xb9e66c34, 0x7a0508a1, 0x52f1ccf7);
    v := NextRound(m, 51, v, 0x34b0bcb5, 0xa9993667, 0x886e7a22, 0x49231c1e);
    v := NextRound(m, 52, v, 0x391c0cb3, 0x84badedd, 0x101fd28f, 0x529e7d00);
    v := NextRound(m, 53, v, 0x4ed8aa4a, 0xc21462bc, 0xf5702fdb, 0x9f4787c3);
    v := NextRound(m, 54, v, 0x5b9cca4f, 0x1487472c, 0x3ec45cdb, 0xe50e1b4f);
    v := NextRound(m, 55, v, 0x682e6ff3, 0xb20f7a99, 0x38cc9913, 0x54cb266b);
  }

  lemma Constants56()
    ensures K[56] == 0x748f82ee && K[57] == 0x78a5636f && K[58] == 0x84c87814 && K[59] == 0x8cc70208
    ensures K[60] == 0x90befffa && K[61] == 0xa4506ceb && K[62] == 0xbef9a3f7 && K[63] == 0xc67178f2
  {
  }

  lemma Rounds64(m: Block)
    requires IsAbc(m)
    ensures Rounds(InitialHash(), m, 64)
         == Vars(0x506e3058, 0xd39a2165, 0x04d24d6c, 0xb85e2ce9, 0x5ef50f24, 0xfb121210, 0x948d25b6, 0x961f4894)
  {
    hide Rounds, Schedule, IsAbc, K, InitialHash;
    Constants56();
    Words56(m);
    Rounds56(m);
    var v := Vars(0x38cc9913, 0x3ec45cdb, 0xf5702fdb, 0x101fd28f, 0x54cb266b, 0xe50e1b4f, 0x9f4787c3, 0x529e7d00);
    v := NextRound(m, 56, v, 0x748f82ee, 0xef57b9cd, 0xfcd1887b, 0x9b5e906c);
    v := NextRound(m, 57, v, 0x78a5636f, 0xebe6b238, 0xc062d46f, 0x7e44008e);
    v := NextRound(m, 58, v, 0x84c87814, 0x9fe3095e, 0xffb70472, 0x6d83bfc6);
    v := NextRound(m, 59, v, 0x8cc70208, 0x78bc8d4b, 0xb6ae8fff, 0xb21bad3d);
    v := NextRound(m, 60, v, 0x90befffa, 0xa43fcf15, 0xb85e2ce9, 0x961f4894);
    v := NextRound(m, 61, v, 0xa4506ceb, 0x668b2ff8, 0x04d24d6c, 0x948d25b6);
    v := NextRound(m, 62, v, 0xbef9a3f7, 0xeeaba2cc, 0xd39a2165, 0xfb121210);
    v := NextRound(m, 63, v, 0xc67178f2, 0x12b1edeb, 0x506e3058, 0x5ef50f24);
  }

  // ---- the answer ----

  lemma AbcCompressed(m: Block)
    requires IsAbc(m)
    ensures Compress(InitialHash(), m)
         == [0xba7816bf, 0x8f01cfea, 0x414140de, 0x5dae2223, 0xb00361a3, 0x96177a9c, 0xb410ff61, 0xf20015ad]
  {
    hide Rounds, IsAbc;
    Rounds64(m);
    InitialWords();
    hide InitialHash;
  }

  lemma SmallLength(k: nat)
    requires k < 8
    ensures ByteAt(24, k) == if k == 0 then 0x18 else 0
  {
    assert 24 / 256 == 0;
    if k > 0 {
      NoBits(k - 1);
    }
  }

  lemma {:induction false} NoBits(k: nat)
    ensures ByteAt(0, k) == 0
  {
    if k > 0 {
      NoBits(k - 1);
    }
  }

  lemma PaddedBytes(m: seq<byte>, p: seq<byte>)
    requires |m| == 3 && FipsPadding(m, p)
    ensures |p| == 64 && p[..3] == m && p[3] == 0x80
    ensures forall i :: 4 <= i < 56 ==> p[i] == 0
    ensures forall k :: 0 <= k < 8 ==> p[63 - k] == ByteAt(24, k)
  {
    hide ByteAt;
    var other := 64;
    assert other % 64 == 0 && other >= |m| + 9;
    assert |p| <= 64;
    assert forall k :: 0 <= k < 8 ==> p[|p| - 1 - k] == ByteAt(8 * |m|, k);
    assert 8 * |m| == 24;
  }

  lemma AbcPadded()
    ensures |Pad([0x61, 0x62, 0x63])| == 64 && IsAbc(Pad([0x61, 0x62, 0x63]))
  {
    var m: seq<byte> := [0x61, 0x62, 0x63];
    PadIsFips(m);
    var p := Pad(m);
    hide Pad, ByteAt, FipsPadding;
    PaddedBytes(m, p);
    assert p[0] == p[..3][0] && p[1] == p[..3][1] && p[2] == p[..3][2];
    forall i | 56 <= i < 64
      ensures p[i] == if i == 63 then 0x18 else 0
    {
      SmallLength(63 - i);
      assert p[63 - (63 - i)] == ByteAt(24, 63 - i);
    }
  }

  lemma AbcHashed()
    ensures |Pad([0x61, 0x62, 0x63])| == 64
    ensures HashBlocks(Pad([0x61, 0x62, 0x63]))
         == [0xba7816bf, 0x8f01cfea, 0x414140de, 0x5dae2223, 0xb00361a3, 0x96177a9c, 0xb410ff61, 0xf20015ad]
  {
    AbcPadded();
    hide Pad, IsAbc, Compress;
    var p := Pad([0x61, 0x62, 0x63]);
    assert p[..0] == [] && p[0..] == p;
    AbcCompressed(p);
  }

  lemma BytesAt(h: Hash, i: nat, w: word)
    requires i < 8 && h[i] == w
    ensures BytesOf(h)[4 * i..4 * i + 4] == [ByteOf(w, 0), ByteOf(w, 1), ByteOf(w, 2), ByteOf(w, 3)]
  {
    hide ByteOf;
  }

  /** The digest of "abc" in the examples of FIPS 180-4. */
  lemma Abc()
    ensures Sha256([0x61, 0x62, 0x63]) == [0xba, 0x78, 0x16, 0xbf] + [0x8f, 0x01, 0xcf, 0xea] + [0x41, 0x41, 0x40, 0xde] + [0x5d, 0xae, 0x22, 0x23]
                                        + ([0xb0, 0x03, 0x61, 0xa3] + [0x96, 0x17, 0x7a, 0x9c] + [0xb4, 0x10, 0xff, 0x61] + [0xf2, 0x00, 0x15, 0xad])
  {
    AbcHashed();
    hide Pad, HashBlocks;
    var h := HashBlocks(Pad([0x61, 0x62, 0x63]));
    BytesAt(h, 0, 0xba7816bf);
    BytesAt(h, 1, 0x8f01cfea);
    BytesAt(h, 2, 0x414140de);
    BytesAt(h, 3, 0x5dae2223);
    BytesAt(h, 4, 0xb00361a3);
    BytesAt(h, 5, 0x96177a9c);
    BytesAt(h, 6, 0xb410ff61);
    BytesAt(h, 7, 0xf20015ad);
    hide *;
    EightWords(BytesOf(h));
  }

  lemma EightWords(d: seq<byte>)
    requires |d| == 32
    ensures d == d[0..4] + d[4..8] + d[8..12] + d[12..16] + (d[16..20] + d[20..24] + d[24..28] + d[28..32])
  {
  }

  // ---- more than one block ----

  lemma SliceOfPrefix(s: seq<byte>, n: nat, a: nat, b: nat)
    requires a <= b <= n <= |s|
    ensures s[..n][a..b] == s[a..b]
  {
  }

  /** Section 6.2.2: every block is compressed onto the hash value of the blocks before it, the first
      one onto the initial hash value. */
  lemma {:induction false} BlocksChain(blocks: seq<byte>, hs: seq<Hash>)
    requires |blocks| == 64 * (|hs| - 1) && |hs| > 0
    requires hs[0] == [0x6a09e667, 0xbb67ae85, 0x3c6ef372, 0xa54ff53a, 0x510e527f, 0x9b05688c, 0x1f83d9ab, 0x5be0cd19]
    requires forall i :: 0 <= i < |hs| - 1 ==> hs[i + 1] == Compress(hs[i], blocks[64 * i..64 * i + 64])
    ensures HashBlocks(blocks) == hs[|hs| - 1]
  {
    hide Compress, InitialHash;
    var n := |hs| - 1;
    if n == 0 {
      InitialWords();
    } else {
      var front := blocks[..64 * (n - 1)];
      forall i | 0 <= i < n - 1
        ensures hs[i + 1] == Compress(hs[..n][i], front[64 * i..64 * i + 64])
      {
        SliceOfPrefix(blocks, 64 * (n - 1), 64 * i, 64 * i + 64);
      }
      BlocksChain(front, hs[..n]);
      assert |blocks| - 64 == 64 * (n - 1) && blocks[64 * (n - 1)..64 * (n - 1) + 64] == blocks[|blocks| - 64..];
    }
  }

  // ---- HMAC ----

  /** Section 2 of RFC 2104, for a key that fits a block, byte by byte. */
  ghost predicate IsHmac(key: seq<byte>, text: seq<byte>, d: seq<byte>) {
    exists inner: seq<byte>, outer: seq<byte> ::
      && |inner| == |outer| == 64
      && (forall i :: 0 <= i < 64 ==> inner[i] == (if i < |key| then key[i] else 0) ^ 0x36)
      && (forall i :: 0 <= i < 64 ==> outer[i] == (if i < |key| then key[i] else 0) ^ 0x5C)
      && d == Sha256(outer + Sha256(inner + text))
  }

  /** A longer key is hashed first. */
  lemma HmacIs(key: seq<byte>, text: seq<byte>)
    ensures |key| <= 64 ==> IsHmac(key, text, Hmac(key, text))
    ensures |key| > 64 ==> IsHmac(Sha256(key), text, Hmac(key, text))
  {
    hide Sha256;
    var block := KeyBlock(key);
    var inner, outer := XorAll(block, 0x36), XorAll(block, 0x5C);
    assert Hmac(key, text) == Sha256(outer + Sha256(inner + text));
  }
}
