/**
 The one-block example of FIPS 180-4: the hash of "abc", computed word by word and round by round. It fixes
 the schedule, the rotations, the logical functions and the wiring of the rounds all at once.
 */
module Sha256Example {
  import opened Octets
  import opened Sha256Spec
  import Sha256

  const ABC: Bytes := [0x61, 0x62, 0x63]

  // --- The block -------------------------------------------------------------------------

  /** Three letters, a one bit, zeros, and the length of 24 bits. */
  predicate IsBlock(b: Bytes)
  {
    && |b| == 64 && b[0] == 0x61 && b[1] == 0x62 && b[2] == 0x63 && b[3] == 0x80
    && (forall i :: 4 <= i < 63 ==> b[i] == 0) && b[63] == 0x18
  }

  lemma LengthIs()
    ensures Be64(24) == [0, 0, 0, 0, 0, 0, 0, 0x18]
  {
    assert Octet(0) == 0 && Octet(24) == 0x18;
  }

  lemma PaddedIs()
    ensures IsBlock(Padded(ABC))
  {
    hide Be64;
    LengthIs();
    assert ZeroCount(3) == 52;
    assert Padded(ABC) == ABC + [0x80] + Zeros(52) + [0, 0, 0, 0, 0, 0, 0, 0x18];
  }

  lemma WordIs(b: Bytes, t: nat, x0: Byte, x1: Byte, x2: Byte, x3: Byte, w: Word)
    requires |b| == 64 && t < 16
    requires b[4 * t] == x0 && b[4 * t + 1] == x1 && b[4 * t + 2] == x2 && b[4 * t + 3] == x3
    requires ((x0 as Word << 24) | (x1 as Word << 16)) | ((x2 as Word << 8) | (x3 as Word)) == w
    ensures Schedule(b, t) == w
  {
  }

  lemma FirstWords(b: Bytes)
    requires IsBlock(b)
    ensures Schedule(b, 0) == 0x61626380
    ensures Schedule(b, 1) == 0
    ensures Schedule(b, 2) == 0
    ensures Schedule(b, 3) == 0
    ensures Schedule(b, 4) == 0
    ensures Schedule(b, 5) == 0
    ensures Schedule(b, 6) == 0
    ensures Schedule(b, 7) == 0
    ensures Schedule(b, 8) == 0
    ensures Schedule(b, 9) == 0
    ensures Schedule(b, 10) == 0
    ensures Schedule(b, 11) == 0
    ensures Schedule(b, 12) == 0
    ensures Schedule(b, 13) == 0
    ensures Schedule(b, 14) == 0
    ensures Schedule(b, 15) == 0x18
  {
    hide Schedule;
    WordIs(b, 0, 0x61, 0x62, 0x63, 0x80, 0x61626380);
    WordIs(b, 1, 0, 0, 0, 0, 0);
    WordIs(b, 2, 0, 0, 0, 0, 0);
    WordIs(b, 3, 0, 0, 0, 0, 0);
    WordIs(b, 4, 0, 0, 0, 0, 0);
    WordIs(b, 5, 0, 0, 0, 0, 0);
    WordIs(b, 6, 0, 0, 0, 0, 0);
    WordIs(b, 7, 0, 0, 0, 0, 0);
    WordIs(b, 8, 0, 0, 0, 0, 0);
    WordIs(b, 9, 0, 0, 0, 0, 0);
    WordIs(b, 10, 0, 0, 0, 0, 0);
    WordIs(b, 11, 0, 0, 0, 0, 0);
    WordIs(b, 12, 0, 0, 0, 0, 0);
    WordIs(b, 13, 0, 0, 0, 0, 0);
    WordIs(b, 14, 0, 0, 0, 0, 0);
    WordIs(b, 15, 0, 0, 0, 0x18, 0x18);
  }

  // --- The schedule ------------------------------------------------------------------------

  lemma NextWord(b: Bytes, t: nat, w2: Word, w7: Word, w15: Word, w16: Word, w: Word)
    requires |b| == 64 && 16 <= t < 64
    requires Schedule(b, t - 2) == w2 && Schedule(b, t - 7) == w7
    requires Schedule(b, t - 15) == w15 && Schedule(b, t - 16) == w16
    requires Sum4(SmallSigma1(w2), w7, SmallSigma0(w15), w16) == w
    ensures Schedule(b, t) == w
  {
    hide SmallSigma0, SmallSigma1, Sum4, Schedule;
    Sha256.ScheduleIs(b, t);
  }

  lemma Words16(b: Bytes)
    requires |b| == 64
    requires Schedule(b, 0) == 0x61626380 && Schedule(b, 1) == 0
    requires Schedule(b, 2) == 0 && Schedule(b, 3) == 0
    requires Schedule(b, 4) == 0 && Schedule(b, 5) == 0
    requires Schedule(b, 6) == 0 && Schedule(b, 7) == 0
    requires Schedule(b, 8) == 0 && Schedule(b, 9) == 0
    requires Schedule(b, 10) == 0 && Schedule(b, 11) == 0
    requires Schedule(b, 12) == 0 && Schedule(b, 13) == 0
    requires Schedule(b, 14) == 0 && Schedule(b, 15) == 0x18
    ensures Schedule(b, 16) == 0x61626380 && Schedule(b, 17) == 0x000f0000
    ensures Schedule(b, 18) == 0x7da86405 && Schedule(b, 19) == 0x600003c6
    ensures Schedule(b, 20) == 0x3e9d7b78 && Schedule(b, 21) == 0x0183fc00
    ensures Schedule(b, 22) == 0x12dcbfdb && Schedule(b, 23) == 0xe2e2c38e
  {
    hide Schedule;
    NextWord(b, 16, 0, 0, 0, 0x61626380, 0x61626380);
    NextWord(b, 17, 0x18, 0, 0, 0, 0x000f0000);
    NextWord(b, 18, 0x61626380, 0, 0, 0, 0x7da86405);
    NextWord(b, 19, 0x000f0000, 0, 0, 0, 0x600003c6);
    NextWord(b, 20, 0x7da86405, 0, 0, 0, 0x3e9d7b78);
    NextWord(b, 21, 0x600003c6, 0, 0, 0, 0x0183fc00);
    NextWord(b, 22, 0x3e9d7b78, 0x18, 0, 0, 0x12dcbfdb);
    NextWord(b, 23, 0x0183fc00, 0x61626380, 0, 0, 0xe2e2c38e);
  }

  lemma Words24(b: Bytes)
    requires |b| == 64
    requires Schedule(b, 8) == 0 && Schedule(b, 9) == 0
    requires Schedule(b, 10) == 0 && Schedule(b, 11) == 0
    requires Schedule(b, 12) == 0 && Schedule(b, 13) == 0
    requires Schedule(b, 14) == 0 && Schedule(b, 15) == 0x18
    requires Schedule(b, 16) == 0x61626380 && Schedule(b, 17) == 0x000f0000
    requires Schedule(b, 18) == 0x7da86405 && Schedule(b, 19) == 0x600003c6
    requires Schedule(b, 20) == 0x3e9d7b78 && Schedule(b, 21) == 0x0183fc00
    requires Schedule(b, 22) == 0x12dcbfdb && Schedule(b, 23) == 0xe2e2c38e
    ensures Schedule(b, 24) == 0xc8215c1a && Schedule(b, 25) == 0xb73679a2
    ensures Schedule(b, 26) == 0xe5bc3909 && Schedule(b, 27) == 0x32663c5b
    ensures Schedule(b, 28) == 0x9d209d67 && Schedule(b, 29) == 0xec8726cb
    ensures Schedule(b, 30) == 0x702138a4 && Schedule(b, 31) == 0xd3b7973b
  {
    hide Schedule;
    NextWord(b, 24, 0x12dcbfdb, 0x000f0000, 0, 0, 0xc8215c1a);
    NextWord(b, 25, 0xe2e2c38e, 0x7da86405, 0, 0, 0xb73679a2);
    NextWord(b, 26, 0xc8215c1a, 0x600003c6, 0, 0, 0xe5bc3909);
    NextWord(b, 27, 0xb73679a2, 0x3e9d7b78, 0, 0, 0x32663c5b);
    NextWord(b, 28, 0xe5bc3909, 0x0183fc00, 0, 0, 0x9d209d67);
    NextWord(b, 29, 0x32663c5b, 0x12dcbfdb, 0, 0, 0xec8726cb);
    NextWord(b, 30, 0x9d209d67, 0xe2e2c38e, 0x18, 0, 0x702138a4);
    NextWord(b, 31, 0xec8726cb, 0xc8215c1a, 0x61626380, 0x18, 0xd3b7973b);
  }

  lemma Words32(b: Bytes)
    requires |b| == 64
    requires Schedule(b, 16) == 0x61626380 && Schedule(b, 17) == 0x000f0000
    requires Schedule(b, 18) == 0x7da86405 && Schedule(b, 19) == 0x600003c6
    requires Schedule(b, 20) == 0x3e9d7b78 && Schedule(b, 21) == 0x0183fc00
    requires Schedule(b, 22) == 0x12dcbfdb && Schedule(b, 23) == 0xe2e2c38e
    requires Schedule(b, 24) == 0xc8215c1a && Schedule(b, 25) == 0xb73679a2
    requires Schedule(b, 26) == 0xe5bc3909 && Schedule(b, 27) == 0x32663c5b
    requires Schedule(b, 28) == 0x9d209d67 && Schedule(b, 29) == 0xec8726cb
    requires Schedule(b, 30) == 0x702138a4 && Schedule(b, 31) == 0xd3b7973b
    ensures Schedule(b, 32) == 0x93f5997f && Schedule(b, 33) == 0x3b68ba73
    ensures Schedule(b, 34) == 0xaff4ffc1 && Schedule(b, 35) == 0xf10a5c62
    ensures Schedule(b, 36) == 0x0a8b3996 && Schedule(b, 37) == 0x72af830a
    ensures Schedule(b, 38) == 0x9409e33e && Schedule(b, 39) == 0x24641522
  {
    hide Schedule;
    NextWord(b, 32, 0x702138a4, 0xb73679a2, 0x000f0000, 0x61626380, 0x93f5997f);
    NextWord(b, 33, 0xd3b7973b, 0xe5bc3909, 0x7da86405, 0x000f0000, 0x3b68ba73);
    NextWord(b, 34, 0x93f5997f, 0x32663c5b, 0x600003c6, 0x7da86405, 0xaff4ffc1);
    NextWord(b, 35, 0x3b68ba73, 0x9d209d67, 0x3e9d7b78, 0x600003c6, 0xf10a5c62);
    NextWord(b, 36, 0xaff4ffc1, 0xec8726cb, 0x0183fc00, 0x3e9d7b78, 0x0a8b3996);
    NextWord(b, 37, 0xf10a5c62, 0x702138a4, 0x12dcbfdb, 0x0183fc00, 0x72af830a);
    NextWord(b, 38, 0x0a8b3996, 0xd3b7973b, 0xe2e2c38e, 0x12dcbfdb, 0x9409e33e);
    NextWord(b, 39, 0x72af830a, 0x93f5997f, 0xc8215c1a, 0xe2e2c38e, 0x24641522);
  }

  lemma Words40(b: Bytes)
    requires |b| == 64
    requires Schedule(b, 24) == 0xc8215c1a && Schedule(b, 25) == 0xb73679a2
    requires Schedule(b, 26) == 0xe5bc3909 && Schedule(b, 27) == 0x32663c5b
    requires Schedule(b, 28) == 0x9d209d67 && Schedule(b, 29) == 0xec8726cb
    requires Schedule(b, 30) == 0x702138a4 && Schedule(b, 31) == 0xd3b7973b
    requires Schedule(b, 32) == 0x93f5997f && Schedule(b, 33) == 0x3b68ba73
    requires Schedule(b, 34) == 0xaff4ffc1 && Schedule(b, 35) == 0xf10a5c62
    requires Schedule(b, 36) == 0x0a8b3996 && Schedule(b, 37) == 0x72af830a
    requires Schedule(b, 38) == 0x9409e33e && Schedule(b, 39) == 0x24641522
    ensures Schedule(b, 40) == 0x9f47bf94 && Schedule(b, 41) == 0xf0a64f5a
    ensures Schedule(b, 42) == 0x3e246a79 && Schedule(b, 43) == 0x27333ba3
    ensures Schedule(b, 44) == 0x0c4763f2 && Schedule(b, 45) == 0x840abf27
    ensures Schedule(b, 46) == 0x7a290d5d && Schedule(b, 47) == 0x065c43da
  {
    hide Schedule;
    NextWord(b, 40, 0x9409e33e, 0x3b68ba73, 0xb73679a2, 0xc8215c1a, 0x9f47bf94);
    NextWord(b, 41, 0x24641522, 0xaff4ffc1, 0xe5bc3909, 0xb73679a2, 0xf0a64f5a);
    NextWord(b, 42, 0x9f47bf94, 0xf10a5c62, 0x32663c5b, 0xe5bc3909, 0x3e246a79);
    NextWord(b, 43, 0xf0a64f5a, 0x0a8b3996, 0x9d209d67, 0x32663c5b, 0x27333ba3);
    NextWord(b, 44, 0x3e246a79, 0x72af830a, 0xec8726cb, 0x9d209d67, 0x0c4763f2);
    NextWord(b, 45, 0x27333ba3, 0x9409e33e, 0x702138a4, 0xec8726cb, 0x840abf27);
    NextWord(b, 46, 0x0c4763f2, 0x24641522, 0xd3b7973b, 0x702138a4, 0x7a290d5d);
    NextWord(b, 47, 0x840abf27, 0x9f47bf94, 0x93f5997f, 0xd3b7973b, 0x065c43da);
  }

  lemma Words48(b: Bytes)
    requires |b| == 64
    requires Schedule(b, 32) == 0x93f5997f && Schedule(b, 33) == 0x3b68ba73
    requires Schedule(b, 34) == 0xaff4ffc1 && Schedule(b, 35) == 0xf10a5c62
    requires Schedule(b, 36) == 0x0a8b3996 && Schedule(b, 37) == 0x72af830a
    requires Schedule(b, 38) == 0x9409e33e && Schedule(b, 39) == 0x24641522
    requires Schedule(b, 40) == 0x9f47bf94 && Schedule(b, 41) == 0xf0a64f5a
    requires Schedule(b, 42) == 0x3e246a79 && Schedule(b, 43) == 0x27333ba3
    requires Schedule(b, 44) == 0x0c4763f2 && Schedule(b, 45) == 0x840abf27
    requires Schedule(b, 46) == 0x7a290d5d && Schedule(b, 47) == 0x065c43da
    ensures Schedule(b, 48) == 0xfb3e89cb && Schedule(b, 49) == 0xcc7617db
    ensures Schedule(b, 50) == 0xb9e66c34 && Schedule(b, 51) == 0xa9993667
    ensures Schedule(b, 52) == 0x84badedd && Schedule(b, 53) == 0xc21462bc
    ensures Schedule(b, 54) == 0x1487472c && Schedule(b, 55) == 0xb20f7a99
  {
    hide Schedule;
    NextWord(b, 48, 0x7a290d5d, 0xf0a64f5a, 0x3b68ba73, 0x93f5997f, 0xfb3e89cb);
    NextWord(b, 49, 0x065c43da, 0x3e246a79, 0xaff4ffc1, 0x3b68ba73, 0xcc7617db);
    NextWord(b, 50, 0xfb3e89cb, 0x27333ba3, 0xf10a5c62, 0xaff4ffc1, 0xb9e66c34);
    NextWord(b, 51, 0xcc7617db, 0x0c4763f2, 0x0a8b3996, 0xf10a5c62, 0xa9993667);
    NextWord(b, 52, 0xb9e66c34, 0x840abf27, 0x72af830a, 0x0a8b3996, 0x84badedd);
    NextWord(b, 53, 0xa9993667, 0x7a290d5d, 0x9409e33e, 0x72af830a, 0xc21462bc);
    NextWord(b, 54, 0x84badedd, 0x065c43da, 0x24641522, 0x9409e33e, 0x1487472c);
    NextWord(b, 55, 0xc21462bc, 0xfb3e89cb, 0x9f47bf94, 0x24641522, 0xb20f7a99);
  }

  lemma Words56(b: Bytes)
    requires |b| == 64
    requires Schedule(b, 40) == 0x9f47bf94 && Schedule(b, 41) == 0xf0a64f5a
    requires Schedule(b, 42) == 0x3e246a79 && Schedule(b, 43) == 0x27333ba3
    requires Schedule(b, 44) == 0x0c4763f2 && Schedule(b, 45) == 0x840abf27
    requires Schedule(b, 46) == 0x7a290d5d && Schedule(b, 47) == 0x065c43da
    requires Schedule(b, 48) == 0xfb3e89cb && Schedule(b, 49) == 0xcc7617db
    requires Schedule(b, 50) == 0xb9e66c34 && Schedule(b, 51) == 0xa9993667
    requires Schedule(b, 52) == 0x84badedd && Schedule(b, 53) == 0xc21462bc
    requires Schedule(b, 54) == 0x1487472c && Schedule(b, 55) == 0xb20f7a99
    ensures Schedule(b, 56) == 0xef57b9cd && Schedule(b, 57) == 0xebe6b238
    ensures Schedule(b, 58) == 0x9fe3095e && Schedule(b, 59) == 0x78bc8d4b
    ensures Schedule(b, 60) == 0xa43fcf15 && Schedule(b, 61) == 0x668b2ff8
    ensures Schedule(b, 62) == 0xeeaba2cc && Schedule(b, 63) == 0x12b1edeb
  {
    hide Schedule;
    NextWord(b, 56, 0x1487472c, 0xcc7617db, 0xf0a64f5a, 0x9f47bf94, 0xef57b9cd);
    NextWord(b, 57, 0xb20f7a99, 0xb9e66c34, 0x3e246a79, 0xf0a64f5a, 0xebe6b238);
    NextWord(b, 58, 0xef57b9cd, 0xa9993667, 0x27333ba3, 0x3e246a79, 0x9fe3095e);
    NextWord(b, 59, 0xebe6b238, 0x84badedd, 0x0c4763f2, 0x27333ba3, 0x78bc8d4b);
    NextWord(b, 60, 0x9fe3095e, 0xc21462bc, 0x840abf27, 0x0c4763f2, 0xa43fcf15);
    NextWord(b, 61, 0x78bc8d4b, 0x1487472c, 0x7a290d5d, 0x840abf27, 0x668b2ff8);
    NextWord(b, 62, 0xa43fcf15, 0xb20f7a99, 0x065c43da, 0x7a290d5d, 0xeeaba2cc);
    NextWord(b, 63, 0x668b2ff8, 0xef57b9cd, 0xfb3e89cb, 0x065c43da, 0x12b1edeb);
  }

  // --- The constants -------------------------------------------------------------------------

  lemma WordOf(w: Word, n: nat)
    requires w as nat == n
    ensures n < 0x1_0000_0000 && n as Word == w
  {
  }

  lemma ConstantIs(t: nat, k: Word, n: nat)
    requires t < 64 && K(t) == n && k as nat == n
    ensures RoundConstant(t) == k
  {
    hide K;
    WordOf(k, n);
  }

  lemma Constants0()
    ensures RoundConstant(0) == 0x428a2f98 && RoundConstant(1) == 0x71374491
    ensures RoundConstant(2) == 0xb5c0fbcf && RoundConstant(3) == 0xe9b5dba5
    ensures RoundConstant(4) == 0x3956c25b && RoundConstant(5) == 0x59f111f1
    ensures RoundConstant(6) == 0x923f82a4 && RoundConstant(7) == 0xab1c5ed5
  {
    hide RoundConstant;
    ConstantIs(0, 0x428a2f98, 0x428a2f98);
    ConstantIs(1, 0x71374491, 0x71374491);
    ConstantIs(2, 0xb5c0fbcf, 0xb5c0fbcf);
    ConstantIs(3, 0xe9b5dba5, 0xe9b5dba5);
    ConstantIs(4, 0x3956c25b, 0x3956c25b);
    ConstantIs(5, 0x59f111f1, 0x59f111f1);
    ConstantIs(6, 0x923f82a4, 0x923f82a4);
    ConstantIs(7, 0xab1c5ed5, 0xab1c5ed5);
  }

  lemma Constants8()
    ensures RoundConstant(8) == 0xd807aa98 && RoundConstant(9) == 0x12835b01
    ensures RoundConstant(10) == 0x243185be && RoundConstant(11) == 0x550c7dc3
    ensures RoundConstant(12) == 0x72be5d74 && RoundConstant(13) == 0x80deb1fe
    ensures RoundConstant(14) == 0x9bdc06a7 && RoundConstant(15) == 0xc19bf174
  {
    hide RoundConstant;
    ConstantIs(8, 0xd807aa98, 0xd807aa98);
    ConstantIs(9, 0x12835b01, 0x12835b01);
    ConstantIs(10, 0x243185be, 0x243185be);
    ConstantIs(11, 0x550c7dc3, 0x550c7dc3);
    ConstantIs(12, 0x72be5d74, 0x72be5d74);
    ConstantIs(13, 0x80deb1fe, 0x80deb1fe);
    ConstantIs(14, 0x9bdc06a7, 0x9bdc06a7);
    ConstantIs(15, 0xc19bf174, 0xc19bf174);
  }

  lemma Constants16()
    ensures RoundConstant(16) == 0xe49b69c1 && RoundConstant(17) == 0xefbe4786
    ensures RoundConstant(18) == 0x0fc19dc6 && RoundConstant(19) == 0x240ca1cc
    ensures RoundConstant(20) == 0x2de92c6f && RoundConstant(21) == 0x4a7484aa
    ensures RoundConstant(22) == 0x5cb0a9dc && RoundConstant(23) == 0x76f988da
  {
    hide RoundConstant;
    ConstantIs(16, 0xe49b69c1, 0xe49b69c1);
    ConstantIs(17, 0xefbe4786, 0xefbe4786);
    ConstantIs(18, 0x0fc19dc6, 0x0fc19dc6);
    ConstantIs(19, 0x240ca1cc, 0x240ca1cc);
    ConstantIs(20, 0x2de92c6f, 0x2de92c6f);
    ConstantIs(21, 0x4a7484aa, 0x4a7484aa);
    ConstantIs(22, 0x5cb0a9dc, 0x5cb0a9dc);
    ConstantIs(23, 0x76f988da, 0x76f988da);
  }

  lemma Constants24()
    ensures RoundConstant(24) == 0x983e5152 && RoundConstant(25) == 0xa831c66d
    ensures RoundConstant(26) == 0xb00327c8 && RoundConstant(27) == 0xbf597fc7
    ensures RoundConstant(28) == 0xc6e00bf3 && RoundConstant(29) == 0xd5a79147
    ensures RoundConstant(30) == 0x06ca6351 && RoundConstant(31) == 0x14292967
  {
    hide RoundConstant;
    ConstantIs(24, 0x983e5152, 0x983e5152);
    ConstantIs(25, 0xa831c66d, 0xa831c66d);
    ConstantIs(26, 0xb00327c8, 0xb00327c8);
    ConstantIs(27, 0xbf597fc7, 0xbf597fc7);
    ConstantIs(28, 0xc6e00bf3, 0xc6e00bf3);
    ConstantIs(29, 0xd5a79147, 0xd5a79147);
    ConstantIs(30, 0x06ca6351, 0x06ca6351);
    ConstantIs(31, 0x14292967, 0x14292967);
  }

  lemma Constants32()
    ensures RoundConstant(32) == 0x27b70a85 && RoundConstant(33) == 0x2e1b2138
    ensures RoundConstant(34) == 0x4d2c6dfc && RoundConstant(35) == 0x53380d13
    ensures RoundConstant(36) == 0x650a7354 && RoundConstant(37) == 0x766a0abb
    ensures RoundConstant(38) == 0x81c2c92e && RoundConstant(39) == 0x92722c85
  {
    hide RoundConstant;
    ConstantIs(32, 0x27b70a85, 0x27b70a85);
    ConstantIs(33, 0x2e1b2138, 0x2e1b2138);
    ConstantIs(34, 0x4d2c6dfc, 0x4d2c6dfc);
    ConstantIs(35, 0x53380d13, 0x53380d13);
    ConstantIs(36, 0x650a7354, 0x650a7354);
    ConstantIs(37, 0x766a0abb, 0x766a0abb);
    ConstantIs(38, 0x81c2c92e, 0x81c2c92e);
    ConstantIs(39, 0x92722c85, 0x92722c85);
  }

  lemma Constants40()
    ensures RoundConstant(40) == 0xa2bfe8a1 && RoundConstant(41) == 0xa81a664b
    ensures RoundConstant(42) == 0xc24b8b70 && RoundConstant(43) == 0xc76c51a3
    ensures RoundConstant(44) == 0xd192e819 && RoundConstant(45) == 0xd6990624
    ensures RoundConstant(46) == 0xf40e3585 && RoundConstant(47) == 0x106aa070
  {
    hide RoundConstant;
    ConstantIs(40, 0xa2bfe8a1, 0xa2bfe8a1);
    ConstantIs(41, 0xa81a664b, 0xa81a664b);
    ConstantIs(42, 0xc24b8b70, 0xc24b8b70);
    ConstantIs(43, 0xc76c51a3, 0xc76c51a3);
    ConstantIs(44, 0xd192e819, 0xd192e819);
    ConstantIs(45, 0xd6990624, 0xd6990624);
    ConstantIs(46, 0xf40e3585, 0xf40e3585);
    ConstantIs(47, 0x106aa070, 0x106aa070);
  }

  lemma Constants48()
    ensures RoundConstant(48) == 0x19a4c116 && RoundConstant(49) == 0x1e376c08
    ensures RoundConstant(50) == 0x2748774c && RoundConstant(51) == 0x34b0bcb5
    ensures RoundConstant(52) == 0x391c0cb3 && RoundConstant(53) == 0x4ed8aa4a
    ensures RoundConstant(54) == 0x5b9cca4f && RoundConstant(55) == 0x682e6ff3
  {
    hide RoundConstant;
    ConstantIs(48, 0x19a4c116, 0x19a4c116);
    ConstantIs(49, 0x1e376c08, 0x1e376c08);
    ConstantIs(50, 0x2748774c, 0x2748774c);
    ConstantIs(51, 0x34b0bcb5, 0x34b0bcb5);
    ConstantIs(52, 0x391c0cb3, 0x391c0cb3);
    ConstantIs(53, 0x4ed8aa4a, 0x4ed8aa4a);
    ConstantIs(54, 0x5b9cca4f, 0x5b9cca4f);
    ConstantIs(55, 0x682e6ff3, 0x682e6ff3);
  }

  lemma Constants56()
    ensures RoundConstant(56) == 0x748f82ee && RoundConstant(57) == 0x78a5636f
    ensures RoundConstant(58) == 0x84c87814 && RoundConstant(59) == 0x8cc70208
    ensures RoundConstant(60) == 0x90befffa && RoundConstant(61) == 0xa4506ceb
    ensures RoundConstant(62) == 0xbef9a3f7 && RoundConstant(63) == 0xc67178f2
  {
    hide RoundConstant;
    ConstantIs(56, 0x748f82ee, 0x748f82ee);
    ConstantIs(57, 0x78a5636f, 0x78a5636f);
    ConstantIs(58, 0x84c87814, 0x84c87814);
    ConstantIs(59, 0x8cc70208, 0x8cc70208);
    ConstantIs(60, 0x90befffa, 0x90befffa);
    ConstantIs(61, 0xa4506ceb, 0xa4506ceb);
    ConstantIs(62, 0xbef9a3f7, 0xbef9a3f7);
    ConstantIs(63, 0xc67178f2, 0xc67178f2);
  }

  // --- The rounds ----------------------------------------------------------------------------

  const START: Vars := Vars(0x6a09e667, 0xbb67ae85, 0x3c6ef372, 0xa54ff53a, 0x510e527f, 0x9b05688c, 0x1f83d9ab, 0x5be0cd19)

  /** One round computes two new words and moves the other six. */
  lemma NextRound(b: Bytes, t: nat, v: Vars, k: Word, w: Word, a: Word, e: Word) returns (next: Vars)
    requires |b| == 64 && t < 64 && Rounds(START, b, t) == v
    requires RoundConstant(t) == k && Schedule(b, t) == w
    requires Plus(T1(v, k, w), T2(v)) == a && Plus(v.d, T1(v, k, w)) == e
    ensures next == Vars(a, v.a, v.b, v.c, e, v.e, v.f, v.g) && Rounds(START, b, t + 1) == next
  {
    hide Plus, T1, T2, Schedule, RoundConstant;
    next := Vars(a, v.a, v.b, v.c, e, v.e, v.f, v.g);
  }

  lemma Rounds0(b: Bytes)
    requires |b| == 64
    requires Rounds(START, b, 0) == Vars(0x6a09e667, 0xbb67ae85, 0x3c6ef372, 0xa54ff53a, 0x510e527f, 0x9b05688c, 0x1f83d9ab, 0x5be0cd19)
    requires Schedule(b, 0) == 0x61626380 && Schedule(b, 1) == 0
    requires Schedule(b, 2) == 0 && Schedule(b, 3) == 0
    ensures Rounds(START, b, 4) == Vars(0xd550f666, 0xc8c347a7, 0x5a6ad9ad, 0x5d6aebcd, 0x24e00850, 0xf92939eb, 0x78ce7989, 0xfa2a4622)
  {
    Constants0();
    hide Schedule, Rounds, RoundConstant;
    var v := Rounds(START, b, 0);
    v := NextRound(b, 0, v, 0x428a2f98, 0x61626380, 0x5d6aebcd, 0xfa2a4622);
    v := NextRound(b, 1, v, 0x71374491, 0, 0x5a6ad9ad, 0x78ce7989);
    v := NextRound(b, 2, v, 0xb5c0fbcf, 0, 0xc8c347a7, 0xf92939eb);
    v := NextRound(b, 3, v, 0xe9b5dba5, 0, 0xd550f666, 0x24e00850);
  }

  lemma Rounds4(b: Bytes)
    requires |b| == 64
    requires Rounds(START, b, 4) == Vars(0xd550f666, 0xc8c347a7, 0x5a6ad9ad, 0x5d6aebcd, 0x24e00850, 0xf92939eb, 0x78ce7989, 0xfa2a4622)
    requires Schedule(b, 4) == 0 && Schedule(b, 5) == 0
    requires Schedule(b, 6) == 0 && Schedule(b, 7) == 0
    ensures Rounds(START, b, 8) == Vars(0x85a07b5f, 0xe5030380, 0x2b4209f5, 0x04409a6a, 0x0c657a79, 0x9b27a401, 0x714260ad, 0x43ada245)
  {
    Constants0();
    hide Schedule, Rounds, RoundConstant;
    var v := Rounds(START, b, 4);
    v := NextRound(b, 4, v, 0x3956c25b, 0, 0x04409a6a, 0x43ada245);
    v := NextRound(b, 5, v, 0x59f111f1, 0, 0x2b4209f5, 0x714260ad);
    v := NextRound(b, 6, v, 0x923f82a4, 0, 0xe5030380, 0x9b27a401);
    v := NextRound(b, 7, v, 0xab1c5ed5, 0, 0x85a07b5f, 0x0c657a79);
  }

  lemma Rounds8(b: Bytes)
    requires |b| == 64
    requires Rounds(START, b, 8) == Vars(0x85a07b5f, 0xe5030380, 0x2b4209f5, 0x04409a6a, 0x0c657a79, 0x9b27a401, 0x714260ad, 0x43ada245)
    requires Schedule(b, 8) == 0 && Schedule(b, 9) == 0
    requires Schedule(b, 10) == 0 && Schedule(b, 11) == 0
    ensures Rounds(START, b, 12) == Vars(0xf71fc5a9, 0x4798a3f4, 0x8c87346b, 0x8e04ecb9, 0x816fd6e9, 0x436b23e8, 0x1cc92596, 0x32ca2d8c)
  {
    Constants8();
    hide Schedule, Rounds, RoundConstant;
    var v := Rounds(START, b, 8);
    v := NextRound(b, 8, v, 0xd807aa98, 0, 0x8e04ecb9, 0x32ca2d8c);
    v := NextRound(b, 9, v, 0x12835b01, 0, 0x8c87346b, 0x1cc92596);
    v := NextRound(b, 10, v, 0x243185be, 0, 0x4798a3f4, 0x436b23e8);
    v := NextRound(b, 11, v, 0x550c7dc3, 0, 0xf71fc5a9, 0x816fd6e9);
  }

  lemma Rounds12(b: Bytes)
    requires |b| == 64
    requires Rounds(START, b, 12) == Vars(0xf71fc5a9, 0x4798a3f4, 0x8c87346b, 0x8e04ecb9, 0x816fd6e9, 0x436b23e8, 0x1cc92596, 0x32ca2d8c)
    requires Schedule(b, 12) == 0 && Schedule(b, 13) == 0
    requires Schedule(b, 14) == 0 && Schedule(b, 15) == 0x18
    ensures Rounds(START, b, 16) == Vars(0xb0fa238e, 0xc0645fde, 0xd932eb16, 0x87912990, 0x07590dcd, 0x0b92f20c, 0x745a48de, 0x1e578218)
  {
    Constants8();
    hide Schedule, Rounds, RoundConstant;
    var v := Rounds(START, b, 12);
    v := NextRound(b, 12, v, 0x72be5d74, 0, 0x87912990, 0x1e578218);
    v := NextRound(b, 13, v, 0x80deb1fe, 0, 0xd932eb16, 0x745a48de);
    v := NextRound(b, 14, v, 0x9bdc06a7, 0, 0xc0645fde, 0x0b92f20c);
    v := NextRound(b, 15, v, 0xc19bf174, 0x18, 0xb0fa238e, 0x07590dcd);
  }

  lemma Rounds16(b: Bytes)
    requires |b| == 64
    requires Rounds(START, b, 16) == Vars(0xb0fa238e, 0xc0645fde, 0xd932eb16, 0x87912990, 0x07590dcd, 0x0b92f20c, 0x745a48de, 0x1e578218)
    requires Schedule(b, 16) == 0x61626380 && Schedule(b, 17) == 0x000f0000
    requires Schedule(b, 18) == 0x7da86405 && Schedule(b, 19) == 0x600003c6
    ensures Rounds(START, b, 20) == Vars(0xe1f20c33, 0xfe777bbf, 0xc2fbd9d1, 0x21da9a9b, 0xb0638179, 0xcc899961, 0x846ee454, 0x8034229c)
  {
    Constants16();
    hide Schedule, Rounds, RoundConstant;
    var v := Rounds(START, b, 16);
    v := NextRound(b, 16, v, 0xe49b69c1, 0x61626380, 0x21da9a9b, 0x8034229c);
    v := NextRound(b, 17, v, 0xefbe4786, 0x000f0000, 0xc2fbd9d1, 0x846ee454);
    v := NextRound(b, 18, v, 0x0fc19dc6, 0x7da86405, 0xfe777bbf, 0xcc899961);
    v := NextRound(b, 19, v, 0x240ca1cc, 0x600003c6, 0xe1f20c33, 0xb0638179);
  }

  lemma Rounds20(b: Bytes)
    requires |b| == 64
    requires Rounds(START, b, 20) == Vars(0xe1f20c33, 0xfe777bbf, 0xc2fbd9d1, 0x21da9a9b, 0xb0638179, 0xcc899961, 0x846ee454, 0x8034229c)
    requires Schedule(b, 20) == 0x3e9d7b78 && Schedule(b, 21) == 0x0183fc00
    requires Schedule(b, 22) == 0x12dcbfdb && Schedule(b, 23) == 0xe2e2c38e
    ensures Rounds(START, b, 24) == Vars(0xc5d53d8d, 0xa7a3623f, 0xc2606d6d, 0x9dc68b63, 0xaa47c347, 0x49f5114a, 0xe1257970, 0x8ada8930)
  {
    Constants16();
    hide Schedule, Rounds, RoundConstant;
    var v := Rounds(START, b, 20);
    v := NextRound(b, 20, v, 0x2de92c6f, 0x3e9d7b78, 0x9dc68b63, 0x8ada8930);
    v := NextRound(b, 21, v, 0x4a7484aa, 0x0183fc00, 0xc2606d6d, 0xe1257970);
    v := NextRound(b, 22, v, 0x5cb0a9dc, 0x12dcbfdb, 0xa7a3623f, 0x49f5114a);
    v := NextRound(b, 23, v, 0x76f988da, 0xe2e2c38e, 0xc5d53d8d, 0xaa47c347);
  }

  lemma Rounds24(b: Bytes)
    requires |b| == 64
    requires Rounds(START, b, 24) == Vars(0xc5d53d8d, 0xa7a3623f, 0xc2606d6d, 0x9dc68b63, 0xaa47c347, 0x49f5114a, 0xe1257970, 0x8ada8930)
    requires Schedule(b, 24) == 0xc8215c1a && Schedule(b, 25) == 0xb73679a2
    requires Schedule(b, 26) == 0xe5bc3909 && Schedule(b, 27) == 0x32663c5b
    ensures Rounds(START, b, 28) == Vars(0x77d37528, 0xb62ec4bc, 0xcde8037d, 0x1c2c2838, 0xedffbff8, 0xc74c6516, 0x14383d8e, 0x2823ef91)
  {
    Constants24();
    hide Schedule, Rounds, RoundConstant;
    var v := Rounds(START, b, 24);
    v := NextRound(b, 24, v, 0x983e5152, 0xc8215c1a, 0x1c2c2838, 0x2823ef91);
    v := NextRound(b, 25, v, 0xa831c66d, 0xb73679a2, 0xcde8037d, 0x14383d8e);
    v := NextRound(b, 26, v, 0xb00327c8, 0xe5bc3909, 0xb62ec4bc, 0xc74c6516);
    v := NextRound(b, 27, v, 0xbf597fc7, 0x32663c5b, 0x77d37528, 0xedffbff8);
  }

  lemma Rounds28(b: Bytes)
    requires |b| == 64
    requires Rounds(START, b, 28) == Vars(0x77d37528, 0xb62ec4bc, 0xcde8037d, 0x1c2c2838, 0xedffbff8, 0xc74c6516, 0x14383d8e, 0x2823ef91)
    requires Schedule(b, 28) == 0x9d209d67 && Schedule(b, 29) == 0xec8726cb
    requires Schedule(b, 30) == 0x702138a4 && Schedule(b, 31) == 0xd3b7973b
    ensures Rounds(START, b, 32) == Vars(0x73b33bf5, 0xea992a22, 0xa0060b30, 0x363482c9, 0xba591112, 0x0109ab3a, 0xade79437, 0x6112a3b7)
  {
    Constants24();
    hide Schedule, Rounds, RoundConstant;
    var v := Rounds(START, b, 28);
    v := NextRound(b, 28, v, 0xc6e00bf3, 0x9d209d67, 0x363482c9, 0x6112a3b7);
    v := NextRound(b, 29, v, 0xd5a79147, 0xec8726cb, 0xa0060b30, 0xade79437);
    v := NextRound(b, 30, v, 0x06ca6351, 0x702138a4, 0xea992a22, 0x0109ab3a);
    v := NextRound(b, 31, v, 0x14292967, 0xd3b7973b, 0x73b33bf5, 0xba591112);
  }

  lemma Rounds32(b: Bytes)
    requires |b| == 64
    requires Rounds(START, b, 32) == Vars(0x73b33bf5, 0xea992a22, 0xa0060b30, 0x363482c9, 0xba591112, 0x0109ab3a, 0xade79437, 0x6112a3b7)
    requires Schedule(b, 32) == 0x93f5997f && Schedule(b, 33) == 0x3b68ba73
    requires Schedule(b, 34) == 0xaff4ffc1 && Schedule(b, 35) == 0xf10a5c62
    ensures Rounds(START, b, 36) == Vars(0x65a0cfe4, 0xa9a7738c, 0xfe604df5, 0x98e12507, 0xf4b002d6, 0x085f3833, 0x59249dd3, 0x9cd9f5f6)
  {
    Constants32();
    hide Schedule, Rounds, RoundConstant;
    var v := Rounds(START, b, 32);
    v := NextRound(b, 32, v, 0x27b70a85, 0x93f5997f, 0x98e12507, 0x9cd9f5f6);
    v := NextRound(b, 33, v, 0x2e1b2138, 0x3b68ba73, 0xfe604df5, 0x59249dd3);
    v := NextRound(b, 34, v, 0x4d2c6dfc, 0xaff4ffc1, 0xa9a7738c, 0x085f3833);
    v := NextRound(b, 35, v, 0x53380d13, 0xf10a5c62, 0x65a0cfe4, 0xf4b002d6);
  }

  lemma Rounds36(b: Bytes)
    requires |b| == 64
    requires Rounds(START, b, 36) == Vars(0x65a0cfe4, 0xa9a7738c, 0xfe604df5, 0x98e12507, 0xf4b002d6, 0x085f3833, 0x59249dd3, 0x9cd9f5f6)
    requires Schedule(b, 36) == 0x0a8b3996 && Schedule(b, 37) == 0x72af830a
    requires Schedule(b, 38) == 0x9409e33e && Schedule(b, 39) == 0x24641522
    ensures Rounds(START, b, 40) == Vars(0x79ea687a, 0x6dc57a8a, 0x34df1604, 0x41a65cb1, 0x1efbc0a0, 0xf0781bc8, 0xa507a53d, 0x0772a26b)
  {
    Constants32();
    hide Schedule, Rounds, RoundConstant;
    var v := Rounds(START, b, 36);
    v := NextRound(b, 36, v, 0x650a7354, 0x0a8b3996, 0x41a65cb1, 0x0772a26b);
    v := NextRound(b, 37, v, 0x766a0abb, 0x72af830a, 0x34df1604, 0xa507a53d);
    v := NextRound(b, 38, v, 0x81c2c92e, 0x9409e33e, 0x6dc57a8a, 0xf0781bc8);
    v := NextRound(b, 39, v, 0x92722c85, 0x24641522, 0x79ea687a, 0x1efbc0a0);
  }

  lemma Rounds40(b: Bytes)
    requires |b| == 64
    requires Rounds(START, b, 40) == Vars(0x79ea687a, 0x6dc57a8a, 0x34df1604, 0x41a65cb1, 0x1efbc0a0, 0xf0781bc8, 0xa507a53d, 0x0772a26b)
    requires Schedule(b, 40) == 0x9f47bf94 && Schedule(b, 41) == 0xf0a64f5a
    requires Schedule(b, 42) == 0x3e246a79 && Schedule(b, 43) == 0x27333ba3
    ensures Rounds(START, b, 44) == Vars(0x9d4baf93, 0x17aa0dfe, 0xdf46652f, 0xd6670766, 0xfda24c2e, 0xdecd4715, 0x838b2711, 0x26352d63)
  {
    Constants40();
    hide Schedule, Rounds, RoundConstant;
    var v := Rounds(START, b, 40);
    v := NextRound(b, 40, v, 0xa2bfe8a1, 0x9f47bf94, 0xd6670766, 0x26352d63);
    v := NextRound(b, 41, v, 0xa81a664b, 0xf0a64f5a, 0xdf46652f, 0x838b2711);
    v := NextRound(b, 42, v, 0xc24b8b70, 0x3e246a79, 0x17aa0dfe, 0xdecd4715);
    v := NextRound(b, 43, v, 0xc76c51a3, 0x27333ba3, 0x9d4baf93, 0xfda24c2e);
  }

  lemma Rounds44(b: Bytes)
    requires |b| == 64
    requires Rounds(START, b, 44) == Vars(0x9d4baf93, 0x17aa0dfe, 0xdf46652f, 0xd6670766, 0xfda24c2e, 0xdecd4715, 0x838b2711, 0x26352d63)
    requires Schedule(b, 44) == 0x0c4763f2 && Schedule(b, 45) == 0x840abf27
    requires Schedule(b, 46) == 0x7a290d5d && Schedule(b, 47) == 0x065c43da
    ensures Rounds(START, b, 48) == Vars(0x4172328d, 0xa14c14b0, 0x72ab4b91, 0x26628815, 0xfecf0bc6, 0xd57b94a9, 0xb7755da1, 0xa80f11f0)
  {
    Constants40();
    hide Schedule, Rounds, RoundConstant;
    var v := Rounds(START, b, 44);
    v := NextRound(b, 44, v, 0xd192e819, 0x0c4763f2, 0x26628815, 0xa80f11f0);
    v := NextRound(b, 45, v, 0xd6990624, 0x840abf27, 0x72ab4b91, 0xb7755da1);
    v := NextRound(b, 46, v, 0xf40e3585, 0x7a290d5d, 0xa14c14b0, 0xd57b94a9);
    v := NextRound(b, 47, v, 0x106aa070, 0x065c43da, 0x4172328d, 0xfecf0bc6);
  }

  lemma Rounds48(b: Bytes)
    requires |b| == 64
    requires Rounds(START, b, 48) == Vars(0x4172328d, 0xa14c14b0, 0x72ab4b91, 0x26628815, 0xfecf0bc6, 0xd57b94a9, 0xb7755da1, 0xa80f11f0)
    requires Schedule(b, 48) == 0xfb3e89cb && Schedule(b, 49) == 0xcc7617db
    requires Schedule(b, 50) == 0xb9e66c34 && Schedule(b, 51) == 0xa9993667
    ensures Rounds(START, b, 52) == Vars(0x886e7a22, 0x7a0508a1, 0xf11bfaa8, 0x05757ceb, 0x49231c1e, 0x52f1ccf7, 0x6e5c390c, 0xbd714038)
  {
    Constants48();
    hide Schedule, Rounds, RoundConstant;
    var v := Rounds(START, b, 48);
    v := NextRound(b, 48, v, 0x19a4c116, 0xfb3e89cb, 0x05757ceb, 0xbd714038);
    v := NextRound(b, 49, v, 0x1e376c08, 0xcc7617db, 0xf11bfaa8, 0x6e5c390c);
    v := NextRound(b, 50, v, 0x2748774c, 0xb9e66c34, 0x7a0508a1, 0x52f1ccf7);
    v := NextRound(b, 51, v, 0x34b0bcb5, 0xa9993667, 0x886e7a22, 0x49231c1e);
  }

  lemma Rounds52(b: Bytes)
    requires |b| == 64
    requires Rounds(START, b, 52) == Vars(0x886e7a22, 0x7a0508a1, 0xf11bfaa8, 0x05757ceb, 0x49231c1e, 0x52f1ccf7, 0x6e5c390c, 0xbd714038)
    requires Schedule(b, 52) == 0x84badedd && Schedule(b, 53) == 0xc21462bc
    requires Schedule(b, 54) == 0x1487472c && Schedule(b, 55) == 0xb20f7a99
    ensures Rounds(START, b, 56) == Vars(0x38cc9913, 0x3ec45cdb, 0xf5702fdb, 0x101fd28f, 0x54cb266b, 0xe50e1b4f, 0x9f4787c3, 0x529e7d00)
  {
    Constants48();
    hide Schedule, Rounds, RoundConstant;
    var v := Rounds(START, b, 52);
    v := NextRound(b, 52, v, 0x391c0cb3, 0x84badedd, 0x101fd28f, 0x529e7d00);
    v := NextRound(b, 53, v, 0x4ed8aa4a, 0xc21462bc, 0xf5702fdb, 0x9f4787c3);
    v := NextRound(b, 54, v, 0x5b9cca4f, 0x1487472c, 0x3ec45cdb, 0xe50e1b4f);
    v := NextRound(b, 55, v, 0x682e6ff3, 0xb20f7a99, 0x38cc9913, 0x54cb266b);
  }

  lemma Rounds56(b: Bytes)
    requires |b| == 64
    requires Rounds(START, b, 56) == Vars(0x38cc9913, 0x3ec45cdb, 0xf5702fdb, 0x101fd28f, 0x54cb266b, 0xe50e1b4f, 0x9f4787c3, 0x529e7d00)
    requires Schedule(b, 56) == 0xef57b9cd && Schedule(b, 57) == 0xebe6b238
    requires Schedule(b, 58) == 0x9fe3095e && Schedule(b, 59) == 0x78bc8d4b
    ensures Rounds(START, b, 60) == Vars(0xb6ae8fff, 0xffb70472, 0xc062d46f, 0xfcd1887b, 0xb21bad3d, 0x6d83bfc6, 0x7e44008e, 0x9b5e906c)
  {
    Constants56();
    hide Schedule, Rounds, RoundConstant;
    var v := Rounds(START, b, 56);
    v := NextRound(b, 56, v, 0x748f82ee, 0xef57b9cd, 0xfcd1887b, 0x9b5e906c);
    v := NextRound(b, 57, v, 0x78a5636f, 0xebe6b238, 0xc062d46f, 0x7e44008e);
    v := NextRound(b, 58, v, 0x84c87814, 0x9fe3095e, 0xffb70472, 0x6d83bfc6);
    v := NextRound(b, 59, v, 0x8cc70208, 0x78bc8d4b, 0xb6ae8fff, 0xb21bad3d);
  }

  lemma Rounds60(b: Bytes)
    requires |b| == 64
    requires Rounds(START, b, 60) == Vars(0xb6ae8fff, 0xffb70472, 0xc062d46f, 0xfcd1887b, 0xb21bad3d, 0x6d83bfc6, 0x7e44008e, 0x9b5e906c)
    requires Schedule(b, 60) == 0xa43fcf15 && Schedule(b, 61) == 0x668b2ff8
    requires Schedule(b, 62) == 0xeeaba2cc && Schedule(b, 63) == 0x12b1edeb
    ensures Rounds(START, b, 64) == Vars(0x506e3058, 0xd39a2165, 0x04d24d6c, 0xb85e2ce9, 0x5ef50f24, 0xfb121210, 0x948d25b6, 0x961f4894)
  {
    Constants56();
    hide Schedule, Rounds, RoundConstant;
    var v := Rounds(START, b, 60);
    v := NextRound(b, 60, v, 0x90befffa, 0xa43fcf15, 0xb85e2ce9, 0x961f4894);
    v := NextRound(b, 61, v, 0xa4506ceb, 0x668b2ff8, 0x04d24d6c, 0x948d25b6);
    v := NextRound(b, 62, v, 0xbef9a3f7, 0xeeaba2cc, 0xd39a2165, 0xfb121210);
    v := NextRound(b, 63, v, 0xc67178f2, 0x12b1edeb, 0x506e3058, 0x5ef50f24);
  }

  lemma LastRound(b: Bytes)
    requires IsBlock(b)
    ensures Rounds(START, b, 64) == Vars(0x506e3058, 0xd39a2165, 0x04d24d6c, 0xb85e2ce9, 0x5ef50f24, 0xfb121210, 0x948d25b6, 0x961f4894)
  {
    hide Schedule, Rounds;
    FirstWords(b);
    Words16(b);
    Words24(b);
    Words32(b);
    Words40(b);
    Words48(b);
    Words56(b);
    assert Rounds(START, b, 0) == START by { NoRounds(b); }
    Rounds0(b);
    Rounds4(b);
    Rounds8(b);
    Rounds12(b);
    Rounds16(b);
    Rounds20(b);
    Rounds24(b);
    Rounds28(b);
    Rounds32(b);
    Rounds36(b);
    Rounds40(b);
    Rounds44(b);
    Rounds48(b);
    Rounds52(b);
    Rounds56(b);
    Rounds60(b);
  }

  lemma NoRounds(b: Bytes)
    requires |b| == 64
    ensures Rounds(START, b, 0) == START
  {
  }

  // --- The hash ------------------------------------------------------------------------------

  lemma InitialIs()
    ensures AsVars(Initial()) == START
  {
    WordOf(0x6a09e667, 0x6a09e667);
    WordOf(0xbb67ae85, 0xbb67ae85);
    WordOf(0x3c6ef372, 0x3c6ef372);
    WordOf(0xa54ff53a, 0xa54ff53a);
    WordOf(0x510e527f, 0x510e527f);
    WordOf(0x9b05688c, 0x9b05688c);
    WordOf(0x1f83d9ab, 0x1f83d9ab);
    WordOf(0x5be0cd19, 0x5be0cd19);
  }

  lemma HashWords(b: Bytes)
    requires IsBlock(b)
    ensures Folded(b) == [
      0xba7816bf, 0x8f01cfea, 0x414140de, 0x5dae2223, 0xb00361a3, 0x96177a9c, 0xb410ff61, 0xf20015ad]
  {
    hide Rounds, Initial;
    LastRound(b);
    InitialIs();
    assert b[..0] == [] && b[0..] == b;
    assert Folded(b) == Compressed(Initial(), b);
  }


  lemma DigestStep(s: seq<Word>, i: nat, w: Word, b0: Byte, b1: Byte, b2: Byte, b3: Byte, rest: Bytes)
    requires |s| == 8 && i < 8 && s[i] == w && DigestFrom(s, i + 1) == rest
    requires w == (b0 as Word << 24) | (b1 as Word << 16) | (b2 as Word << 8) | (b3 as Word)
    ensures DigestFrom(s, i) == [b0, b1, b2, b3] + rest
  {
  }

  lemma DigestIs(s: seq<Word>)
    requires s == [
      0xba7816bf, 0x8f01cfea, 0x414140de, 0x5dae2223, 0xb00361a3, 0x96177a9c, 0xb410ff61, 0xf20015ad]
    ensures DigestFrom(s, 0) == [
      0xba, 0x78, 0x16, 0xbf, 0x8f, 0x01, 0xcf, 0xea, 0x41, 0x41, 0x40, 0xde, 0x5d, 0xae, 0x22, 0x23,
      0xb0, 0x03, 0x61, 0xa3, 0x96, 0x17, 0x7a, 0x9c, 0xb4, 0x10, 0xff, 0x61, 0xf2, 0x00, 0x15, 0xad]
  {
    hide DigestFrom;
    assert DigestFrom(s, 8) == [] by { NoWords(s); }
    DigestStep(s, 7, 0xf20015ad, 0xf2, 0x00, 0x15, 0xad, DigestFrom(s, 8));
    DigestStep(s, 6, 0xb410ff61, 0xb4, 0x10, 0xff, 0x61, DigestFrom(s, 7));
    DigestStep(s, 5, 0x96177a9c, 0x96, 0x17, 0x7a, 0x9c, DigestFrom(s, 6));
    DigestStep(s, 4, 0xb00361a3, 0xb0, 0x03, 0x61, 0xa3, DigestFrom(s, 5));
    DigestStep(s, 3, 0x5dae2223, 0x5d, 0xae, 0x22, 0x23, DigestFrom(s, 4));
    DigestStep(s, 2, 0x414140de, 0x41, 0x41, 0x40, 0xde, DigestFrom(s, 3));
    DigestStep(s, 1, 0x8f01cfea, 0x8f, 0x01, 0xcf, 0xea, DigestFrom(s, 2));
    DigestStep(s, 0, 0xba7816bf, 0xba, 0x78, 0x16, 0xbf, DigestFrom(s, 1));
  }

  lemma NoWords(s: seq<Word>)
    requires |s| == 8
    ensures DigestFrom(s, 8) == []
  {
  }

  /** Main result: the hash of "abc". */
  lemma HashOfAbc()
    ensures Hash(ABC) == [
      0xba, 0x78, 0x16, 0xbf, 0x8f, 0x01, 0xcf, 0xea, 0x41, 0x41, 0x40, 0xde, 0x5d, 0xae, 0x22, 0x23,
      0xb0, 0x03, 0x61, 0xa3, 0x96, 0x17, 0x7a, 0x9c, 0xb4, 0x10, 0xff, 0x61, 0xf2, 0x00, 0x15, 0xad]
  {
    hide Folded, Padded, DigestFrom;
    PaddedIs();
    HashWords(Padded(ABC));
    DigestIs(Folded(Padded(ABC)));
  }
}
