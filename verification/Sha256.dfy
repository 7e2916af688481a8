/**
 The incremental SHA-256 of crates/whirl-core/src/protocol.rs:1100-1248: a hash state and up to 63
 pending bytes, updated in place, proved against the standard's definition in Sha256Spec.
 */
module Sha256 {
  import Basics
  import opened CachePaths
  import opened Octets
  import opened Sha256Spec

  // --- One block ------------------------------------------------------------------------

  /** The same sum in the order the source adds. */
  lemma SumInOrder(a: Word, b: Word, c: Word, d: Word)
    ensures Sum4(a, b, c, d) == Sum4(d, c, b, a)
  {
  }

  function Sigma0(w: Word): Word { Xor(Xor(w.RotateRight(7), w.RotateRight(18)), w >> 3) }

  function Sigma1(w: Word): Word { Xor(Xor(w.RotateRight(17), w.RotateRight(19)), w >> 10) }

  function Sum0(w: Word): Word { Xor(Xor(w.RotateRight(2), w.RotateRight(13)), w.RotateRight(22)) }

  function Sum1(w: Word): Word { Xor(Xor(w.RotateRight(6), w.RotateRight(11)), w.RotateRight(25)) }

  lemma Sigmas(w: Word)
    ensures Sigma0(w) == SmallSigma0(w) && Sigma1(w) == SmallSigma1(w)
    ensures Sum0(w) == BigSigma0(w) && Sum1(w) == BigSigma1(w)
  {
    assert w.RotateRight(7) == Rotr7(w) && w.RotateRight(18) == Rotr18(w);
    assert w.RotateRight(17) == Rotr17(w) && w.RotateRight(19) == Rotr19(w);
    assert w.RotateRight(6) == Rotr6(w) && w.RotateRight(11) == Rotr11(w) && w.RotateRight(25) == Rotr25(w);
    assert w.RotateRight(2) == Rotr2(w) && w.RotateRight(13) == Rotr13(w) && w.RotateRight(22) == Rotr22(w);
  }

  /** The source's expression for a later schedule word. */
  function NextWord(w16: Word, w15: Word, w7: Word, w2: Word): Word
  {
    Sum4(w16, Sigma0(w15), w7, Sigma1(w2))
  }

  lemma ScheduleIs(block: seq<Byte>, t: nat)
    requires |block| == 64 && 16 <= t
    ensures
      Schedule(block, t) == Sum4(SmallSigma1(Schedule(block, t - 2)), Schedule(block, t - 7),
                                 SmallSigma0(Schedule(block, t - 15)), Schedule(block, t - 16))
  {
    hide SmallSigma0, SmallSigma1, Sum4, BlockWord;
  }

  lemma NextWordIsScheduled(block: seq<Byte>, t: nat)
    requires |block| == 64 && 16 <= t < 64
    ensures
      NextWord(Schedule(block, t - 16), Schedule(block, t - 15), Schedule(block, t - 7), Schedule(block, t - 2))
      == Schedule(block, t)
  {
    hide SmallSigma0, SmallSigma1, Sum4, Schedule, Sigma0, Sigma1, BigSigma0, BigSigma1, Sum0, Sum1;
    var w16, w15 := Schedule(block, t - 16), Schedule(block, t - 15);
    var w7, w2 := Schedule(block, t - 7), Schedule(block, t - 2);
    Sigmas(w15);
    Sigmas(w2);
    ScheduleIs(block, t);
    SumInOrder(w16, SmallSigma0(w15), w7, SmallSigma1(w2));
  }

  /** Expand a block into the 64 words of its schedule. */
  method Expand(chunk: seq<Byte>) returns (w: array<Word>)
    requires |chunk| == 64
    ensures fresh(w) && w.Length == 64 && forall t :: 0 <= t < 64 ==> w[t] == Schedule(chunk, t)
  {
    hide BlockWord, NextWord;
    w := new Word[64];
    for index := 0 to 16
      invariant forall t :: 0 <= t < index ==> w[t] == Schedule(chunk, t)
    {
      w[index] := BlockWord(chunk, index);
    }
    for index := 16 to 64
      invariant forall t :: 0 <= t < index ==> w[t] == Schedule(chunk, t)
    {
      hide Schedule;
      NextWordIsScheduled(chunk, index);
      w[index] := NextWord(w[index - 16], w[index - 15], w[index - 7], w[index - 2]);
    }
  }

  /** The source's two temporaries of one round. */
  function Temp1(v4: Word, v5: Word, v6: Word, v7: Word, k: Word, w: Word): Word
  {
    Plus(Plus(Plus(Plus(v7, Sum1(v4)), Xor(v4 & v5, !v4 & v6)), k), w)
  }

  function Temp2(v0: Word, v1: Word, v2: Word): Word { Plus(Sum0(v0), Xor(Xor(v0 & v1, v0 & v2), v1 & v2)) }

  lemma TempsAreTs(v: Vars, k: Word, w: Word)
    ensures Temp1(v.e, v.f, v.g, v.h, k, w) == T1(v, k, w) && Temp2(v.a, v.b, v.c) == T2(v)
  {
    hide BigSigma0, BigSigma1, Sum0, Sum1, Xor, Plus, SmallSigma0, SmallSigma1, Sigma0, Sigma1;
    Sigmas(v.e);
    Sigmas(v.a);
  }

  /** One round, in place. */
  method OneRound(v: array<Word>, k: Word, w: Word)
    requires v.Length == 8
    modifies v
    ensures AsVars(v[..]) == Round(old(AsVars(v[..])), k, w)
  {
    hide T1, T2, Temp1, Temp2, Plus;
    TempsAreTs(AsVars(v[..]), k, w);
    var temp1 := Temp1(v[4], v[5], v[6], v[7], k, w);
    var temp2 := Temp2(v[0], v[1], v[2]);
    v[7] := v[6];
    v[6] := v[5];
    v[5] := v[4];
    v[4] := Plus(v[3], temp1);
    v[3] := v[2];
    v[2] := v[1];
    v[1] := v[0];
    v[0] := Plus(temp1, temp2);
  }

  /** The compression function, in place on the eight state words. */
  method Compress(state: array<Word>, chunk: seq<Byte>)
    requires state.Length == 8 && |chunk| == 64
    modifies state
    ensures state[..] == Compressed(old(state[..]), chunk)
  {
    hide Schedule, Round, RoundConstant, Plus, Compressed;
    var w := Expand(chunk);
    var v := new Word[8];
    for i := 0 to 8
      invariant forall j :: 0 <= j < i ==> v[j] == state[j]
      invariant unchanged(state) && forall t :: 0 <= t < 64 ==> w[t] == Schedule(chunk, t)
    {
      v[i] := state[i];
    }
    ghost var start := AsVars(state[..]);
    assert AsVars(v[..]) == start == Rounds(start, chunk, 0);
    for index := 0 to 64
      invariant unchanged(state) && fresh(v) && fresh(w) && v != w
      invariant forall t :: 0 <= t < 64 ==> w[t] == Schedule(chunk, t)
      invariant AsVars(v[..]) == Rounds(start, chunk, index)
    {
      OneRound(v, RoundConstant(index), w[index]);
    }
    AddInto(state, v);
    SumsAreCompressed(old(state[..]), v[..], state[..], chunk);
  }

  lemma SumsAreCompressed(s: seq<Word>, v: seq<Word>, r: seq<Word>, block: seq<Byte>)
    requires |s| == |v| == |r| == 8 && |block| == 64
    requires forall j :: 0 <= j < 8 ==> r[j] == Plus(s[j], v[j])
    requires AsVars(v) == Rounds(AsVars(s), block, 64)
    ensures r == Compressed(s, block)
  {
    hide Plus, Rounds;
  }

  method AddInto(state: array<Word>, v: array<Word>)
    requires state.Length == 8 && v.Length == 8 && state != v
    modifies state
    ensures forall j :: 0 <= j < 8 ==> state[j] == Plus(old(state[j]), v[j])
  {
    hide Plus;
    for index := 0 to 8
      invariant forall j :: 0 <= j < index ==> state[j] == Plus(old(state[j]), v[j])
      invariant forall j :: index <= j < 8 ==> state[j] == old(state[j])
    {
      state[index] := Plus(state[index], v[index]);
    }
  }

  // --- Streams --------------------------------------------------------------------------

  /** One block more in front of the fold. */
  lemma FoldedStep(data: seq<Byte>, block: seq<Byte>)
    requires |data| % 64 == 0 && |block| == 64
    ensures |data + block| % 64 == 0 && Folded(data + block) == Compressed(Folded(data), block)
  {
    hide Compressed;
    var all := data + block;
    assert all[..|all| - 64] == data && all[|all| - 64..] == block;
  }

  /** Fold whole blocks of a sequence into a state that has folded `before`. */
  method CompressAll(state: array<Word>, data: seq<Byte>, ghost before: seq<Byte>) returns (n: nat)
    requires state.Length == 8 && |before| % 64 == 0 && state[..] == Folded(before)
    modifies state
    ensures n == |data| / 64 * 64 && |before + data[..n]| % 64 == 0 && state[..] == Folded(before + data[..n])
  {
    hide Folded, Compressed;
    n := 0;
    assert before + data[..0] == before;
    while n + 64 <= |data|
      invariant n <= |data| && n % 64 == 0 && |before + data[..n]| % 64 == 0
      invariant state[..] == Folded(before + data[..n])
    {
      Compress(state, data[n..n + 64]);
      FoldedStep(before + data[..n], data[n..n + 64]);
      assert before + data[..n] + data[n..n + 64] == before + data[..n + 64];
      n := n + 64;
    }
  }

  /** The bytes of the complete blocks are folded in, and the others, fewer than a block, are pending. */
  predicate Represents(words: seq<Word>, pending: seq<Byte>, fed: seq<Byte>)
  {
    var cut := |fed| - |pending|;
    && |pending| < 64
    && cut >= 0 && cut % 64 == 0
    && fed[cut..] == pending
    && words == Folded(fed[..cut])
  }

  class Hasher {
    const state: array<Word>
    var pending: seq<Byte>
    var length: nat
    /** Everything fed so far. */
    ghost var fed: seq<Byte>

    ghost predicate Valid()
      reads this, state
    {
      state.Length == 8 && length == |fed| % TWO64 && Represents(state[..], pending, fed)
    }

    constructor ()
      ensures Valid() && fresh(state) && fed == []
    {
      state := new Word[8](i requires 0 <= i < 8 => H[i] as Word);
      pending, length, fed := [], 0, [];
      new;
      assert state[..] == Initial();
    }

    /** Top up the pending bytes; a block that completes is folded in. Returns how many bytes were taken. */
    method TopUp(data: seq<Byte>, ghost before: seq<Byte>) returns (take: nat, ghost after: seq<Byte>)
      requires state.Length == 8 && 0 < |pending| < 64
      requires |before| % 64 == 0 && state[..] == Folded(before)
      modifies this`pending, state
      ensures take <= |data| && |pending| < 64 && (pending == [] || take == |data|)
      ensures |after| % 64 == 0 && state[..] == Folded(after)
      ensures after + pending == before + old(pending) + data[..take]
    {
      hide Folded, Compressed;
      var want := 64 - |pending|;
      take := if want < |data| then want else |data|;
      ghost var was := pending;
      pending := pending + data[..take];
      after := before;
      assert before + (was + data[..take]) == before + was + data[..take];
      if |pending| == 64 {
        var block := pending;
        pending := [];
        Compress(state, block);
        FoldedStep(before, block);
        after := before + block;
        assert after + [] == after;
      }
    }

    /** Feed the next bytes: the state is the fold of the complete blocks of all that was fed. */
    method Update(data: seq<Byte>)
      requires Valid()
      modifies this, state
      ensures Valid() && fed == old(fed) + data
    {
      hide Folded, Represents;
      ghost var was := fed;
      Unpacked(state[..], pending, fed);
      ghost var before := was[..|was| - |pending|];
      assert was == before + pending;
      length := (length + |data|) % TWO64;
      LengthWraps(|was|, |data|);
      fed := was + data;
      var take := 0;
      assert before + pending + data[..0] == before + pending;
      if pending != [] {
        take, before := TopUp(data, before);
      }
      var rest := data[take..];
      assert data == data[..take] + rest;
      assert before + pending == was + data[..take];
      assert fed == before + pending + rest;
      var n := CompressAll(state, rest, before);
      Remainder(fed, before, pending, rest, n);
      Packed(state[..], pending + rest[n..], fed, before + rest[..n]);
      pending := pending + rest[n..];
    }

    /** The padding of the algorithm, and the digest. */
    method Finish() returns (digest: array<Byte>)
      requires Valid()
      modifies this, state
      ensures fresh(digest) && digest[..] == Hash(old(fed))
    {
      hide Folded, Be64, DigestFrom, ZeroCount, Zeros;
      var bitLength := length * 8 % TWO64;
      BitLengthWraps(|fed|);
      ghost var m := fed;
      ghost var cut := |m| - |pending|;
      ghost var held := pending;
      var tail := pending;
      pending := [];
      tail := tail + [0x80];
      ghost var zeros := 0;
      NoZeros(tail);
      while |tail| % 64 != 56
        invariant state[..] == Folded(m[..cut])
        invariant zeros <= ZeroCount(|m|) && tail == held + [0x80] + Zeros(zeros)
        decreases ZeroCount(|m|) - zeros
      {
        TailModulo(cut, |held|, zeros);
        assert zeros != ZeroCount(|m|);
        OneMoreZero(held + [0x80], zeros);
        tail := tail + [0];
        zeros := zeros + 1;
      }
      TailModulo(cut, |held|, zeros);
      ZeroCountIsLeast(|m|, zeros);
      tail := tail + Be64(bitLength);
      assert m[..cut] + tail == Padded(m) by { TailPads(m, cut, zeros); }
      WholeBlocks(|tail| - 8, |tail|);
      var n := CompressAll(state, tail, m[..cut]);
      assert tail[..n] == tail;
      digest := WriteDigest(state);
    }

    /** The digest as 64 lower-case hex characters. */
    method Hex() returns (out: string)
      requires Valid()
      modifies this, state
      ensures out == HexText(Hash(old(fed)))
    {
      hide Hash, HexByte;
      var digest := Finish();
      out := "";
      for i := 0 to 32
        invariant digest[..] == Hash(old(fed)) && out == HexText(digest[..i])
      {
        assert digest[..i + 1][..i] == digest[..i];
        out := out + HexByte(digest[i]);
      }
      assert digest[..32] == digest[..];
    }
  }

  lemma NoZeros(tail: seq<Byte>)
    ensures tail == tail + Zeros(0)
  {
  }

  lemma OneMoreZero(head: seq<Byte>, zeros: nat)
    ensures head + Zeros(zeros) + [0] == head + Zeros(zeros + 1)
  {
  }

  lemma TailModulo(cut: nat, held: nat, zeros: nat)
    requires cut % 64 == 0
    ensures (held + 1 + zeros) % 64 == (cut + held + 1 + zeros) % 64
  {
  }

  lemma TailPads(m: seq<Byte>, cut: nat, zeros: nat)
    requires cut <= |m| && zeros == ZeroCount(|m|)
    ensures m[..cut] + (m[cut..] + [0x80] + Zeros(zeros) + Be64(8 * |m| % TWO64)) == Padded(m)
  {
    hide Be64, Zeros, ZeroCount;
    assert m == m[..cut] + m[cut..];
    Regrouped(m[..cut], m[cut..], [0x80], Zeros(zeros), Be64(8 * |m| % TWO64));
  }

  lemma Regrouped(a: seq<Byte>, b: seq<Byte>, c: seq<Byte>, z: seq<Byte>, e: seq<Byte>)
    ensures a + (b + c + z + e) == (a + b) + c + z + e
  {
    assert a + (b + c + z + e) == a + b + c + z + e;
  }

  /** The words of the state, big-endian. */
  method WriteDigest(state: array<Word>) returns (digest: array<Byte>)
    requires state.Length == 8
    ensures fresh(digest) && digest[..] == DigestFrom(state[..], 0)
  {
    hide WordBytes, DigestFrom;
    digest := new Byte[32];
    for index := 0 to 8
      invariant fresh(digest) && digest.Length == 32
      invariant digest[..4 * index] + DigestFrom(state[..], index) == DigestFrom(state[..], 0)
    {
      ghost var was := digest[..4 * index];
      var bytes := WordBytes(state[index]);
      DigestStep(state[..], index);
      digest[4 * index], digest[4 * index + 1] := bytes[0], bytes[1];
      digest[4 * index + 2], digest[4 * index + 3] := bytes[2], bytes[3];
      assert digest[..4 * (index + 1)] == was + bytes;
      assert (was + bytes) + DigestFrom(state[..], index + 1) == was + (bytes + DigestFrom(state[..], index + 1));
    }
    assert digest[..32] + DigestFrom(state[..], 8) == digest[..] by { DigestEnd(state[..]); }
  }

  lemma DigestStep(s: seq<Word>, i: nat)
    requires |s| == 8 && i < 8
    ensures DigestFrom(s, i) == WordBytes(s[i]) + DigestFrom(s, i + 1)
  {
  }

  lemma DigestEnd(s: seq<Word>)
    requires |s| == 8
    ensures DigestFrom(s, 8) == []
  {
  }

  /** Feed a message in any pieces: the digest is the hash of their concatenation. */
  method HashPieces(pieces: seq<seq<Byte>>) returns (digest: array<Byte>)
    ensures digest[..] == Hash(Joined(pieces))
  {
    hide Hash;
    var hasher := new Hasher();
    for i := 0 to |pieces|
      invariant hasher.Valid() && fresh(hasher) && fresh(hasher.state) && hasher.fed == Joined(pieces[..i])
    {
      hasher.Update(pieces[i]);
      assert pieces[..i + 1][..i] == pieces[..i];
    }
    assert pieces[..|pieces|] == pieces;
    digest := hasher.Finish();
  }

  function Joined(pieces: seq<seq<Byte>>): seq<Byte>
  {
    if |pieces| == 0 then [] else Joined(pieces[..|pieces| - 1]) + pieces[|pieces| - 1]
  }

  // --- Hex ------------------------------------------------------------------------------

  function HexByte(b: Byte): (s: string)
    ensures |s| == 2
  {
    [Basics.HexDigit((b >> 4) as nat), Basics.HexDigit((b & 0x0F) as nat)]
  }

  lemma Nibbles(b: Byte)
    ensures (b >> 4) as nat == b as nat / 16 && (b & 0x0F) as nat == b as nat % 16
  {
  }

  /** A byte is spelled by its two hexadecimal digits, the higher one first. */
  lemma HexByteSpells(b: Byte)
    ensures HexByte(b) == ["0123456789abcdef"[b as nat / 16], "0123456789abcdef"[b as nat % 16]]
  {
    hide Basics.HexDigit;
    Nibbles(b);
    HexDigitIs(b as nat / 16);
    HexDigitIs(b as nat % 16);
  }

  lemma HexDigitIs(d: nat)
    requires d < 16
    ensures Basics.HexDigit(d) == "0123456789abcdef"[d]
  {
  }

  function HexText(d: seq<Byte>): string
  {
    if |d| == 0 then "" else HexText(d[..|d| - 1]) + HexByte(d[|d| - 1])
  }

  lemma {:induction false} HexTextIsLowerHex(d: seq<Byte>)
    ensures |HexText(d)| == 2 * |d|
    ensures forall i :: 0 <= i < |HexText(d)| ==> IsHex(HexText(d)[i]) && !('A' <= HexText(d)[i] <= 'F')
  {
    hide HexByte;
    if |d| > 0 {
      HexTextIsLowerHex(d[..|d| - 1]);
      HexByteIsLowerHex(d[|d| - 1]);
    }
  }

  lemma HexDigitIsLowerHex(n: nat)
    requires n < 16
    ensures IsHex(Basics.HexDigit(n)) && !('A' <= Basics.HexDigit(n) <= 'F')
  {
  }

  lemma HexByteIsLowerHex(b: Byte)
    ensures forall i :: 0 <= i < 2 ==> IsHex(HexByte(b)[i]) && !('A' <= HexByte(b)[i] <= 'F')
  {
    hide Basics.HexDigit;
    HexDigitIsLowerHex((b >> 4) as nat);
    HexDigitIsLowerHex((b & 0x0F) as nat);
  }

  lemma HexDigitInjective(m: Byte, n: Byte)
    requires m < 16 && n < 16 && Basics.HexDigit(m as nat) == Basics.HexDigit(n as nat)
    ensures m == n
  {
    assert m as int == n as int;
    assert (m as int) as Byte == (n as int) as Byte;
  }

  lemma NibblesInjective(b: Byte, c: Byte)
    requires b >> 4 == c >> 4 && b & 0x0F == c & 0x0F
    ensures b == c
  {
  }

  lemma {:induction false} HexTextInjective(d: seq<Byte>, e: seq<Byte>)
    requires HexText(d) == HexText(e)
    ensures d == e
  {
    hide HexByte;
    HexTextIsLowerHex(d);
    HexTextIsLowerHex(e);
    if |d| > 0 {
      var d', e' := d[..|d| - 1], e[..|e| - 1];
      HexTextIsLowerHex(d');
      HexTextIsLowerHex(e');
      assert HexText(d') == HexText(d)[..2 * |d'|] == HexText(e)[..2 * |e'|] == HexText(e');
      HexTextInjective(d', e');
      assert HexByte(d[|d| - 1]) == HexText(d)[2 * |d'|..] == HexByte(e[|e| - 1]);
      HexByteInjective(d[|d| - 1], e[|e| - 1]);
    }
  }

  lemma HexByteInjective(b: Byte, c: Byte)
    requires HexByte(b) == HexByte(c)
    ensures b == c
  {
    hide Basics.HexDigit;
    assert HexByte(b)[0] == HexByte(c)[0] && HexByte(b)[1] == HexByte(c)[1];
    HexDigitInjective(b >> 4, c >> 4);
    HexDigitInjective(b & 0x0F, c & 0x0F);
    NibblesInjective(b, c);
  }

  /** Main result: the hex form of a hash is a file name the cache accepts, and tells two hashes apart. */
  lemma HexNamesTheHash(m: seq<Byte>, n: seq<Byte>)
    ensures LowerHexDigest(HexText(Hash(m)))
    ensures HexText(Hash(m)) == HexText(Hash(n)) <==> Hash(m) == Hash(n)
  {
    hide Hash, HexText, IsHex;
    HexTextIsLowerHex(Hash(m));
    if HexText(Hash(m)) == HexText(Hash(n)) { HexTextInjective(Hash(m), Hash(n)); }
  }

  lemma Unpacked(words: seq<Word>, pending: seq<Byte>, fed: seq<Byte>)
    requires Represents(words, pending, fed)
    ensures |pending| < 64 && |pending| <= |fed|
    ensures
      var cut := |fed| - |pending|;
      cut % 64 == 0 && fed == fed[..cut] + pending && |fed[..cut]| % 64 == 0 && words == Folded(fed[..cut])
  {
    hide Folded;
  }

  lemma Packed(words: seq<Word>, pending: seq<Byte>, fed: seq<Byte>, before: seq<Byte>)
    requires |pending| < 64 && |before| % 64 == 0 && fed == before + pending && words == Folded(before)
    ensures Represents(words, pending, fed)
  {
    hide Folded;
    assert fed[..|before|] == before;
  }

  lemma LengthWraps(n: nat, k: nat)
    ensures (n % TWO64 + k) % TWO64 == (n + k) % TWO64
  {
    assert n == n / TWO64 * TWO64 + n % TWO64;
    assert n + k == n / TWO64 * TWO64 + (n % TWO64 + k);
    ModuloMultiple(n / TWO64, n % TWO64 + k);
  }

  lemma {:induction false} ModuloMultiple(q: nat, r: nat)
    ensures (q * TWO64 + r) % TWO64 == r % TWO64
  {
    if q > 0 {
      ModuloMultiple(q - 1, r);
      assert q * TWO64 + r == ((q - 1) * TWO64 + r) + TWO64;
    }
  }

  lemma BitLengthWraps(n: nat)
    ensures n % TWO64 * 8 % TWO64 == 8 * n % TWO64
  {
    var q, r := n / TWO64, n % TWO64;
    assert 8 * n == 8 * q * TWO64 + 8 * r;
    ModuloMultiple(8 * q, 8 * r);
  }

  /** The whole blocks of a rest, and what they leave. */
  lemma BlocksOfRest(before: nat, rest: nat, n: nat)
    requires n == rest / 64 * 64 && before % 64 == 0
    ensures n <= rest && rest - n < 64 && (before + n) % 64 == 0
  {
    var p, q := before / 64, rest / 64;
    assert rest == q * 64 + rest % 64;
    assert before + n == (p + q) * 64;
  }

  /** What is left after the whole blocks of the rest is shorter than a block and ends the data. */
  lemma Remainder(fed: seq<Byte>, before: seq<Byte>, pending: seq<Byte>, rest: seq<Byte>, n: nat)
    requires fed == before + pending + rest && (pending == [] || rest == []) && |pending| < 64
    requires n == |rest| / 64 * 64 && |before| % 64 == 0
    ensures n <= |rest| && |pending + rest[n..]| < 64 && |before + rest[..n]| % 64 == 0
    ensures fed == (before + rest[..n]) + (pending + rest[n..])
  {
    BlocksOfRest(|before|, |rest|, n);
    JoinedAgain(before, pending, rest, n);
  }

  lemma JoinedAgain(before: seq<Byte>, pending: seq<Byte>, rest: seq<Byte>, n: nat)
    requires n <= |rest| && (pending == [] || rest == [])
    ensures before + pending + rest == (before + rest[..n]) + (pending + rest[n..])
  {
    if rest == [] {
      assert rest[..n] == [] && rest[n..] == [];
      assert before + [] == before && pending + [] == pending;
    } else {
      assert before + [] == before && [] + rest[n..] == rest[n..];
      assert rest == rest[..n] + rest[n..];
      assert before + (rest[..n] + rest[n..]) == (before + rest[..n]) + rest[n..];
    }
  }
}
