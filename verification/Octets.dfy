/** The bytes of files and streams, and the numbers they carry. */
module Octets {
  type Byte = bv8
  type Bytes = seq<Byte>

  /** The number bytes carry, the most significant one first. */
  function BigEndian(b: Bytes): nat
  {
    if |b| == 0 then 0 else 256 * BigEndian(b[..|b| - 1]) + b[|b| - 1] as nat
  }

  /** The number bytes carry, the least significant one first. */
  function LittleEndian(b: Bytes): nat
  {
    if |b| == 0 then 0 else b[0] as nat + 256 * LittleEndian(b[1..])
  }

  lemma BigEndian2(b: Bytes, i: nat)
    requires i + 2 <= |b|
    ensures BigEndian(b[i..i + 2]) == 256 * (b[i] as nat) + b[i + 1] as nat
  {
    var s := b[i..i + 2];
    assert s[..1][..0] == [];
    assert BigEndian(s[..1]) == b[i] as nat;
  }

  /** Two numbers side by side. */
  lemma {:induction false} BigEndianJoined(a: Bytes, b: Bytes)
    ensures BigEndian(a + b) == Power256(|b|) * BigEndian(a) + BigEndian(b)
  {
    if |b| == 0 {
      assert a + b == a;
    } else {
      var front := b[..|b| - 1];
      assert (a + b)[..|a + b| - 1] == a + front;
      BigEndianJoined(a, front);
      OneMoreByte(Power256(|front|), BigEndian(a), BigEndian(front), b[|b| - 1] as nat);
    }
  }

  lemma OneMoreByte(p: nat, x: nat, y: nat, last: nat)
    ensures 256 * (p * x + y) + last == 256 * p * x + (256 * y + last)
  {
  }

  function Power256(k: nat): nat { if k == 0 then 1 else 256 * Power256(k - 1) }

  lemma BigEndian4(b: Bytes, i: nat)
    requires i + 4 <= |b|
    ensures BigEndian(b[i..i + 4]) == 0x1_0000 * BigEndian(b[i..i + 2]) + BigEndian(b[i + 2..i + 4])
  {
    assert b[i..i + 4] == b[i..i + 2] + b[i + 2..i + 4];
    BigEndianJoined(b[i..i + 2], b[i + 2..i + 4]);
    assert Power256(2) == 256 * Power256(1) == 256 * 256;
  }

  lemma BigEndian8(b: Bytes, i: nat)
    requires i + 8 <= |b|
    ensures BigEndian(b[i..i + 8]) == 0x1_0000_0000 * BigEndian(b[i..i + 4]) + BigEndian(b[i + 4..i + 8])
  {
    assert b[i..i + 8] == b[i..i + 4] + b[i + 4..i + 8];
    BigEndianJoined(b[i..i + 4], b[i + 4..i + 8]);
    assert Power256(4) == 256 * Power256(3) == 0x1_0000 * Power256(2) == 0x100_0000 * Power256(1);
  }

  lemma LittleEndian2(b: Bytes, i: nat)
    requires i + 2 <= |b|
    ensures LittleEndian(b[i..i + 2]) == b[i] as nat + 256 * (b[i + 1] as nat)
  {
    var s := b[i..i + 2];
    assert s[1..][1..] == [];
    assert LittleEndian(s[1..]) == b[i + 1] as nat;
  }

  lemma LittleEndian3(b: Bytes, i: nat)
    requires i + 3 <= |b|
    ensures LittleEndian(b[i..i + 3]) == LittleEndian(b[i..i + 2]) + 0x1_0000 * (b[i + 2] as nat)
  {
    LittleEndian2(b, i);
    LittleEndian2(b, i + 1);
    assert b[i..i + 3][1..] == b[i + 1..i + 3];
  }

  lemma LittleEndian4(b: Bytes, i: nat)
    requires i + 4 <= |b|
    ensures LittleEndian(b[i..i + 4]) == LittleEndian(b[i..i + 2]) + 0x1_0000 * LittleEndian(b[i + 2..i + 4])
  {
    LittleEndian2(b, i);
    LittleEndian2(b, i + 2);
    LittleEndian2(b, i + 1);
    LittleEndian3(b, i + 1);
    assert b[i..i + 4][1..] == b[i + 1..i + 4];
  }
}
