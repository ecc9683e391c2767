/**
 * The fixed-width integers and the big-endian byte order that the data file
 * format of kvrs is written in, and the two format constants: the 8-byte
 * identifier at the start of every data file and the oldest format version.
 */
module Format {

  /** An unsigned 8-bit integer (Rust's `u8`): one byte of the data file. */
  type uint8 = x: int | 0 <= x < 0x100

  /** An unsigned 64-bit integer (Rust's `u64`). */
  type uint64 = x: int | 0 <= x < 0x1_0000_0000_0000_0000

  /** The identifier as the number the file starts with, read big-endian. */
  const IDENTIFIER: uint64 := 14175028930806269345

  /** The identifier as the bytes it is written with: `c4 b7 d1 b5 c5 97 c5 a1`. */
  const IDENTIFIER_BYTES: seq<uint8> := [0xc4, 0xb7, 0xd1, 0xb5, 0xc5, 0x97, 0xc5, 0xa1]

  /** The oldest (and only accepted) version of the data file format. */
  const OLDEST_VERSION: uint8 := 1

  /** 256 to the power `k`: one more than the largest number `k` bytes can hold. */
  function Pow256(k: nat): (r: nat)
    ensures r >= 1
  {
    if k == 0 then 1 else 0x100 * Pow256(k - 1)
  }

  lemma Pow256Of8()
    ensures Pow256(8) == 0x1_0000_0000_0000_0000
  {
    assert Pow256(2) == 0x1_0000;
    assert Pow256(4) == 0x1_0000 * Pow256(2);
    assert Pow256(6) == 0x1_0000 * Pow256(4);
  }

  /**
   * The number the bytes `s` stand for when the first byte is the most
   * significant one (`byteorder::BigEndian`).
   */
  function BigEndian(s: seq<uint8>): (n: nat)
    ensures n < Pow256(|s|)
  {
    if s == [] then 0 else BigEndian(s[..|s| - 1]) * 0x100 + s[|s| - 1]
  }

  /** `n` written as `k` bytes, most significant first (Rust's `to_be_bytes`). */
  function ToBigEndian(n: nat, k: nat): (s: seq<uint8>)
    requires n < Pow256(k)
    ensures |s| == k
  {
    if k == 0 then [] else ToBigEndian(n / 0x100, k - 1) + [n % 0x100]
  }

  /** A 64-bit number as its 8 big-endian bytes (`u64::to_be_bytes`). */
  function U64ToBigEndian(n: uint64): (s: seq<uint8>)
    ensures |s| == 8
  {
    Pow256Of8();
    ToBigEndian(n, 8)
  }

  /** Reading back the bytes written for `n` gives `n`. */
  lemma {:induction false} BigEndianOfToBigEndian(n: nat, k: nat)
    requires n < Pow256(k)
    ensures BigEndian(ToBigEndian(n, k)) == n
  {
    if k > 0 {
      var s := ToBigEndian(n, k);
      assert s[..k - 1] == ToBigEndian(n / 0x100, k - 1);
      BigEndianOfToBigEndian(n / 0x100, k - 1);
    }
  }

  /** Writing the number read from `s` gives back `s`. */
  lemma {:induction false} ToBigEndianOfBigEndian(s: seq<uint8>)
    ensures ToBigEndian(BigEndian(s), |s|) == s
  {
    if s != [] {
      var init := s[..|s| - 1];
      var n := BigEndian(s);
      assert n / 0x100 == BigEndian(init) && n % 0x100 == s[|s| - 1];
      ToBigEndianOfBigEndian(init);
      assert s == init + [s[|s| - 1]];
    }
  }

  /** Reading back the 8 bytes written for `n` gives `n`. */
  lemma BigEndianOfU64ToBigEndian(n: uint64)
    ensures BigEndian(U64ToBigEndian(n)) == n
  {
    Pow256Of8();
    BigEndianOfToBigEndian(n, 8);
  }

  /** Two byte strings of one length that read as the same number are equal. */
  lemma {:induction false} BigEndianInjective(a: seq<uint8>, b: seq<uint8>)
    requires |a| == |b|
    ensures BigEndian(a) == BigEndian(b) <==> a == b
  {
    if BigEndian(a) == BigEndian(b) {
      ToBigEndianOfBigEndian(a);
      ToBigEndianOfBigEndian(b);
    }
  }

  /** The identifier constant is exactly the big-endian reading of its bytes. */
  lemma IdentifierIsBigEndianOfItsBytes()
    ensures BigEndian(IDENTIFIER_BYTES) == IDENTIFIER
  {
    var s := IDENTIFIER_BYTES;
    assert BigEndian(s[..1]) == 0xc4;
    assert BigEndian(s[..2]) == 0xc4b7 by { assert s[..2][..1] == s[..1]; }
    assert BigEndian(s[..3]) == 0xc4b7d1 by { assert s[..3][..2] == s[..2]; }
    assert BigEndian(s[..4]) == 0xc4b7d1b5 by { assert s[..4][..3] == s[..3]; }
    assert BigEndian(s[..5]) == 0xc4b7d1b5c5 by { assert s[..5][..4] == s[..4]; }
    assert BigEndian(s[..6]) == 0xc4b7d1b5c597 by { assert s[..6][..5] == s[..5]; }
    assert BigEndian(s[..7]) == 0xc4b7d1b5c597c5 by { assert s[..7][..6] == s[..6]; }
    assert s[..8] == s;
    assert BigEndian(s) == 0xc4b7d1b5c597c5a1 by { assert s[..7] == s[..|s| - 1]; }
  }

  /** Eight bytes read as the identifier exactly when they are the identifier's bytes. */
  lemma IdentifierBytesExactly(s: seq<uint8>)
    requires |s| == 8
    ensures BigEndian(s) == IDENTIFIER <==> s == IDENTIFIER_BYTES
  {
    IdentifierIsBigEndianOfItsBytes();
    BigEndianInjective(s, IDENTIFIER_BYTES);
  }
}
