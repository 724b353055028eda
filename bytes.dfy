/**
 * Bytes, the little-endian 32-bit length field, the two text conversions
 * the archiver applies to paths, and the pluggable compression codec.
 */
module Bytes {
  import opened Wrappers

  newtype byte = x: int | 0 <= x < 256

  /** 2^32: the first value that no longer fits in a `uint`. */
  const Uint32Limit: nat := 0x1_0000_0000

  /** 2^31: the first value that no longer fits in an `int`. */
  const Int32Limit: nat := 0x8000_0000

  /** `BitConverter.GetBytes(uint)` on a little-endian host. */
  function Le32(n: nat): (b: seq<byte>)
    requires n < Uint32Limit
    ensures |b| == 4
  {
    var n1 := n / 0x100;
    var n2 := n1 / 0x100;
    [(n % 0x100) as byte, (n1 % 0x100) as byte, (n2 % 0x100) as byte, (n2 / 0x100) as byte]
  }

  /** `BitConverter.ToUInt32` on four bytes of a little-endian host. */
  function ReadLe32(b: seq<byte>): (n: nat)
    requires |b| == 4
    ensures n < Uint32Limit
  {
    b[0] as nat + 0x100 * (b[1] as nat + 0x100 * (b[2] as nat + 0x100 * (b[3] as nat)))
  }

  /** Dividing `q * 256 + r` by 256, for a digit `r`. */
  lemma {:induction false} SplitByte(n: int, q: int, r: int)
    requires 0 <= r < 0x100 && n == q * 0x100 + r
    ensures n / 0x100 == q && n % 0x100 == r
  {
  }

  /** Reading back a written length field gives the length. */
  lemma {:induction false} Le32RoundTrip(n: nat)
    requires n < Uint32Limit
    ensures ReadLe32(Le32(n)) == n
  {
    var n1 := n / 0x100;
    var n2 := n1 / 0x100;
    assert n == n1 * 0x100 + n % 0x100;
    assert n1 == n2 * 0x100 + n1 % 0x100;
    assert n2 == n2 / 0x100 * 0x100 + n2 % 0x100;
  }

  /** Writing a length read from four bytes gives those four bytes back. */
  lemma {:induction false} ReadLe32RoundTrip(b: seq<byte>)
    requires |b| == 4
    ensures Le32(ReadLe32(b)) == b
  {
    var b0, b1, b2, b3 := b[0] as nat, b[1] as nat, b[2] as nat, b[3] as nat;
    var n2 := b2 + 0x100 * b3;
    var n1 := b1 + 0x100 * n2;
    var n := b0 + 0x100 * n1;
    assert ReadLe32(b) == n;
    SplitByte(n, n1, b0);
    SplitByte(n1, n2, b1);
    SplitByte(n2, b3, b2);
    assert Le32(n) == [b0 as byte, b1 as byte, b2 as byte, b3 as byte];
  }

  /** The `(uint)` cast of a length: wraps modulo 2^32. */
  function UintCast(n: nat): (r: nat)
    ensures r < Uint32Limit
    ensures n < Uint32Limit ==> r == n
  {
    n % Uint32Limit
  }

  /** The unchecked `(int)` cast of a `uint`: values from 2^31 up become negative. */
  function IntCast(n: nat): (r: int)
    requires n < Uint32Limit
    ensures -(Int32Limit as int) <= r < Int32Limit
    ensures r >= 0 <==> n < Int32Limit
  {
    if n < Int32Limit then n else n - Uint32Limit
  }

  /**
   * `Encoding.ASCII.GetBytes` on one character: its code when it is ASCII,
   * otherwise the replacement '?' once per UTF-16 code unit, which is twice
   * for a character above U+FFFF (a surrogate pair in a .NET string).
   */
  function CharAscii(c: char): (b: seq<byte>)
    ensures 1 <= |b| <= 2
    ensures c as int < 128 ==> b == [c as int as byte]
    ensures c as int >= 128 ==> b[0] == 63 && (|b| == 2 <==> c as int >= 0x1_0000) && b[|b| - 1] == 63
  {
    if c as int < 128 then [c as int as byte]
    else if c as int < 0x1_0000 then [63]
    else [63, 63]
  }

  /** `Encoding.ASCII.GetBytes` on a path: the characters' encodings one after another. */
  function AsciiBytes(s: string): (b: seq<byte>)
    ensures |s| <= |b| <= 2 * |s|
  {
    if s == [] then [] else CharAscii(s[0]) + AsciiBytes(s[1..])
  }

  /** Encoding is character by character: the encoding of a concatenation is the concatenation of the encodings. */
  lemma {:induction false} AsciiAppend(s: string, t: string)
    ensures AsciiBytes(s + t) == AsciiBytes(s) + AsciiBytes(t)
    decreases |s|
  {
    if s != [] {
      assert (s + t)[0] == s[0];
      assert (s + t)[1..] == s[1..] + t;
      AsciiAppend(s[1..], t);
    } else {
      assert s + t == t;
    }
  }

  /** An ASCII string is encoded one byte per character, each byte the character's code. */
  lemma {:induction false} AsciiKept(s: string)
    requires forall i | 0 <= i < |s| :: s[i] as int < 128
    ensures |AsciiBytes(s)| == |s|
    ensures forall i | 0 <= i < |s| :: AsciiBytes(s)[i] as int == s[i] as int
    decreases |s|
  {
    if s != [] {
      var rest := AsciiBytes(s[1..]);
      AsciiKept(s[1..]);
      assert AsciiBytes(s) == [s[0] as int as byte] + rest;
      forall i | 0 < i < |s|
        ensures AsciiBytes(s)[i] as int == s[i] as int
      {
        assert AsciiBytes(s)[i] == rest[i - 1];
        assert s[1..][i - 1] == s[i];
      }
    }
  }

  /** The characters `(char)b` that the decoder appends for the bytes `b`. */
  function Latin1(b: seq<byte>): (s: string)
    ensures |s| == |b|
  {
    seq(|b|, i requires 0 <= i < |b| => b[i] as int as char)
  }

  /** A path the archive can carry unchanged: ASCII and free of the NUL terminator. */
  predicate PortablePath(s: string)
  {
    forall i | 0 <= i < |s| :: 0 < s[i] as int < 128
  }

  /** A portable path survives encoding to ASCII and decoding byte by byte. */
  lemma {:induction false} AsciiRoundTrip(s: string)
    requires PortablePath(s)
    ensures |AsciiBytes(s)| == |s|
    ensures Latin1(AsciiBytes(s)) == s
    ensures forall i | 0 <= i < |s| :: AsciiBytes(s)[i] != 0
  {
    AsciiKept(s);
  }

  /**
   * Outside the portable alphabet the round trip fails: the first non-ASCII
   * character, at `k` no later than `i`, comes back as '?'.
   */
  lemma {:induction false} NonAsciiPathIsReplaced(s: string, i: nat) returns (k: nat)
    requires i < |s| && s[i] as int >= 128
    ensures k <= i && s[k] as int >= 128
    ensures k < |AsciiBytes(s)| && Latin1(AsciiBytes(s))[k] == '?'
    ensures Latin1(AsciiBytes(s)) != s
  {
    k := FirstNonAscii(s, i);
    assert s == s[..k] + s[k..];
    AsciiAppend(s[..k], s[k..]);
    AsciiKept(s[..k]);
    assert s[k..][0] == s[k];
    assert AsciiBytes(s)[k] == AsciiBytes(s[k..])[0] == CharAscii(s[k])[0];
    assert Latin1(AsciiBytes(s))[k] != s[k];
  }

  /** The first character at or before `i` that is not ASCII, given that `s[i]` is not. */
  lemma {:induction false} FirstNonAscii(s: string, i: nat) returns (k: nat)
    requires i < |s| && s[i] as int >= 128
    ensures k <= i && s[k] as int >= 128
    ensures forall j | 0 <= j < k :: s[..k][j] as int < 128
    decreases i
  {
    if j :| 0 <= j < i && s[j] as int >= 128 {
      k := FirstNonAscii(s, j);
    } else {
      k := i;
    }
  }

  /** A character above U+FFFF is two UTF-16 code units, so it becomes two '?' marks. */
  lemma {:induction false} SupplementaryCharacterTwoMarks()
    ensures AsciiBytes("\U{1F600}.txt") == [63, 63, 46, 116, 120, 116]
  {
    var s := "\U{1F600}.txt";
    assert s[1..][1..][1..][1..][1..] == [];
  }

  /**
   * The compression algorithm, external to the container format: `decompress`
   * answers `None` where the algorithm rejects its input.
   */
  datatype Codec = Codec(compress: seq<byte> -> seq<byte>, decompress: seq<byte> -> Option<seq<byte>>)

  /** The only property the container needs of a codec: decompression undoes compression. */
  ghost predicate Inverse(codec: Codec)
  {
    forall x :: codec.decompress(codec.compress(x)) == Some(x)
  }
}
