/**
 * Hex encoding of digests and random tokens (pkg/utils/hashing.go).
 *
 * The encoding is Base16 of section 8 of RFC 4648 with the lowercase
 * alphabet, as Go's encoding/hex writes it. MD5 itself (RFC 1321) is not
 * modelled: callers pass the digest function in. The random source is the
 * sequence of bytes it delivers before it fails.
 */
module Utils {
  import opened Models

  /** A 16-byte MD5 digest. */
  type Digest = d: seq<byte> | |d| == 16 witness seq(16, _ => 0 as byte)

  /** Why io.ReadFull stopped short: nothing read at all, or only part of the buffer. */
  datatype IoError = EOF | UnexpectedEOF

  /** The lowercase hex digit of a nibble. */
  function HexDigit(v: int): (c: char)
    requires 0 <= v < 16
    ensures IsLowerHexChar(c)
  {
    if v < 10 then ('0' as int + v) as char else ('a' as int + v - 10) as char
  }

  predicate IsLowerHexChar(c: char)
  {
    '0' <= c <= '9' || 'a' <= c <= 'f'
  }

  predicate IsLowerHex(s: string)
  {
    forall i :: 0 <= i < |s| ==> IsLowerHexChar(s[i])
  }

  /** hex.EncodeToString: each byte becomes two digits, high nibble first. */
  function EncodeToString(src: seq<byte>): (s: string)
    ensures |s| == 2 * |src|
    ensures IsLowerHex(s)
  {
    if src == [] then ""
    else [HexDigit(src[0] as int / 16), HexDigit(src[0] as int % 16)] + EncodeToString(src[1..])
  }

  /** The value of a hex digit of either case, as Go's decoder reads it. */
  function FromHexChar(c: char): (r: Option<int>)
    ensures r.Some? ==> 0 <= r.value < 16
    ensures r.Some? <==> IsLowerHexChar(c) || 'A' <= c <= 'F'
  {
    if '0' <= c <= '9' then Some(c as int - '0' as int)
    else if 'a' <= c <= 'f' then Some(c as int - 'a' as int + 10)
    else if 'A' <= c <= 'F' then Some(c as int - 'A' as int + 10)
    else None
  }

  /** hex.DecodeString: None for an odd length or a character that is not a hex digit. */
  function DecodeString(s: string): (r: Option<seq<byte>>)
    ensures r.Some? ==> |s| == 2 * |r.value|
  {
    if s == [] then Some([])
    else if |s| == 1 then None
    else
      match (FromHexChar(s[0]), FromHexChar(s[1]), DecodeString(s[2..]))
      case (Some(hi), Some(lo), Some(rest)) => Some([(hi * 16 + lo) as byte] + rest)
      case _ => None
  }

  /** Decoding undoes encoding, so the encoding loses nothing. */
  lemma {:induction false} DecodeEncode(src: seq<byte>)
    ensures DecodeString(EncodeToString(src)) == Some(src)
  {
    if src != [] {
      var s := EncodeToString(src);
      var hi, lo := src[0] as int / 16, src[0] as int % 16;
      assert s[0] == HexDigit(hi) && s[1] == HexDigit(lo);
      assert s[2..] == EncodeToString(src[1..]);
      DecodeEncode(src[1..]);
      assert FromHexChar(s[0]) == Some(hi) && FromHexChar(s[1]) == Some(lo);
      assert src == [(hi * 16 + lo) as byte] + src[1..];
    }
  }

  /** Encoding undoes decoding on even-length lowercase hex: the alphabet is exactly what EncodeToString writes. */
  lemma {:induction false} EncodeDecode(s: string)
    requires IsLowerHex(s) && |s| % 2 == 0
    ensures DecodeString(s).Some?
    ensures EncodeToString(DecodeString(s).value) == s
  {
    if s != [] {
      assert IsLowerHex(s[2..]) by {
        forall i | 0 <= i < |s[2..]| ensures IsLowerHexChar(s[2..][i]) {
          assert s[2..][i] == s[i + 2];
        }
      }
      EncodeDecode(s[2..]);
      assert IsLowerHexChar(s[0]) && IsLowerHexChar(s[1]);
      var hi, lo := FromHexChar(s[0]).value, FromHexChar(s[1]).value;
      var b := (hi * 16 + lo) as byte;
      assert b as int / 16 == hi && b as int % 16 == lo;
      assert HexDigit(hi) == s[0] && HexDigit(lo) == s[1];
      var rest := DecodeString(s[2..]).value;
      assert DecodeString(s) == Some([b] + rest);
      assert ([b] + rest)[1..] == rest;
      assert s == [s[0], s[1]] + s[2..];
    }
  }

  /** Distinct byte strings have distinct encodings. */
  lemma EncodeInjective(a: seq<byte>, b: seq<byte>)
    ensures EncodeToString(a) == EncodeToString(b) <==> a == b
  {
    DecodeEncode(a);
    DecodeEncode(b);
  }

  /** Md5Hash: the digest of `s`, hex-encoded into 32 lowercase hex characters. */
  function Md5Hash(sum: string -> Digest, s: string): (h: string)
    ensures |h| == 32 && IsLowerHex(h)
    ensures DecodeString(h) == Some(sum(s))
  {
    DecodeEncode(sum(s));
    EncodeToString(sum(s))
  }

  /** Comparing two hex hashes, as Login does, is comparing the two digests. */
  lemma Md5HashCompare(sum: string -> Digest, a: string, b: string)
    ensures Md5Hash(sum, a) == Md5Hash(sum, b) <==> sum(a) == sum(b)
  {
    EncodeInjective(sum(a), sum(b));
  }

  /**
   * What GenerateToken(length) yields when the random source delivers `random`
   * before failing: the hex of the first `length` bytes, or io.ReadFull's error
   * when there are too few.
   */
  function TokenFrom(length: nat, random: seq<byte>): (r: Result<string, IoError>)
    ensures r.Success? <==> length <= |random|
    ensures r.Success? ==> |r.value| == 2 * length && IsLowerHex(r.value)
    ensures r.Success? ==> DecodeString(r.value) == Some(random[..length])
    ensures r.Failure? ==> (r.error == EOF <==> random == [])
  {
    if |random| < length then Failure(if random == [] then EOF else UnexpectedEOF)
    else
      DecodeEncode(random[..length]);
      Success(EncodeToString(random[..length]))
  }

  /**
   * GenerateToken: allocate a buffer of `length` bytes, fill it from the random
   * source as io.ReadFull does, then hex-encode it. On failure the token is "".
   */
  method GenerateToken(length: nat, random: seq<byte>) returns (token: string, err: Option<IoError>)
    ensures err.None? ==> TokenFrom(length, random) == Success(token)
    ensures err.Some? ==> TokenFrom(length, random) == Failure(err.value) && token == ""
  {
    var b := new byte[length];
    var n := 0;
    while n < length && n < |random|
      invariant 0 <= n <= length && n <= |random|
      invariant b[..n] == random[..n]
    {
      b[n] := random[n];
      n := n + 1;
    }
    if n < length {
      token := "";
      err := Some(if n == 0 then EOF else UnexpectedEOF);
      return;
    }
    assert b[..] == b[..n] == random[..length];
    token := EncodeToString(b[..]);
    err := None;
  }
}
