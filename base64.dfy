/**
 * base64_encode as PHP implements it: the standard alphabet and "=" padding of
 * section 4 of RFC 4648.  Decode is the inverse the browser applies to the
 * data URL, used here to state what encoding preserves.
 */
module Base64 {
  import opened Php

  /** The character of a 6-bit value: A-Z, a-z, 0-9, '+', '/'. */
  function CharOf(v: nat): (c: char)
    requires v < 64
    ensures c != '='
  {
    if v < 26 then ('A' as int + v) as char
    else if v < 52 then ('a' as int + (v - 26)) as char
    else if v < 62 then ('0' as int + (v - 52)) as char
    else if v == 62 then '+'
    else '/'
  }

  /** The 6-bit value of an alphabet character; None for any other character, '=' included. */
  function ValueOf(c: char): (v: Option<nat>)
    ensures v.Some? ==> v.value < 64
  {
    if 'A' <= c <= 'Z' then Some(c as int - 'A' as int)
    else if 'a' <= c <= 'z' then Some(c as int - 'a' as int + 26)
    else if '0' <= c <= '9' then Some(c as int - '0' as int + 52)
    else if c == '+' then Some(62)
    else if c == '/' then Some(63)
    else None
  }

  /** Every 6-bit value is written as a character that reads back as that value. */
  lemma ValueOfCharOf(v: nat)
    requires v < 64
    ensures ValueOf(CharOf(v)) == Some(v)
  {
    if v < 26 {
      assert 'A' <= CharOf(v) <= 'Z';
    } else if v < 52 {
      assert 'a' <= CharOf(v) <= 'z';
    } else if v < 62 {
      assert '0' <= CharOf(v) <= '9';
    }
  }

  /** Three bytes as four characters. */
  function EncodeBlock(b0: byte, b1: byte, b2: byte): string {
    [CharOf(b0 / 4), CharOf((b0 % 4) * 16 + b1 / 16), CharOf((b1 % 16) * 4 + b2 / 64), CharOf(b2 % 64)]
  }

  /** base64_encode($data) */
  function Encode(b: seq<byte>): string {
    if |b| == 0 then ""
    else if |b| == 1 then [CharOf(b[0] / 4), CharOf((b[0] % 4) * 16), '=', '=']
    else if |b| == 2 then [CharOf(b[0] / 4), CharOf((b[0] % 4) * 16 + b[1] / 16), CharOf((b[1] % 16) * 4), '=']
    else EncodeBlock(b[0], b[1], b[2]) + Encode(b[3..])
  }

  /** Four characters back to bytes; '=' may pad the last one or two positions only. */
  function DecodeBlock(q: string): Option<seq<byte>>
    requires |q| == 4
  {
    var v0, v1, v2, v3 := ValueOf(q[0]), ValueOf(q[1]), ValueOf(q[2]), ValueOf(q[3]);
    if v0.None? || v1.None? then None
    else if v2.Some? && v3.Some? then
      Some([v0.value * 4 + v1.value / 16, (v1.value % 16) * 16 + v2.value / 4, (v2.value % 4) * 64 + v3.value])
    else if v2.Some? && q[3] == '=' then
      Some([v0.value * 4 + v1.value / 16, (v1.value % 16) * 16 + v2.value / 4])
    else if q[2] == '=' && q[3] == '=' then
      Some([v0.value * 4 + v1.value / 16])
    else None
  }

  /** Decodes padded base64; None for a length that is not a multiple of four, a foreign character or misplaced padding. */
  function Decode(s: string): Option<seq<byte>> {
    if |s| == 0 then Some([])
    else if |s| < 4 then None
    else
      var head := DecodeBlock(s[..4]);
      if head.None? then None
      else if |s| == 4 then head
      else if |head.value| < 3 then None
      else
        var tail := Decode(s[4..]);
        if tail.None? then None else Some(head.value + tail.value)
  }

  /** The four characters of a full block decode to its three bytes. */
  lemma DecodeEncodeBlock(b0: byte, b1: byte, b2: byte)
    ensures DecodeBlock(EncodeBlock(b0, b1, b2)) == Some([b0, b1, b2])
  {
    var v0, v1, v2, v3 := b0 / 4, (b0 % 4) * 16 + b1 / 16, (b1 % 16) * 4 + b2 / 64, b2 % 64;
    ValueOfCharOf(v0);
    ValueOfCharOf(v1);
    ValueOfCharOf(v2);
    ValueOfCharOf(v3);
    assert v1 / 16 == b0 % 4 && v1 % 16 == b1 / 16;
    assert v2 / 4 == b1 % 16 && v2 % 4 == b2 / 64;
  }

  /** base64 decoding gives the encoded bytes back. */
  lemma {:induction false} DecodeEncode(b: seq<byte>)
    ensures Decode(Encode(b)) == Some(b)
    decreases |b|
  {
    if |b| == 1 {
      DecodeEncodeShort(b);
    } else if |b| == 2 {
      DecodeEncodeShort(b);
    } else if |b| >= 3 {
      DecodeEncode(b[3..]);
      DecodeEncodeLong(b);
    }
  }

  /** One or two bytes come back. */
  lemma DecodeEncodeShort(b: seq<byte>)
    requires 1 <= |b| <= 2
    ensures Decode(Encode(b)) == Some(b)
  {
    if |b| == 1 {
      assert b == [b[0]];
      DecodeEncodeOne(b[0]);
    } else {
      assert b == [b[0], b[1]];
      DecodeEncodeTwo(b[0], b[1]);
    }
  }

  /** Three bytes or more come back when the bytes after the first three do. */
  lemma DecodeEncodeLong(b: seq<byte>)
    requires |b| >= 3 && Decode(Encode(b[3..])) == Some(b[3..])
    ensures Decode(Encode(b)) == Some(b)
  {
    SplitThree(b);
    DecodeEncodeStep(b[0], b[1], b[2], b[3..]);
  }

  /** A sequence of three or more is its first three elements followed by the rest. */
  lemma SplitThree(b: seq<byte>)
    requires |b| >= 3
    ensures b == [b[0], b[1], b[2]] + b[3..]
  {
  }

  /** One byte comes back from its two characters and two pads. */
  lemma DecodeEncodeOne(b0: byte)
    ensures Decode(Encode([b0])) == Some([b0])
  {
    var v0, v1 := b0 / 4, (b0 % 4) * 16;
    ValueOfCharOf(v0);
    ValueOfCharOf(v1);
    assert v1 / 16 == b0 % 4;
    var q := Encode([b0]);
    assert q == [CharOf(v0), CharOf(v1), '=', '='];
    assert q[..4] == q;
  }

  /** Two bytes come back from their three characters and one pad. */
  lemma DecodeEncodeTwo(b0: byte, b1: byte)
    ensures Decode(Encode([b0, b1])) == Some([b0, b1])
  {
    var v0, v1, v2 := b0 / 4, (b0 % 4) * 16 + b1 / 16, (b1 % 16) * 4;
    ValueOfCharOf(v0);
    ValueOfCharOf(v1);
    ValueOfCharOf(v2);
    assert v1 / 16 == b0 % 4 && v1 % 16 == b1 / 16;
    assert v2 / 4 == b1 % 16;
    var q := Encode([b0, b1]);
    assert q == [CharOf(v0), CharOf(v1), CharOf(v2), '='];
    assert q[..4] == q;
  }

  /** When the bytes after the first three come back, so do all of them. */
  lemma DecodeEncodeStep(b0: byte, b1: byte, b2: byte, rest: seq<byte>)
    requires Decode(Encode(rest)) == Some(rest)
    ensures Decode(Encode([b0, b1, b2] + rest)) == Some([b0, b1, b2] + rest)
  {
    var b := [b0, b1, b2] + rest;
    assert b[0] == b0 && b[1] == b1 && b[2] == b2 && b[3..] == rest;
    assert Encode(b) == EncodeBlock(b0, b1, b2) + Encode(rest);
    DecodeEncodeBlock(b0, b1, b2);
    DecodeFullBlockThen(EncodeBlock(b0, b1, b2), Encode(rest), [b0, b1, b2], rest);
  }

  /** A full block followed by decodable text decodes to the block's bytes followed by the text's. */
  lemma DecodeFullBlockThen(q: string, rest: string, bytes: seq<byte>, tail: seq<byte>)
    requires |q| == 4 && DecodeBlock(q) == Some(bytes) && |bytes| == 3
    requires Decode(rest) == Some(tail)
    ensures Decode(q + rest) == Some(bytes + tail)
  {
    var s := q + rest;
    assert s[..4] == q;
    assert s[4..] == rest;
    if rest == [] {
      assert bytes + tail == bytes;
    }
  }

  /** Every three bytes, or part of three, become four characters. */
  lemma {:induction false} EncodeLength(b: seq<byte>)
    ensures |Encode(b)| == 4 * ((|b| + 2) / 3)
    decreases |b|
  {
    if |b| >= 3 {
      EncodeLength(b[3..]);
      assert (|b| + 2) / 3 == (|b[3..]| + 2) / 3 + 1;
    } else {
      assert (|b| + 2) / 3 == if |b| == 0 then 0 else 1;
    }
  }

  /** Encoded text uses only the alphabet, with '=' only as trailing padding of at most two. */
  lemma {:induction false} EncodeAlphabet(b: seq<byte>)
    ensures forall i :: 0 <= i < |Encode(b)| ==>
              ValueOf(Encode(b)[i]).Some? || (Encode(b)[i] == '=' && i >= |Encode(b)| - 2)
    decreases |b|
  {
    if |b| == 1 {
      ValueOfCharOf(b[0] / 4);
      ValueOfCharOf((b[0] % 4) * 16);
    } else if |b| == 2 {
      ValueOfCharOf(b[0] / 4);
      ValueOfCharOf((b[0] % 4) * 16 + b[1] / 16);
      ValueOfCharOf((b[1] % 16) * 4);
    } else if |b| >= 3 {
      EncodeAlphabet(b[3..]);
      ValueOfCharOf(b[0] / 4);
      ValueOfCharOf((b[0] % 4) * 16 + b[1] / 16);
      ValueOfCharOf((b[1] % 16) * 4 + b[2] / 64);
      ValueOfCharOf(b[2] % 64);
      var s := Encode(b);
      forall i | 0 <= i < |s| ensures ValueOf(s[i]).Some? || (s[i] == '=' && i >= |s| - 2) {
        if i >= 4 { assert s[i] == Encode(b[3..])[i - 4]; }
      }
    }
  }
}
