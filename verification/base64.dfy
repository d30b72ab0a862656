/** The "base64" encoding of section 4 of RFC 4648 (alphabet `A-Z a-z 0-9 + /`,
    padding `=`), for canonical encoded text: a multiple of four characters,
    padding only at the very end. */
module Base64 {
  import opened Wrappers

  type byte = x: int | 0 <= x < 256
  type sextet = x: int | 0 <= x < 64

  const Pad: char := '='

  predicate IsAlphabetChar(c: char) {
    ('A' <= c <= 'Z') || ('a' <= c <= 'z') || ('0' <= c <= '9') || c == '+' || c == '/'
  }

  /** The character that encodes a 6-bit value (Table 1 of RFC 4648). */
  function CharOf(n: sextet): (c: char)
    ensures IsAlphabetChar(c)
  {
    if n < 26 then (n + 'A' as int) as char
    else if n < 52 then (n - 26 + 'a' as int) as char
    else if n < 62 then (n - 52 + '0' as int) as char
    else if n == 62 then '+'
    else '/'
  }

  /** The 6-bit value an alphabet character encodes: the inverse of `CharOf`. */
  function SextetOf(c: char): (n: sextet)
    requires IsAlphabetChar(c)
    ensures CharOf(n) == c
  {
    if 'A' <= c <= 'Z' then c as int - 'A' as int
    else if 'a' <= c <= 'z' then c as int - 'a' as int + 26
    else if '0' <= c <= '9' then c as int - '0' as int + 52
    else if c == '+' then 62
    else 63
  }

  lemma SextetOfCharOf(n: sextet)
    ensures SextetOf(CharOf(n)) == n
  {
  }

  /** Encodes bytes three at a time; a final group of one or two bytes is padded. */
  function Encode(b: seq<byte>): (s: string)
    ensures |s| == 4 * ((|b| + 2) / 3)
    ensures forall i :: 0 <= i < |s| ==> IsAlphabetChar(s[i]) || s[i] == Pad
    decreases |b|
  {
    if |b| == 0 then ""
    else if |b| == 1 then
      [CharOf(b[0] / 4), CharOf((b[0] % 4) * 16), Pad, Pad]
    else if |b| == 2 then
      [CharOf(b[0] / 4), CharOf((b[0] % 4) * 16 + b[1] / 16), CharOf((b[1] % 16) * 4), Pad]
    else
      EncodeGroup(b[0], b[1], b[2]) + Encode(b[3..])
  }

  /** Decodes one group of four characters. Padding is accepted only when
      `last` holds; like Python's decoder, the unused low bits of the final
      character before the padding are ignored. */
  function DecodeQuad(q: string, last: bool): (r: Option<seq<byte>>)
    requires |q| == 4
    ensures r.Some? ==> 1 <= |r.value| <= 3
    ensures r.Some? && |r.value| < 3 ==> last
    ensures r.Some? ==> IsAlphabetChar(q[0]) && IsAlphabetChar(q[1])
  {
    if !IsAlphabetChar(q[0]) || !IsAlphabetChar(q[1]) then None
    else
      var a := SextetOf(q[0]);
      var b := SextetOf(q[1]);
      if last && q[2] == Pad && q[3] == Pad then
        Some([a * 4 + b / 16])
      else if !IsAlphabetChar(q[2]) then None
      else
        var c := SextetOf(q[2]);
        if last && q[3] == Pad then
          Some([a * 4 + b / 16, (b % 16) * 16 + c / 4])
        else if !IsAlphabetChar(q[3]) then None
        else
          var d := SextetOf(q[3]);
          Some([a * 4 + b / 16, (b % 16) * 16 + c / 4, (c % 4) * 64 + d])
  }

  /** Decodes canonical base64 text; `None` for anything else, never a fault. */
  function Decode(s: string): (r: Option<seq<byte>>)
    ensures r.Some? ==> |s| % 4 == 0
    ensures r.Some? ==> 3 * (|s| / 4) - 2 <= |r.value| <= 3 * (|s| / 4)
    ensures r.Some? ==> forall i :: 0 <= i < |s| && s[i] != Pad ==> IsAlphabetChar(s[i])
    decreases |s|
  {
    if |s| == 0 then Some([])
    else if |s| < 4 then None
    else
      match DecodeQuad(s[..4], |s| == 4)
      case None => None
      case Some(head) =>
        if |s| == 4 then Some(head)
        else
          match Decode(s[4..])
          case None => None
          case Some(tail) =>
            assert forall i :: 4 <= i < |s| ==> s[i] == s[4..][i - 4];
            Some(head + tail)
  }

  /** The four characters that encode three bytes. */
  function EncodeGroup(b0: byte, b1: byte, b2: byte): (q: string)
    ensures |q| == 4 && q[2] != Pad && q[3] != Pad
  {
    [CharOf(b0 / 4), CharOf((b0 % 4) * 16 + b1 / 16), CharOf((b1 % 16) * 4 + b2 / 64), CharOf(b2 % 64)]
  }

  /** The sextets of a three-byte group give the bytes back. */
  lemma GroupArithmetic(b0: byte, b1: byte, b2: byte)
    ensures var x, y := (b0 % 4) * 16 + b1 / 16, (b1 % 16) * 4 + b2 / 64;
            (b0 / 4) * 4 + x / 16 == b0 && (x % 16) * 16 + y / 4 == b1 && (y % 4) * 64 + b2 % 64 == b2
  {
    var x, y := (b0 % 4) * 16 + b1 / 16, (b1 % 16) * 4 + b2 / 64;
    assert x / 16 == b0 % 4 && x % 16 == b1 / 16;
    assert y / 4 == b1 % 16 && y % 4 == b2 / 64;
  }

  lemma DecodeGroup(b0: byte, b1: byte, b2: byte, last: bool)
    ensures DecodeQuad(EncodeGroup(b0, b1, b2), last) == Some([b0, b1, b2])
  {
    SextetOfCharOf(b0 / 4);
    SextetOfCharOf((b0 % 4) * 16 + b1 / 16);
    SextetOfCharOf((b1 % 16) * 4 + b2 / 64);
    SextetOfCharOf(b2 % 64);
    GroupArithmetic(b0, b1, b2);
  }

  lemma DecodeOneByte(b0: byte)
    ensures Decode(Encode([b0])) == Some([b0])
  {
    var s := Encode([b0]);
    SextetOfCharOf(b0 / 4);
    SextetOfCharOf((b0 % 4) * 16);
    assert (b0 / 4) * 4 + ((b0 % 4) * 16) / 16 == b0;
    assert DecodeQuad(s, true) == Some([b0]);
    assert s[..4] == s;
  }

  lemma DecodeTwoBytes(b0: byte, b1: byte)
    ensures Decode(Encode([b0, b1])) == Some([b0, b1])
  {
    var s := Encode([b0, b1]);
    var x, y := (b0 % 4) * 16 + b1 / 16, (b1 % 16) * 4;
    SextetOfCharOf(b0 / 4);
    SextetOfCharOf(x);
    SextetOfCharOf(y);
    GroupArithmetic(b0, b1, 0);
    assert DecodeQuad(s, true) == Some([b0, b1]);
    assert s[..4] == s;
  }

  lemma DecodeThreeBytes(b0: byte, b1: byte, b2: byte)
    ensures Decode(Encode([b0, b1, b2])) == Some([b0, b1, b2])
  {
    var b := [b0, b1, b2];
    var q := EncodeGroup(b0, b1, b2);
    assert b[3..] == [];
    assert Encode(b) == q;
    DecodeGroup(b0, b1, b2, true);
    assert q[..4] == q;
  }

  lemma EncodeStep(b: seq<byte>)
    requires |b| > 3
    ensures Encode(b) == EncodeGroup(b[0], b[1], b[2]) + Encode(b[3..]) && |Encode(b[3..])| >= 4
  {
  }

  lemma DecodeStep(q: string, rest: string, head: seq<byte>, tail: seq<byte>)
    requires |q| == 4 && |rest| >= 4
    requires DecodeQuad(q, false) == Some(head) && Decode(rest) == Some(tail)
    ensures Decode(q + rest) == Some(head + tail)
  {
    var s := q + rest;
    assert s[..4] == q;
    assert s[4..] == rest;
  }

  /** A group of three bytes followed by more: if the rest round-trips, so does the whole. */
  lemma DecodeLonger(b: seq<byte>)
    requires |b| > 3 && Decode(Encode(b[3..])) == Some(b[3..])
    ensures Decode(Encode(b)) == Some(b)
  {
    var q, rest := EncodeGroup(b[0], b[1], b[2]), Encode(b[3..]);
    assert Encode(b) == q + rest && |rest| >= 4 by {
      EncodeStep(b);
    }
    assert Decode(q + rest) == Some([b[0], b[1], b[2]] + b[3..]) by {
      DecodeGroup(b[0], b[1], b[2], false);
      DecodeStep(q, rest, [b[0], b[1], b[2]], b[3..]);
    }
    FirstThree(b);
  }

  lemma FirstThree(b: seq<byte>)
    requires |b| >= 3
    ensures [b[0], b[1], b[2]] + b[3..] == b
  {
  }

  /** Decoding inverts encoding, on every byte string. */
  lemma {:induction false} DecodeEncode(b: seq<byte>)
    ensures Decode(Encode(b)) == Some(b)
    decreases |b|
  {
    if |b| == 0 {
    } else if |b| == 1 {
      assert b == [b[0]];
      DecodeOneByte(b[0]);
    } else if |b| == 2 {
      assert b == [b[0], b[1]];
      DecodeTwoBytes(b[0], b[1]);
    } else if |b| == 3 {
      assert b == [b[0], b[1], b[2]];
      DecodeThreeBytes(b[0], b[1], b[2]);
    } else {
      DecodeEncode(b[3..]);
      DecodeLonger(b);
    }
  }

  predicate IsAscii(t: string) {
    forall i :: 0 <= i < |t| ==> t[i] as int < 128
  }

  /** Encodes ASCII text, one byte per character. */
  function EncodeText(t: string): (s: string)
    requires IsAscii(t)
    ensures |s| == 4 * ((|t| + 2) / 3)
  {
    Encode(seq(|t|, i requires 0 <= i < |t| => t[i] as int))
  }

  /** Decodes base64 text to text. Only ASCII bytes are turned into
      characters; any other byte makes the result `None`. */
  function DecodeText(s: string): (r: Option<string>)
    ensures r.Some? <==> Decode(s).Some? && forall i :: 0 <= i < |Decode(s).value| ==> Decode(s).value[i] < 128
    ensures r.Some? ==> IsAscii(r.value) && |r.value| == |Decode(s).value|
    ensures r.Some? ==> forall i :: 0 <= i < |r.value| ==> r.value[i] as int == Decode(s).value[i]
  {
    match Decode(s)
    case None => None
    case Some(b) =>
      if forall i :: 0 <= i < |b| ==> b[i] < 128 then
        Some(seq(|b|, i requires 0 <= i < |b| => b[i] as char))
      else None
  }

  /** Decoding ASCII text's encoding gives the text back. */
  lemma DecodeTextEncodeText(t: string)
    requires IsAscii(t)
    ensures DecodeText(EncodeText(t)) == Some(t)
  {
    var b: seq<byte> := seq(|t|, i requires 0 <= i < |t| => t[i] as int);
    DecodeEncode(b);
    assert Decode(EncodeText(t)) == Some(b);
    assert seq(|b|, i requires 0 <= i < |b| => b[i] as char) == t;
  }
}
