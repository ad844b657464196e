/**
  Node's `buffer.toString('base64')`: the padded base64 encoding of section 4
  of RFC 4648 (alphabet `A-Z a-z 0-9 + /`, `=` padding). A decoder for the
  same alphabet is the encoder's partner: every encoding decodes back to the
  bytes it came from.
 */
module Base64 {
  import opened Wrappers

  type byte = x: int | 0 <= x < 256

  /** The character that stands for a 6-bit value (Table 1 of RFC 4648). */
  function SextetChar(n: int): (c: char)
    requires 0 <= n < 64
    ensures IsAlphabetChar(c)
  {
    if n < 26 then ('A' as int + n) as char
    else if n < 52 then ('a' as int + (n - 26)) as char
    else if n < 62 then ('0' as int + (n - 52)) as char
    else if n == 62 then '+'
    else '/'
  }

  predicate IsAlphabetChar(c: char) {
    ('A' <= c <= 'Z') || ('a' <= c <= 'z') || ('0' <= c <= '9') || c == '+' || c == '/'
  }

  /** The 6-bit value of an alphabet character, None for anything else. */
  function SextetValue(c: char): (r: Option<int>)
    ensures r.Some? <==> IsAlphabetChar(c)
    ensures r.Some? ==> 0 <= r.value < 64 && SextetChar(r.value) == c
  {
    if 'A' <= c <= 'Z' then Some(c as int - 'A' as int)
    else if 'a' <= c <= 'z' then Some(c as int - 'a' as int + 26)
    else if '0' <= c <= '9' then Some(c as int - '0' as int + 52)
    else if c == '+' then Some(62)
    else if c == '/' then Some(63)
    else None
  }

  lemma SextetRoundTrip(n: int)
    requires 0 <= n < 64
    ensures SextetValue(SextetChar(n)) == Some(n)
  {
  }

  /** Padded base64 of a byte sequence, three bytes to four characters. */
  function Encode(b: seq<byte>): (r: string)
    ensures |r| % 4 == 0
    ensures r == [] <==> b == []
    decreases |b|
  {
    if |b| == 0 then []
    else if |b| == 1 then
      [SextetChar(b[0] / 4), SextetChar((b[0] % 4) * 16), '=', '=']
    else if |b| == 2 then
      [SextetChar(b[0] / 4), SextetChar((b[0] % 4) * 16 + b[1] / 16),
       SextetChar((b[1] % 16) * 4), '=']
    else Group(b[0], b[1], b[2]) + Encode(b[3..])
  }

  /** Three whole bytes as four characters, without padding. */
  function Group(b0: byte, b1: byte, b2: byte): (r: string)
    ensures |r| == 4
  {
    [SextetChar(b0 / 4), SextetChar((b0 % 4) * 16 + b1 / 16),
     SextetChar((b1 % 16) * 4 + b2 / 64), SextetChar(b2 % 64)]
  }

  /** Strict decoder: accepts exactly the strings `Encode` can produce
      (canonical padding bits set to zero). */
  function Decode(s: string): (r: Option<seq<byte>>)
    decreases |s|
  {
    if |s| == 0 then Some([])
    else if |s| < 4 then None
    else
      var v0, v1 := SextetValue(s[0]), SextetValue(s[1]);
      if v0.None? || v1.None? then None
      else if s[2] == '=' then
        if |s| == 4 && s[3] == '=' && v1.value % 16 == 0 then
          Some([v0.value * 4 + v1.value / 16])
        else None
      else
        var v2 := SextetValue(s[2]);
        if v2.None? then None
        else if s[3] == '=' then
          if |s| == 4 && v2.value % 4 == 0 then
            Some([v0.value * 4 + v1.value / 16, (v1.value % 16) * 16 + v2.value / 4])
          else None
        else
          var v3 := SextetValue(s[3]);
          if v3.None? then None
          else
            var rest := Decode(s[4..]);
            if rest.None? then None
            else Some([v0.value * 4 + v1.value / 16,
                       (v1.value % 16) * 16 + v2.value / 4,
                       (v2.value % 4) * 64 + v3.value] + rest.value)
  }

  /** The output length is four characters per started group of three bytes. */
  lemma {:induction false} EncodeLength(b: seq<byte>)
    ensures |Encode(b)| == 4 * ((|b| + 2) / 3)
    decreases |b|
  {
    if |b| >= 3 { EncodeLength(b[3..]); }
  }

  /** Every output character is from the alphabet or the `=` pad, and no
      character of it is `;`, `,`, a quote or `>`. */
  lemma {:induction false} EncodeAlphabet(b: seq<byte>)
    ensures forall i :: 0 <= i < |Encode(b)| ==> IsAlphabetChar(Encode(b)[i]) || Encode(b)[i] == '='
    decreases |b|
  {
    if |b| >= 3 {
      EncodeAlphabet(b[3..]);
      var head := Group(b[0], b[1], b[2]);
      assert Encode(b) == head + Encode(b[3..]);
    }
  }

  lemma GroupRoundTrip(b0: byte, b1: byte, b2: byte)
    ensures ((b0 % 4) * 16 + b1 / 16) / 16 == b0 % 4
    ensures ((b0 % 4) * 16 + b1 / 16) % 16 == b1 / 16
    ensures ((b1 % 16) * 4 + b2 / 64) / 4 == b1 % 16
    ensures ((b1 % 16) * 4 + b2 / 64) % 4 == b2 / 64
    ensures (b0 / 4) * 4 + b0 % 4 == b0
    ensures (b1 / 16) * 16 + b1 % 16 == b1
    ensures (b2 / 64) * 64 + b2 % 64 == b2
  {
  }

  lemma DecodeOneByte(b0: byte)
    ensures Decode([SextetChar(b0 / 4), SextetChar((b0 % 4) * 16), '=', '=']) == Some([b0])
  {
    SextetRoundTrip(b0 / 4);
    SextetRoundTrip((b0 % 4) * 16);
    var e := [SextetChar(b0 / 4), SextetChar((b0 % 4) * 16), '=', '='];
    assert SextetValue(e[0]) == Some(b0 / 4);
    assert SextetValue(e[1]) == Some((b0 % 4) * 16);
  }

  lemma DecodeTwoBytes(b0: byte, b1: byte)
    ensures Decode([SextetChar(b0 / 4), SextetChar((b0 % 4) * 16 + b1 / 16),
                    SextetChar((b1 % 16) * 4), '=']) == Some([b0, b1])
  {
    GroupRoundTrip(b0, b1, 0);
    SextetRoundTrip(b0 / 4);
    SextetRoundTrip((b0 % 4) * 16 + b1 / 16);
    SextetRoundTrip((b1 % 16) * 4);
    var e := [SextetChar(b0 / 4), SextetChar((b0 % 4) * 16 + b1 / 16),
              SextetChar((b1 % 16) * 4), '='];
    assert SextetValue(e[0]) == Some(b0 / 4);
    assert SextetValue(e[1]) == Some((b0 % 4) * 16 + b1 / 16);
    assert SextetValue(e[2]) == Some((b1 % 16) * 4);
  }

  lemma DecodeGroup(b0: byte, b1: byte, b2: byte, rest: string, tail: seq<byte>)
    requires Decode(rest) == Some(tail)
    ensures Decode(Group(b0, b1, b2) + rest) == Some([b0, b1, b2] + tail)
  {
    GroupRoundTrip(b0, b1, b2);
    SextetRoundTrip(b0 / 4);
    SextetRoundTrip((b0 % 4) * 16 + b1 / 16);
    SextetRoundTrip((b1 % 16) * 4 + b2 / 64);
    SextetRoundTrip(b2 % 64);
    var e := Group(b0, b1, b2) + rest;
    assert e[4..] == rest;
    assert SextetValue(e[0]) == Some(b0 / 4);
    assert SextetValue(e[1]) == Some((b0 % 4) * 16 + b1 / 16);
    assert SextetValue(e[2]) == Some((b1 % 16) * 4 + b2 / 64);
    assert SextetValue(e[3]) == Some(b2 % 64);
  }

  lemma RoundTripOne(b: seq<byte>)
    requires |b| == 1
    ensures Decode(Encode(b)) == Some(b)
  {
    assert Encode(b) == [SextetChar(b[0] / 4), SextetChar((b[0] % 4) * 16), '=', '='];
    DecodeOneByte(b[0]);
    assert [b[0]] == b;
  }

  lemma RoundTripTwo(b: seq<byte>)
    requires |b| == 2
    ensures Decode(Encode(b)) == Some(b)
  {
    assert Encode(b) == [SextetChar(b[0] / 4), SextetChar((b[0] % 4) * 16 + b[1] / 16),
                         SextetChar((b[1] % 16) * 4), '='];
    DecodeTwoBytes(b[0], b[1]);
    assert [b[0], b[1]] == b;
  }

  lemma SplitThree<T>(b: seq<T>)
    requires |b| >= 3
    ensures [b[0], b[1], b[2]] + b[3..] == b
  {
    assert b[..3] == [b[0], b[1], b[2]];
    assert b[..3] + b[3..] == b;
  }

  lemma RoundTripGroup(b: seq<byte>)
    requires |b| >= 3 && Decode(Encode(b[3..])) == Some(b[3..])
    ensures Decode(Encode(b)) == Some(b)
  {
    var rest := Encode(b[3..]);
    assert Encode(b) == Group(b[0], b[1], b[2]) + rest;
    DecodeGroup(b[0], b[1], b[2], rest, b[3..]);
    SplitThree(b);
  }

  /** Decoding undoes encoding, for every byte sequence. */
  lemma {:induction false} DecodeEncode(b: seq<byte>)
    ensures Decode(Encode(b)) == Some(b)
    decreases |b|
  {
    if |b| == 1 {
      RoundTripOne(b);
    } else if |b| == 2 {
      RoundTripTwo(b);
    } else if |b| >= 3 {
      DecodeEncode(b[3..]);
      RoundTripGroup(b);
    }
  }
}
