/** `base64ct::Base64::encode_string`: the standard alphabet with `=`
    padding (section 4 of RFC 4648). Every three bytes become four
    characters; a final one or two bytes become two or three characters and
    two or one `=`. `Decode` is the strict decoder of the same alphabet; it
    is the partner against which the encoder is proved. */
module Base64 {
  import opened Wrappers
  import opened Bytes

  type sextet = x: int | 0 <= x < 64

  /** Character for a 6-bit value: `A`-`Z`, `a`-`z`, `0`-`9`, `+`, `/`. */
  function Char(i: sextet): char
  {
    if i < 26 then ('A' as int + i) as char
    else if i < 52 then ('a' as int + i - 26) as char
    else if i < 62 then ('0' as int + i - 52) as char
    else if i == 62 then '+'
    else '/'
  }

  /** The 6-bit value of an alphabet character; `=` and everything else
      have none. */
  function Index(c: char): (r: Option<sextet>)
  {
    if 'A' <= c <= 'Z' then Some(c as int - 'A' as int)
    else if 'a' <= c <= 'z' then Some(c as int - 'a' as int + 26)
    else if '0' <= c <= '9' then Some(c as int - '0' as int + 52)
    else if c == '+' then Some(62)
    else if c == '/' then Some(63)
    else None
  }

  lemma CharIndex(i: sextet)
    ensures Index(Char(i)) == Some(i)
    ensures Char(i) != '='
  {
  }

  lemma IndexChar(c: char)
    requires Index(c).Some?
    ensures Char(Index(c).value) == c
  {
  }

  /** The four symbols of a full group of three bytes. */
  function Group3(b0: byte, b1: byte, b2: byte): string
  {
    [Char(b0 / 4), Char((b0 % 4) * 16 + b1 / 16), Char((b1 % 16) * 4 + b2 / 64), Char(b2 % 64)]
  }

  /** `Base64::encode_string`. */
  function Encode(b: seq<byte>): (s: string)
    ensures |s| % 4 == 0
    decreases |b|
  {
    if |b| == 0 then []
    else if |b| == 1 then [Char(b[0] / 4), Char((b[0] % 4) * 16), '=', '=']
    else if |b| == 2 then [Char(b[0] / 4), Char((b[0] % 4) * 16 + b[1] / 16), Char((b[1] % 16) * 4), '=']
    else Group3(b[0], b[1], b[2]) + Encode(b[3..])
  }

  /** The three bytes of a full group of four symbols. */
  function DecodeGroup3(c0: char, c1: char, c2: char, c3: char): Option<seq<byte>>
  {
    var i0 :- Index(c0);
    var i1 :- Index(c1);
    var i2 :- Index(c2);
    var i3 :- Index(c3);
    Some([i0 * 4 + i1 / 16, (i1 % 16) * 16 + i2 / 4, (i2 % 4) * 64 + i3])
  }

  /** The one or two bytes of a final group that ends in padding; the bits
      the padding leaves over must be zero. */
  function DecodePadded(c0: char, c1: char, c2: char): Option<seq<byte>>
  {
    var i0 :- Index(c0);
    var i1 :- Index(c1);
    if c2 == '=' then
      if i1 % 16 != 0 then None else Some([i0 * 4 + i1 / 16])
    else
      var i2 :- Index(c2);
      if i2 % 4 != 0 then None else Some([i0 * 4 + i1 / 16, (i1 % 16) * 16 + i2 / 4])
  }

  /** Four symbols for every started group of three bytes. */
  lemma {:induction false} EncodeLength(b: seq<byte>)
    ensures |Encode(b)| == 4 * ((|b| + 2) / 3)
    decreases |b|
  {
    if |b| >= 3 {
      EncodeLength(b[3..]);
      assert |Encode(b)| == 4 + |Encode(b[3..])|;
    }
  }

  /** Strict padded decoding: the length is a multiple of four and `=`
      appears only as the padding of the last group. */
  function Decode(s: string): (r: Option<seq<byte>>)
    decreases |s|
  {
    if |s| == 0 then Some([])
    else if |s| < 4 then None
    else if |s| == 4 && s[3] == '=' then DecodePadded(s[0], s[1], s[2])
    else
      var group :- DecodeGroup3(s[0], s[1], s[2], s[3]);
      var rest :- Decode(s[4..]);
      Some(group + rest)
  }

  /** The bit arithmetic of one group: the sextets put back together give
      the bytes they were cut from. */
  lemma GroupArith(b0: byte, b1: byte, b2: byte)
    ensures (b0 / 4) * 4 + ((b0 % 4) * 16 + b1 / 16) / 16 == b0
    ensures (((b0 % 4) * 16 + b1 / 16) % 16) * 16 + ((b1 % 16) * 4 + b2 / 64) / 4 == b1
    ensures (((b1 % 16) * 4 + b2 / 64) % 4) * 64 + b2 % 64 == b2
    ensures ((b0 % 4) * 16) % 16 == 0 && ((b1 % 16) * 4) % 4 == 0
  {
  }

  lemma DecodeLastOne(b0: byte)
    ensures Decode(Encode([b0])) == Some([b0])
  {
    var s := Encode([b0]);
    assert s == [Char(b0 / 4), Char((b0 % 4) * 16), '=', '='];
    assert DecodePadded(s[0], s[1], s[2]) == Some([b0]) by {
      GroupArith(b0, 0, 0);
      CharIndex(b0 / 4);
      CharIndex((b0 % 4) * 16);
    }
  }

  lemma DecodeLastTwo(b0: byte, b1: byte)
    ensures Decode(Encode([b0, b1])) == Some([b0, b1])
  {
    GroupArith(b0, b1, 0);
    CharIndex(b0 / 4);
    CharIndex((b0 % 4) * 16 + b1 / 16);
    CharIndex((b1 % 16) * 4);
  }

  lemma DecodeGroup(b0: byte, b1: byte, b2: byte)
    ensures DecodeGroup3(Char(b0 / 4), Char((b0 % 4) * 16 + b1 / 16),
                         Char((b1 % 16) * 4 + b2 / 64), Char(b2 % 64)) == Some([b0, b1, b2])
  {
    GroupArith(b0, b1, b2);
    CharIndex(b0 / 4);
    CharIndex((b0 % 4) * 16 + b1 / 16);
    CharIndex((b1 % 16) * 4 + b2 / 64);
    CharIndex(b2 % 64);
  }

  /** Decoding undoes encoding. */
  lemma {:induction false} DecodeEncode(b: seq<byte>)
    ensures Decode(Encode(b)) == Some(b)
    decreases |b|
  {
    if |b| == 1 {
      assert [b[0]] == b;
      DecodeLastOne(b[0]);
    } else if |b| == 2 {
      assert [b[0], b[1]] == b;
      DecodeLastTwo(b[0], b[1]);
    } else if |b| >= 3 {
      var t, rest := EncodeSplit(b);
      DecodeEncode(b[3..]);
      DecodeConcat(t, rest, b[..3], b[3..]);
      assert b[..3] + b[3..] == b;
    }
  }

  /** A byte string of three or more bytes encodes as the symbols of its
      first group followed by the encoding of the rest. */
  lemma EncodeSplit(b: seq<byte>) returns (t: string, rest: string)
    requires |b| >= 3
    ensures Encode(b) == t + rest && rest == Encode(b[3..])
    ensures |t| == 4 && t[3] != '='
    ensures DecodeGroup3(t[0], t[1], t[2], t[3]) == Some(b[..3])
  {
    t, rest := Group3(b[0], b[1], b[2]), Encode(b[3..]);
    DecodeGroup(b[0], b[1], b[2]);
    CharIndex(b[2] % 64);
    assert b[..3] == [b[0], b[1], b[2]];
  }

  lemma DecodeConcat(t: string, rest: string, g: seq<byte>, r: seq<byte>)
    requires |t| == 4 && t[3] != '='
    requires DecodeGroup3(t[0], t[1], t[2], t[3]) == Some(g)
    requires Decode(rest) == Some(r)
    ensures Decode(t + rest) == Some(g + r)
  {
    var s := t + rest;
    assert s[0] == t[0] && s[1] == t[1] && s[2] == t[2] && s[3] == t[3];
    assert s[4..] == rest;
    DecodeJoin(s, g, r);
  }

  /** Building a decoding: a full first group that decodes, followed by a
      rest that decodes, decodes to the group's bytes and then the rest's. */
  lemma DecodeJoin(s: string, g: seq<byte>, rest: seq<byte>)
    requires |s| >= 4 && s[3] != '='
    requires DecodeGroup3(s[0], s[1], s[2], s[3]) == Some(g)
    requires Decode(s[4..]) == Some(rest)
    ensures Decode(s) == Some(g + rest)
  {
  }

  /** The other direction of the bit arithmetic: cutting the bytes rebuilt
      from four sextets gives the same sextets back. */
  lemma SextetArith(i0: sextet, i1: sextet, i2: sextet, i3: sextet)
    ensures var b0, b1, b2 := i0 * 4 + i1 / 16, (i1 % 16) * 16 + i2 / 4, (i2 % 4) * 64 + i3;
      b0 < 256 && b1 < 256 && b2 < 256 &&
      b0 / 4 == i0 && (b0 % 4) * 16 + b1 / 16 == i1 &&
      (b1 % 16) * 4 + b2 / 64 == i2 && b2 % 64 == i3
  {
  }

  lemma EncodeDecodePadded(c0: char, c1: char, c2: char)
    requires DecodePadded(c0, c1, c2).Some?
    ensures Encode(DecodePadded(c0, c1, c2).value) == [c0, c1, c2, '=']
  {
    var i0, i1 := Index(c0).value, Index(c1).value;
    if c2 == '=' {
      EncodeOne(c0, c1, i0, i1);
    } else {
      EncodeTwo(c0, c1, c2, i0, i1, Index(c2).value);
    }
  }

  lemma EncodeOne(c0: char, c1: char, i0: sextet, i1: sextet)
    requires Index(c0) == Some(i0) && Index(c1) == Some(i1) && i1 % 16 == 0
    ensures Encode([i0 * 4 + i1 / 16]) == [c0, c1, '=', '=']
  {
    IndexChar(c0);
    IndexChar(c1);
    SextetArith(i0, i1, 0, 0);
  }

  lemma EncodeTwo(c0: char, c1: char, c2: char, i0: sextet, i1: sextet, i2: sextet)
    requires Index(c0) == Some(i0) && Index(c1) == Some(i1) && Index(c2) == Some(i2) && i2 % 4 == 0
    ensures Encode([i0 * 4 + i1 / 16, (i1 % 16) * 16 + i2 / 4]) == [c0, c1, c2, '=']
  {
    IndexChar(c0);
    IndexChar(c1);
    IndexChar(c2);
    SextetArith(i0, i1, i2, 0);
  }

  lemma EncodeGroup(c0: char, c1: char, c2: char, c3: char)
    requires DecodeGroup3(c0, c1, c2, c3).Some?
    ensures var g := DecodeGroup3(c0, c1, c2, c3).value;
      |g| == 3 && Group3(g[0], g[1], g[2]) == [c0, c1, c2, c3]
  {
    IndexChar(c0);
    IndexChar(c1);
    IndexChar(c2);
    IndexChar(c3);
    SextetArith(Index(c0).value, Index(c1).value, Index(c2).value, Index(c3).value);
  }

  lemma EncodeCons(g: seq<byte>, rest: seq<byte>)
    requires |g| == 3
    ensures Encode(g + rest) == Group3(g[0], g[1], g[2]) + Encode(rest)
  {
    var b := g + rest;
    assert b[0] == g[0] && b[1] == g[1] && b[2] == g[2];
    assert b[3..] == rest;
  }

  /** Encoding undoes decoding: every string the decoder accepts is the
      encoding of what it decodes to. */
  lemma {:induction false} EncodeDecode(s: string)
    requires Decode(s).Some?
    ensures Encode(Decode(s).value) == s
    decreases |s|
  {
    if |s| == 4 && s[3] == '=' {
      EncodeDecodeLast(s);
    } else if |s| >= 4 {
      var g, rest := DecodeSplit(s);
      EncodeDecode(s[4..]);
      EncodeDecodeStep(s, g, rest);
    }
  }

  lemma EncodeDecodeLast(s: string)
    requires |s| == 4 && s[3] == '=' && Decode(s).Some?
    ensures Encode(Decode(s).value) == s
  {
    EncodeDecodePadded(s[0], s[1], s[2]);
    assert s == [s[0], s[1], s[2], '='];
  }

  lemma EncodeDecodeStep(s: string, g: seq<byte>, rest: seq<byte>)
    requires |s| >= 4 && DecodeGroup3(s[0], s[1], s[2], s[3]) == Some(g)
    requires Encode(rest) == s[4..]
    ensures Encode(g + rest) == s
  {
    assert |g| == 3 && Group3(g[0], g[1], g[2]) == s[..4] by {
      EncodeGroup(s[0], s[1], s[2], s[3]);
      assert s[..4] == [s[0], s[1], s[2], s[3]];
    }
    EncodeJoin(s, g, rest);
  }

  /** Taking a decoding apart, the converse of `DecodeJoin`: an accepted
      string that does not end after a padded first group has a full first
      group and a rest that both decode, and its bytes are theirs in order. */
  lemma DecodeSplit(s: string) returns (g: seq<byte>, rest: seq<byte>)
    requires |s| >= 4 && !(|s| == 4 && s[3] == '=') && Decode(s).Some?
    ensures DecodeGroup3(s[0], s[1], s[2], s[3]) == Some(g)
    ensures Decode(s[4..]) == Some(rest)
    ensures Decode(s) == Some(g + rest)
  {
    g := DecodeGroup3(s[0], s[1], s[2], s[3]).value;
    rest := Decode(s[4..]).value;
  }

  lemma EncodeJoin(s: string, g: seq<byte>, rest: seq<byte>)
    requires |s| >= 4 && |g| == 3
    requires Group3(g[0], g[1], g[2]) == s[..4]
    requires Encode(rest) == s[4..]
    ensures Encode(g + rest) == s
  {
    EncodeCons(g, rest);
    assert s == s[..4] + s[4..];
  }
}
