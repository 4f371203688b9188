/** The `hex` crate: `hex::encode` writes two lowercase digits per byte, high
    nibble first; `hex::decode` reads the UTF-8 bytes of its text, accepts
    either case, rejects an odd number of bytes before looking at any digit,
    and otherwise reports the first byte that is not a hexadecimal digit,
    read as a `char`, with its byte position. This is base16 (section 8 of
    RFC 4648) with a lowercase output alphabet. */
module Hex {
  import opened Wrappers
  import opened Bytes
  import opened Text

  /** `hex::FromHexError` as far as `decode` can produce it. */
  datatype HexError = OddLength | InvalidHexCharacter(c: char, index: nat)

  /** The output alphabet of `hex::encode`: `0`-`9` and `a`-`f`. */
  predicate IsLowerHex(c: char) { '0' <= c <= '9' || 'a' <= c <= 'f' }

  function NibbleChar(n: nat): (c: char)
    requires n < 16
    ensures IsLowerHex(c)
  {
    if n < 10 then ('0' as int + n) as char else ('a' as int + n - 10) as char
  }

  /** The crate's digit reader: `A`-`F`, `a`-`f` and `0`-`9`. */
  function NibbleValue(c: char): (r: Option<nat>)
    ensures r.Some? ==> r.value < 16
  {
    if 'A' <= c <= 'F' then Some(c as int - 'A' as int + 10)
    else if 'a' <= c <= 'f' then Some(c as int - 'a' as int + 10)
    else if '0' <= c <= '9' then Some(c as int - '0' as int)
    else None
  }

  predicate IsHexChar(c: char) { NibbleValue(c).Some? }

  predicate AllHex(s: string) { forall i :: 0 <= i < |s| ==> IsHexChar(s[i]) }

  /** The byte written by the digit pair `hi lo`. */
  function PairValue(hi: char, lo: char): byte
    requires IsHexChar(hi) && IsHexChar(lo)
  {
    NibbleValue(hi).value * 16 + NibbleValue(lo).value
  }

  lemma NibbleRoundTrip(n: nat)
    requires n < 16
    ensures NibbleValue(NibbleChar(n)) == Some(n)
  {
  }

  /** `hex::encode`. */
  function Encode(b: seq<byte>): (s: string)
    ensures |s| == 2 * |b|
    ensures forall i :: 0 <= i < |s| ==> IsLowerHex(s[i])
  {
    if b == [] then []
    else [NibbleChar(b[0] / 16), NibbleChar(b[0] % 16)] + Encode(b[1..])
  }

  /** Decodes the digit pairs of `s`, which begins at position `start` of
      the whole input, stopping at the first bad character. */
  function DecodePairs(s: string, start: nat): (r: Result<seq<byte>, HexError>)
    requires |s| % 2 == 0
    ensures r.Ok? <==> AllHex(s)
    ensures r.Ok? ==> |r.value| == |s| / 2
    ensures r.Err? ==>
      r.error.InvalidHexCharacter? && start <= r.error.index < start + |s| &&
      r.error.c == s[r.error.index - start] && !IsHexChar(r.error.c) &&
      forall j :: 0 <= j < r.error.index - start ==> IsHexChar(s[j])
    decreases |s|
  {
    if s == [] then Ok([])
    else if !IsHexChar(s[0]) then Err(InvalidHexCharacter(s[0], start))
    else if !IsHexChar(s[1]) then Err(InvalidHexCharacter(s[1], start + 1))
    else
      var rest := DecodePairs(s[2..], start + 2);
      AllHexTail(s);
      if rest.Err? then
        assert forall j :: 2 <= j < |s| ==> s[j] == s[2..][j - 2];
        rest
      else Ok([PairValue(s[0], s[1])] + rest.value)
  }

  lemma AllHexTail(s: string)
    requires |s| >= 2 && IsHexChar(s[0]) && IsHexChar(s[1])
    ensures AllHex(s) <==> AllHex(s[2..])
  {
    if AllHex(s[2..]) {
      forall i | 0 <= i < |s| ensures IsHexChar(s[i]) {
        if i >= 2 { assert s[i] == s[2..][i - 2]; }
      }
    }
  }

  /** The bytes of `s` as the crate reads them, each as the `char` of the
      same value. */
  function Units(s: string): string
  {
    seq(|Utf8(s)|, i requires 0 <= i < |Utf8(s)| => Utf8(s)[i] as char)
  }

  /** The hexadecimal digits are all below 0x80. */
  lemma HexIsAscii(s: string)
    requires AllHex(s)
    ensures IsAscii(s)
  {
    forall i | 0 <= i < |s| ensures s[i] as int < 0x80 {
      assert IsHexChar(s[i]);
    }
  }

  /** Text below 0x80 is its own byte sequence. */
  lemma UnitsAscii(s: string)
    requires IsAscii(s)
    ensures Units(s) == s
  {
    Utf8Ascii(s);
  }

  /** Bytes that are all hexadecimal digits come from text below 0x80. */
  lemma HexUnits(s: string)
    ensures AllHex(Units(s)) ==> IsAscii(s)
  {
    if !IsAscii(s) {
      var k := Utf8HighByte(s);
      assert !IsHexChar(Units(s)[k]);
    }
  }

  /** `hex::decode`: succeeds exactly on an even number of hexadecimal
      digits, giving one byte per pair; an odd number of UTF-8 bytes is
      `OddLength`; otherwise the error names the first byte that is not a
      digit, read as a `char`, and its byte position. */
  function Decode(s: string): (r: Result<seq<byte>, HexError>)
    ensures r.Ok? <==> |s| % 2 == 0 && AllHex(s)
    ensures r.Ok? ==> |r.value| == |s| / 2
    ensures |Utf8(s)| % 2 != 0 <==> r == Err(OddLength)
    ensures r.Err? && |Utf8(s)| % 2 == 0 ==>
      r.error.InvalidHexCharacter? && r.error.index < |Utf8(s)| &&
      r.error.c == Utf8(s)[r.error.index] as char && !IsHexChar(r.error.c) &&
      forall j :: 0 <= j < r.error.index ==> IsHexChar(Utf8(s)[j] as char)
  {
    var u := Units(s);
    UnitsHex(s);
    assert forall j :: 0 <= j < |u| ==> u[j] == Utf8(s)[j] as char;
    if |u| % 2 != 0 then Err(OddLength) else DecodePairs(u, 0)
  }

  /** Where either the text or its bytes are all digits, they are the same. */
  lemma UnitsHex(s: string)
    ensures AllHex(Units(s)) || AllHex(s) ==> Units(s) == s
  {
    if AllHex(Units(s)) {
      HexUnits(s);
      UnitsAscii(s);
    } else if AllHex(s) {
      HexIsAscii(s);
      UnitsAscii(s);
    }
  }

  /** On text below 0x80 the decoder reads the characters themselves. */
  lemma DecodeAscii(s: string)
    requires IsAscii(s) && |s| % 2 == 0
    ensures Decode(s) == DecodePairs(s, 0)
  {
    UnitsAscii(s);
  }

  /** Byte `k` of a decoding is the value of digit pair `k`. */
  lemma {:induction false} DecodePairsAt(s: string, start: nat, k: nat)
    requires |s| % 2 == 0 && AllHex(s) && k < |s| / 2
    ensures DecodePairs(s, start).value[k] == PairValue(s[2 * k], s[2 * k + 1])
    decreases |s|
  {
    AllHexTail(s);
    if k > 0 {
      DecodePairsAt(s[2..], start + 2, k - 1);
      assert s[2 * k] == s[2..][2 * (k - 1)];
      assert s[2 * k + 1] == s[2..][2 * (k - 1) + 1];
    }
  }

  lemma DecodeAt(s: string, k: nat)
    requires Decode(s).Ok? && k < |s| / 2
    ensures Decode(s).value[k] == PairValue(s[2 * k], s[2 * k + 1])
  {
    HexIsAscii(s);
    DecodeAscii(s);
    DecodePairsAt(s, 0, k);
  }

  /** Decoding undoes encoding, wherever the text starts. */
  lemma {:induction false} DecodePairsEncode(b: seq<byte>, start: nat)
    ensures DecodePairs(Encode(b), start) == Ok(b)
  {
    if b != [] {
      var s := Encode(b);
      var hi, lo := b[0] / 16, b[0] % 16;
      assert s == [NibbleChar(hi), NibbleChar(lo)] + Encode(b[1..]);
      NibbleRoundTrip(hi);
      NibbleRoundTrip(lo);
      assert PairValue(s[0], s[1]) == hi * 16 + lo == b[0];
      assert s[2..] == Encode(b[1..]);
      DecodePairsEncode(b[1..], start + 2);
      assert IsHexChar(s[0]) && IsHexChar(s[1]);
      assert DecodePairs(s, start) == Ok([b[0]] + b[1..]);
      assert b == [b[0]] + b[1..];
    }
  }

  /** Decoding undoes encoding. */
  lemma DecodeEncode(b: seq<byte>)
    ensures Decode(Encode(b)) == Ok(b)
  {
    var s := Encode(b);
    assert IsAscii(s);
    DecodeAscii(s);
    DecodePairsEncode(b, 0);
  }

  /** On lowercase digits, encoding undoes decoding. */
  lemma {:induction false} EncodeDecodePairs(s: string, start: nat)
    requires |s| % 2 == 0
    requires forall i :: 0 <= i < |s| ==> IsLowerHex(s[i])
    ensures DecodePairs(s, start).Ok? && Encode(DecodePairs(s, start).value) == s
    decreases |s|
  {
    if s != [] {
      assert forall i :: 0 <= i < |s[2..]| ==> s[2..][i] == s[i + 2];
      EncodeDecodePairs(s[2..], start + 2);
      var v := PairValue(s[0], s[1]);
      EncodePair(s[0], s[1]);
      var rest := DecodePairs(s[2..], start + 2).value;
      assert DecodePairs(s, start).value == [v] + rest;
      assert ([v] + rest)[1..] == rest;
      assert s == [s[0], s[1]] + s[2..];
    }
  }

  /** A lowercase digit pair is what encoding its byte writes. */
  lemma EncodePair(hi: char, lo: char)
    requires IsLowerHex(hi) && IsLowerHex(lo)
    ensures NibbleChar(PairValue(hi, lo) / 16) == hi && NibbleChar(PairValue(hi, lo) % 16) == lo
  {
    var v := PairValue(hi, lo);
    assert v / 16 == NibbleValue(hi).value && v % 16 == NibbleValue(lo).value;
  }

  lemma EncodeDecode(s: string)
    requires |s| % 2 == 0
    requires forall i :: 0 <= i < |s| ==> IsLowerHex(s[i])
    ensures Decode(s).Ok? && Encode(Decode(s).value) == s
  {
    assert IsAscii(s);
    DecodeAscii(s);
    EncodeDecodePairs(s, 0);
  }

  /** The pattern text `dead` reads as the two bytes DE AD. */
  lemma DecodeExample()
    ensures Decode("dead") == Ok([0xde, 0xad])
  {
    var s := "dead";
    assert IsHexChar(s[0]) && IsHexChar(s[1]) && IsHexChar(s[2]) && IsHexChar(s[3]);
    var d := Decode(s);
    assert |d.value| == 2;
    DecodeAt(s, 0);
    DecodeAt(s, 1);
    assert PairValue(s[0], s[1]) == 0xde && PairValue(s[2], s[3]) == 0xad;
    assert d.value == [0xde, 0xad];
  }

  /** The decoder counts UTF-8 bytes: `é` is the two bytes C3 A9, so it is
      an even length whose first byte is not a digit, while `éa` is three
      bytes and so an odd length. */
  lemma DecodeNonAscii()
    ensures Decode("\U{E9}") == Err(InvalidHexCharacter(0xC3 as char, 0))
    ensures Decode("\U{E9}a") == Err(OddLength)
  {
    var e := "\U{E9}";
    assert Utf8(e) == [0xC3, 0xA9] by {
      assert e[1..] == [];
    }
    assert Utf8(e + "a") == [0xC3, 0xA9, 0x61] by {
      assert (e + "a")[1..] == "a";
      assert "a"[1..] == [];
    }
    var r := Decode(e);
    assert r.Err?;
  }
}
