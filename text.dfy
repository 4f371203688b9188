/** The string operations the command-line parsing relies on: Rust's
    `str::split` on a single character (collected into a vector),
    `str::starts_with`, and the UTF-8 bytes of a string (`str::as_bytes`). */
module Text {
  import opened Bytes

  /** Number of occurrences of `c` in `s`. */
  function Count(s: string, c: char): nat
  {
    if s == [] then 0 else (if s[0] == c then 1 else 0) + Count(s[1..], c)
  }

  /** Index of the first occurrence of `c` in `s`, or `|s|` when there is none. */
  function IndexOf(s: string, c: char): (i: nat)
    ensures i <= |s|
    ensures i < |s| ==> s[i] == c
    ensures forall j :: 0 <= j < i ==> s[j] != c
  {
    if s == [] then 0 else if s[0] == c then 0 else 1 + IndexOf(s[1..], c)
  }

  /** `s.split(c).collect::<Vec<_>>()`: the pieces between the occurrences of
      `c`, including the empty ones. An empty string still gives one piece. */
  function Split(s: string, c: char): (r: seq<string>)
    ensures 1 <= |r| <= |s| + 1
  {
    if c !in s then [s]
    else
      var i := IndexOf(s, c);
      [s[..i]] + Split(s[i + 1..], c)
  }

  /** Joining the pieces with the separator gives the input back. */
  function Join(parts: seq<string>, c: char): string
  {
    if parts == [] then []
    else if |parts| == 1 then parts[0]
    else parts[0] + [c] + Join(parts[1..], c)
  }

  lemma {:induction false} CountAppend(a: string, b: string, c: char)
    ensures Count(a + b, c) == Count(a, c) + Count(b, c)
  {
    if a == [] {
      assert a + b == b;
    } else {
      assert (a + b)[1..] == a[1..] + b;
      CountAppend(a[1..], b, c);
    }
  }

  lemma {:induction false} CountZero(s: string, c: char)
    ensures Count(s, c) == 0 <==> c !in s
  {
    if s != [] {
      CountZero(s[1..], c);
      assert s == [s[0]] + s[1..];
    }
  }

  /** Splitting gives one more piece than there are separators, no piece
      contains the separator, and joining the pieces restores the string. */
  lemma SplitProperties(s: string, c: char)
    ensures |Split(s, c)| == Count(s, c) + 1
    ensures forall k :: 0 <= k < |Split(s, c)| ==> c !in Split(s, c)[k]
    ensures Join(Split(s, c), c) == s
  {
    SplitCount(s, c);
    SplitPieces(s, c);
    SplitJoin(s, c);
  }

  /** The string around its first separator. */
  lemma AroundFirst(s: string, c: char)
    requires c in s
    ensures var i := IndexOf(s, c);
      i < |s| && s == s[..i] + [c] + s[i + 1..] && c !in s[..i] &&
      Split(s, c) == [s[..i]] + Split(s[i + 1..], c)
  {
    var i := IndexOf(s, c);
    assert s == s[..i] + [c] + s[i + 1..];
  }

  lemma {:induction false} SplitCount(s: string, c: char)
    ensures |Split(s, c)| == Count(s, c) + 1
    decreases |s|
  {
    if c !in s {
      CountZero(s, c);
    } else {
      AroundFirst(s, c);
      var i := IndexOf(s, c);
      var rest := s[i + 1..];
      SplitCount(rest, c);
      CountAppend(s[..i] + [c], rest, c);
      CountAppend(s[..i], [c], c);
      CountZero(s[..i], c);
      assert Count([c], c) == 1;
    }
  }

  lemma {:induction false} SplitPieces(s: string, c: char)
    ensures forall k :: 0 <= k < |Split(s, c)| ==> c !in Split(s, c)[k]
    decreases |s|
  {
    if c in s {
      AroundFirst(s, c);
      SplitPieces(s[IndexOf(s, c) + 1..], c);
    }
  }

  lemma {:induction false} SplitJoin(s: string, c: char)
    ensures Join(Split(s, c), c) == s
    decreases |s|
  {
    if c in s {
      AroundFirst(s, c);
      var i := IndexOf(s, c);
      var rest := s[i + 1..];
      SplitJoin(rest, c);
      var parts := Split(s, c);
      assert parts[0] == s[..i] && parts[1..] == Split(rest, c);
    }
  }

  /** The source's test "exactly two pieces" holds exactly when the separator
      occurs once; the pieces are then the text before and after it. */
  lemma TwoPieces(s: string, c: char)
    ensures |Split(s, c)| == 2 <==> Count(s, c) == 1
    ensures Count(s, c) == 1 ==>
      Split(s, c) == [s[..IndexOf(s, c)], s[IndexOf(s, c) + 1..]]
  {
    SplitProperties(s, c);
    if Count(s, c) == 1 {
      CountZero(s, c);
      var i := IndexOf(s, c);
      var rest := s[i + 1..];
      assert s == s[..i] + [c] + rest;
      CountAppend(s[..i] + [c], rest, c);
      CountAppend(s[..i], [c], c);
      CountZero(s[..i], c);
      assert Count([c], c) == 1;
      CountZero(rest, c);
    }
  }

  /** `str::starts_with`. */
  predicate StartsWith(s: string, prefix: string)
  {
    |prefix| <= |s| && s[..|prefix|] == prefix
  }

  /** Every character is below 0x80: the string is its own byte sequence. */
  predicate IsAscii(s: string)
  {
    forall i :: 0 <= i < |s| ==> s[i] as int < 0x80
  }

  /** The UTF-8 encoding of one character (section 3 of RFC 3629): a single
      byte below 0x80, otherwise a lead byte and continuation bytes, each at
      least 0x80. */
  function CharUtf8(c: char): (b: seq<byte>)
    ensures 1 <= |b| <= 4
    ensures c as int < 0x80 ==> b == [c as int]
    ensures c as int >= 0x80 ==> forall i :: 0 <= i < |b| ==> b[i] >= 0x80
  {
    var n := c as int;
    if n < 0x80 then [n]
    else if n < 0x800 then [0xC0 + n / 64, 0x80 + n % 64]
    else if n < 0x10000 then [0xE0 + n / 4096, 0x80 + (n / 64) % 64, 0x80 + n % 64]
    else [0xF0 + n / 262144, 0x80 + (n / 4096) % 64, 0x80 + (n / 64) % 64, 0x80 + n % 64]
  }

  /** `str::as_bytes`: the UTF-8 encoding of a string. */
  function Utf8(s: string): seq<byte>
  {
    if s == [] then [] else CharUtf8(s[0]) + Utf8(s[1..])
  }

  /** A string below 0x80 is encoded one byte per character, each byte the
      character's code. */
  lemma {:induction false} Utf8Ascii(s: string)
    requires IsAscii(s)
    ensures |Utf8(s)| == |s|
    ensures forall i :: 0 <= i < |s| ==> Utf8(s)[i] == s[i] as int
  {
    if s != [] {
      assert IsAscii(s[1..]) by {
        forall i | 0 <= i < |s[1..]| ensures s[1..][i] as int < 0x80 {
          assert s[1..][i] == s[i + 1];
        }
      }
      Utf8Ascii(s[1..]);
    }
  }

  /** A string with a character from 0x80 up has a byte from 0x80 up. */
  lemma {:induction false} Utf8HighByte(s: string) returns (k: nat)
    requires !IsAscii(s)
    ensures k < |Utf8(s)| && Utf8(s)[k] >= 0x80
  {
    if s[0] as int >= 0x80 {
      k := 0;
    } else {
      assert !IsAscii(s[1..]) by {
        var i :| 0 <= i < |s| && s[i] as int >= 0x80;
        assert s[1..][i - 1] == s[i];
      }
      var j := Utf8HighByte(s[1..]);
      k := j + 1;
    }
  }
}
