/** `parse_filter` (src/main.rs): compiles one `--filter offset:value`
    argument into a memory-compare filter. */
module Filters {
  import opened Wrappers
  import opened Bytes
  import opened Text
  import opened Types
  import Decimal
  import Hex

  /** The text before the single `:` of a filter argument. */
  function OffsetText(filter: string): string
  {
    filter[..IndexOf(filter, ':')]
  }

  /** The text after the single `:` of a filter argument. */
  function ValueText(filter: string): string
  {
    var i := IndexOf(filter, ':');
    if i < |filter| then filter[i + 1..] else []
  }

  /** The pattern bytes of a filter value: hexadecimal after `0x`, otherwise
      a base58 public key. */
  function PatternBytes(codecs: Codecs, value: string): (r: Result<seq<byte>, Error>)
    ensures StartsWith(value, "0x") ==>
      (r.Ok? <==> Hex.Decode(value[2..]).Ok?) &&
      (r.Ok? ==> r.value == Hex.Decode(value[2..]).value && 2 * |r.value| == |value| - 2) &&
      (r.Err? ==> r == Err(BadHex(Hex.Decode(value[2..]).error)))
    ensures !StartsWith(value, "0x") ==>
      (r.Ok? <==> codecs.pubkeyFromStr(value).Some?) &&
      (r.Ok? ==> r.value == codecs.pubkeyFromStr(value).value && |r.value| == 32) &&
      (r.Err? ==> r == Err(BadAddress(value)))
  {
    if StartsWith(value, "0x") then
      match Hex.Decode(value[2..])
      case Ok(bytes) => Ok(bytes)
      case Err(e) => Err(BadHex(e))
    else
      match codecs.pubkeyFromStr(value)
      case Some(pubkey) => Ok(pubkey)
      case None => Err(BadAddress(value))
  }

  /** `parse_filter`. The argument is split at every `:` and must give
      exactly two pieces; the offset is a `usize`; the value gives the
      pattern. The offset is checked before the value. */
  function ParseFilter(codecs: Codecs, filter: string): (r: Result<RpcFilter, Error>)
    ensures Count(filter, ':') != 1 ==> r == Err(BadFilterSyntax)
    ensures Count(filter, ':') == 1 && Decimal.ParseUsize(OffsetText(filter)).Err? ==>
      r == Err(BadFilterOffset(Decimal.ParseUsize(OffsetText(filter)).error))
    ensures Count(filter, ':') == 1 && Decimal.ParseUsize(OffsetText(filter)).Ok? ==>
      (r.Ok? <==> PatternBytes(codecs, ValueText(filter)).Ok?) &&
      (r.Err? ==> r == Err(PatternBytes(codecs, ValueText(filter)).error))
    ensures r.Ok? ==>
      Count(filter, ':') == 1 &&
      r == Ok(Memcmp(Decimal.ParseUsize(OffsetText(filter)).value,
                     PatternBytes(codecs, ValueText(filter)).value))
  {
    var parts := Split(filter, ':');
    TwoPieces(filter, ':');
    if |parts| != 2 then Err(BadFilterSyntax)
    else
      assert ':' in filter by { CountZero(filter, ':'); }
      match Decimal.ParseUsize(parts[0])
      case Err(kind) => Err(BadFilterOffset(kind))
      case Ok(offset) =>
        var bytes :- PatternBytes(codecs, parts[1]);
        Ok(Memcmp(offset, bytes))
  }

  /** Every pattern the base58 branch produces is a whole public key. */
  lemma AddressPatternsAreKeys(codecs: Codecs, filter: string)
    requires ParseFilter(codecs, filter).Ok?
    requires !StartsWith(ValueText(filter), "0x")
    ensures |ParseFilter(codecs, filter).value.bytes| == 32
  {
  }

  /** A filter `offset:0xdigits` whose pieces hold no further `:` is the
      memory-compare filter of the decoded digits at the parsed offset; a bad
      offset is reported before bad digits. */
  lemma HexFilter(codecs: Codecs, offset: string, digits: string)
    requires ':' !in offset && ':' !in digits
    ensures ParseFilter(codecs, offset + ":0x" + digits) ==
      match Decimal.ParseUsize(offset)
      case Err(kind) => Err(BadFilterOffset(kind))
      case Ok(n) =>
        match Hex.Decode(digits)
        case Ok(bytes) => Ok(Memcmp(n, bytes))
        case Err(e) => Err(BadHex(e))
  {
    var value := "0x" + digits;
    var f := offset + ":" + value;
    assert f == offset + ":0x" + digits;
    assert ':' !in value by {
      CountAppend("0x", digits, ':');
      CountZero(digits, ':');
      CountZero("0x", ':');
      CountZero(value, ':');
    }
    WholeFilter(offset, value);
    assert StartsWith(value, "0x");
    assert value[2..] == digits;
  }

  /** A filter argument with one `:` splits into its offset and value. */
  lemma WholeFilter(offset: string, value: string)
    requires ':' !in offset && ':' !in value
    ensures var f := offset + ":" + value;
      Count(f, ':') == 1 && OffsetText(f) == offset && ValueText(f) == value
  {
    var f := offset + ":" + value;
    CountAppend(offset, ":" + value, ':');
    CountAppend(":", value, ':');
    CountZero(offset, ':');
    CountZero(value, ':');
    assert f == offset + (":" + value);
    assert Count(":", ':') == 1;
    var i := IndexOf(f, ':');
    assert f[|offset|] == ':';
    assert i == |offset|;
    assert f[..i] == offset;
    assert f[i + 1..] == value;
  }

  /** A filter with more than one `:` is refused even when its pieces would
      each parse: the source splits the whole argument. */
  lemma ExtraColonRefused(codecs: Codecs, a: string, b: string, c: string)
    ensures ParseFilter(codecs, a + ":" + b + ":" + c).Err?
  {
    var s := a + ":" + b + ":" + c;
    CountAppend(a + ":" + b, ":" + c, ':');
    CountAppend(a, ":" + b, ':');
    CountAppend(":", b, ':');
    CountAppend(":", c, ':');
    assert s == (a + ":" + b) + (":" + c);
    assert a + ":" + b == a + (":" + b);
    assert Count(":", ':') == 1;
  }
}
