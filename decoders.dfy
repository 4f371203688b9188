/** The decoder registry (`get_decoder`, `AltDecoder`) and the raw view that
    is written when no decoder is chosen. */
module Decoders {
  import opened Wrappers
  import opened Bytes
  import opened Types
  import Hex
  import Base64

  /** The `data` object of a report entry: the raw view
      `{type: "raw", hex, base64, size}` or the lookup-table view
      `{type: "address_lookup_table", addresses, num_addresses}`. */
  datatype DataValue =
    | Raw(hex: string, base64: string, size: nat)
    | AddressLookupTable(addresses: seq<string>, numAddresses: nat)

  /** The registered decoders; `alt` is the only one. */
  datatype Decoder = Alt

  /** `get_decoder`: `alt` names the lookup-table decoder, any other name is
      an error, and no name means no decoder. */
  function GetDecoder(parser: Option<string>): (r: Result<Option<Decoder>, Error>)
    ensures parser.None? <==> r == Ok(None)
    ensures parser == Some("alt") <==> r == Ok(Some(Alt))
    ensures r.Err? <==> parser.Some? && parser.value != "alt"
    ensures r.Err? ==> r.error == UnknownParser(parser.value)
  {
    match parser
    case Some(p) => if p == "alt" then Ok(Some(Alt)) else Err(UnknownParser(p))
    case None => Ok(None)
  }

  /** `AltDecoder::decode`: fails exactly when the table does not
      deserialize; otherwise lists the table's addresses in order, each in
      base58, with their number. */
  function AltDecode(codecs: Codecs, data: seq<byte>): (r: Result<DataValue, string>)
    ensures r.Ok? <==> codecs.deserializeAlt(data).Ok?
    ensures r.Err? ==> r.error == codecs.deserializeAlt(data).error
    ensures r.Ok? ==>
      var keys := codecs.deserializeAlt(data).value;
      r.value.AddressLookupTable? &&
      |r.value.addresses| == |keys| == r.value.numAddresses &&
      forall i :: 0 <= i < |keys| ==> r.value.addresses[i] == codecs.pubkeyToString(keys[i])
  {
    var keys :- codecs.deserializeAlt(data);
    var addresses := seq(|keys|, i requires 0 <= i < |keys| => codecs.pubkeyToString(keys[i]));
    Ok(AddressLookupTable(addresses, |addresses|))
  }

  /** `dec.decode(&data)` for a registered decoder. */
  function DecodeWith(codecs: Codecs, decoder: Decoder, data: seq<byte>): Result<DataValue, string>
  {
    match decoder
    case Alt => AltDecode(codecs, data)
  }

  /** The raw view: its size is the number of bytes, and both of its texts
      decode back to exactly those bytes; the hexadecimal text has two
      lowercase digits per byte. */
  function RawValue(data: seq<byte>): (r: DataValue)
    ensures r.Raw? && r.size == |data|
    ensures |r.hex| == 2 * r.size && Hex.Decode(r.hex) == Ok(data)
    ensures forall i :: 0 <= i < |r.hex| ==> Hex.IsLowerHex(r.hex[i])
    ensures Base64.Decode(r.base64) == Some(data)
    ensures |r.base64| == 4 * ((r.size + 2) / 3)
  {
    Hex.DecodeEncode(data);
    Base64.DecodeEncode(data);
    Base64.EncodeLength(data);
    Raw(Hex.Encode(data), Base64.Encode(data), |data|)
  }

  /** What the source promises of every `data` object it writes. */
  predicate Consistent(v: DataValue)
  {
    match v
    case Raw(hex, base64, size) =>
      |hex| == 2 * size && Hex.Decode(hex).Ok? && |Hex.Decode(hex).value| == size &&
      Base64.Decode(base64) == Some(Hex.Decode(hex).value)
    case AddressLookupTable(addresses, numAddresses) =>
      numAddresses == |addresses|
  }
}
