/** The values the `accs` subcommand passes between its parts, and the
    external codecs it calls. The codecs are given as function values, so
    that every property below holds whatever those libraries do, within the
    result types they promise. */
module Types {
  import opened Wrappers
  import opened Bytes
  import Decimal
  import Hex

  /** One more than the largest `u64`. */
  const U64_LIMIT: nat := 0x1_0000_0000_0000_0000

  type u64 = x: nat | x < U64_LIMIT

  /** `solana_pubkey::Pubkey`: 32 opaque bytes. */
  type Pubkey = s: seq<byte> | |s| == 32 witness seq(32, _ => 0)

  /** `UiAccountData` as the RPC returns it for the `base64+zstd` encoding;
      only the client-side codec looks inside it. */
  datatype UiAccountData = UiAccountData(blob: string)

  /** The fields of `UiAccount` the report uses. The RPC already renders
      the owner as a base58 string. */
  datatype UiAccount = UiAccount(lamports: u64, owner: string, data: UiAccountData)

  /** One element of the RPC response: `(Pubkey, UiAccount)`. */
  type KeyedAccount = (Pubkey, UiAccount)

  /** The external codecs:
      - `pubkeyFromStr`: `Pubkey::from_str`, base58 text to 32 bytes or nothing;
      - `pubkeyToString`: `Pubkey::to_string`, its base58 rendering;
      - `decodeData`: `UiAccountData::decode`, base64 and zstd to raw bytes
        or nothing;
      - `deserializeAlt`: `AddressLookupTable::deserialize`, giving the table's
        addresses or an error message. */
  datatype Codecs = Codecs(
    pubkeyFromStr: string -> Option<Pubkey>,
    pubkeyToString: Pubkey -> string,
    decodeData: UiAccountData -> Option<seq<byte>>,
    deserializeAlt: seq<byte> -> Result<seq<Pubkey>, string>)

  /** `RpcFilterType` as the command builds it: a memory compare of an
      exact byte pattern at an offset, or an exact account size. */
  datatype RpcFilter = Memcmp(offset: nat, bytes: seq<byte>) | DataSize(size: u64)

  /** The ways the subcommand fails before, during or after the fetch. */
  datatype Error =
    | BadProgram(text: string)                       // `Pubkey::from_str(&program)`
    | BadDataRange                                   // "Data range must be offset:size"
    | BadDataNumber(kind: Decimal.IntErrorKind)      // a number of `--data`
    | BadFilterSyntax                                // "Filter must be offset:data"
    | BadFilterOffset(kind: Decimal.IntErrorKind)    // the offset of `--filter`
    | BadHex(hexError: Hex.HexError)                 // the `0x` value of `--filter`
    | BadAddress(text: string)                       // the base58 value of `--filter`
    | Rpc(message: string)                           // the program-accounts call
    | UnknownParser(name: string)                    // "Unknown parser: {}"
}
