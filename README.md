# sol-acc `accs` in Dafny

`sol-acc accs <PROGRAM>` fetches every account owned by a Solana program
over JSON-RPC and prints a JSON report. This project models the part of the
subcommand that does work of its own, all of it in `src/main.rs`:

- compiling each `--filter offset:value` argument into a memory-compare
  filter (`parse_filter`);
- parsing `--data offset:length` into a data slice, collecting the user
  filters, appending the `--size` filter, and assembling the
  program-accounts configuration;
- choosing the decoder named by `--parser` (`get_decoder`) and the output
  shape of the lookup-table decoder (`AltDecoder::decode`);
- the result loop: decode each account's payload, decode or render it raw,
  push the entry, count it.

The model also proves the codecs the command writes with. Rust's
`usize::from_str` is `Decimal`. The `hex` crate is `Hex`. The `base64ct`
encoder is `Base64`, paired with a strict padded decoder.

Layout, one module per file:

| file | module | contents |
|---|---|---|
| wrappers.dfy | `Wrappers`, `Bytes` | `Option`, `Result`, `byte` |
| text.dfy | `Text` | `str::split(':')` and `collect`, counting, `starts_with`, UTF-8 bytes |
| decimal.dfy | `Decimal` | `usize::from_str` on a 64-bit target |
| hex.dfy | `Hex` | `hex::encode` / `hex::decode` |
| base64.dfy | `Base64` | `Base64::encode_string` and its decoder |
| types.dfy | `Types` | keys, accounts, filters, errors, the external codecs |
| filters.dfy | `Filters` | `parse_filter` |
| decoders.dfy | `Decoders` | `get_decoder`, `AltDecoder`, the raw view |
| request.dfy | `Request` | data slice, filter list, request configuration |
| pipeline.dfy | `Pipeline` | the per-account loop |
| accs.dfy | `Accs` | the whole `accs` arm, and worked examples |

Four external libraries are used. Base58 parsing and printing of public keys
(`Pubkey::from_str`, `Pubkey::to_string`), the `base64+zstd` payload decoder
(`UiAccountData::decode`) and `AddressLookupTable::deserialize` are
function-valued fields of `Types.Codecs`. The RPC call is the parameter
`fetch` of `Accs.RunAccs`. Every property therefore holds for any behaviour
of those libraries within their result types.

Most of the logic is pure and is written as functions. The `accs` arm itself
works step by step. It is the method `Accs.RunAccs`: it pushes the size
filter onto the compiled filters and then runs the account loop, which is
the method `Pipeline.ProcessAccounts` (a `for` loop with `continue`). Each
method is proved equal to a specification function (`Accs.AccsOutcome`,
`Pipeline.Processed`), and the properties are lemmas about those functions.

Behaviour of the code worth knowing:

- A filter or data range is split at every `:`, not only at the first one.
  So `1:2:3` is refused (`Filters.ExtraColonRefused`).
- A `0x` value with nothing after it is accepted. It decodes to the empty
  pattern.
- An unknown `--parser` name is detected only after the fetch, not before
  any network call (`Accs.UnknownParserFollowsFetch`).
- The report's `program` is the argument exactly as the user wrote it.

## Model

| member | source | states |
|---|---|---|
| Text.Split | src/main.rs:95 | `split(':').collect()` gives at least one piece, and at most one more than the string has characters; `Text.SplitProperties` fixes the pieces themselves |
| Text.SplitProperties | src/main.rs:95 | splitting at `:` gives one more piece than there are colons, no piece contains a colon, and joining the pieces back gives the input |
| Text.TwoPieces | src/main.rs:95-96 | the "exactly two parts" test holds exactly when `:` occurs once, and the parts are then the text before and after it |
| Text.IndexOf | src/main.rs:95 | the position returned is the first `:` (or the length when there is none) |
| Text.Utf8Ascii | src/main.rs:102 | text whose characters are all below 0x80 is its own UTF-8 byte sequence |
| Text.Utf8HighByte | src/main.rs:102 | text with a character from 0x80 up has a UTF-8 byte from 0x80 up, which no hexadecimal digit is |
| Decimal.Scan | src/main.rs:98 | the digit loop succeeds exactly on all-digit text whose value stays below 2^64, and returns that value |
| Decimal.ParseUsize | src/main.rs:98 | `usize` parsing accepts exactly an optional `+` followed by a non-empty digit string worth less than 2^64; it gives the digits' value; empty text is the `Empty` error |
| Decimal.ParseToDecimal | src/main.rs:98 | every `usize` written in decimal parses back to itself |
| Hex.Encode | src/main.rs:201 | hex writes two lowercase digits per byte |
| Hex.Decode | src/main.rs:102 | decoding reads the UTF-8 bytes of the text; it succeeds exactly on even-length all-hex text and gives half as many bytes; `OddLength` is reported exactly when the number of bytes is odd; otherwise the error is the first byte that is not a digit, read as a `char`, with its byte position |
| Hex.DecodeNonAscii | src/main.rs:102 | `é` (bytes C3 A9) is an invalid character C3 at position 0, and `éa` (three bytes) is `OddLength` |
| Hex.DecodeAt | src/main.rs:102 | byte `k` of a decoding is the value of digit pair `k` |
| Hex.DecodeEncode | src/main.rs:201 | decoding the hex of any bytes gives those bytes back |
| Hex.EncodeDecode | src/main.rs:102 | encoding the decoding of lowercase even-length hex gives the text back |
| Hex.DecodeExample | src/main.rs:102 | `dead` decodes to the bytes DE AD |
| Base64.Encode | src/main.rs:202 | the padded encoding is a whole number of four-character groups; `Base64.EncodeLength`, `Base64.DecodeEncode` and `Base64.EncodeDecode` fix its length and its characters |
| Base64.CharIndex | src/main.rs:202 | every 6-bit value has a distinct alphabet character, which is not `=` |
| Base64.EncodeLength | src/main.rs:202 | the padded encoding of `n` bytes has `4 * ((n + 2) / 3)` characters |
| Base64.DecodeEncode | src/main.rs:202 | the strict decoder reads the encoding of any bytes back to those bytes |
| Base64.EncodeDecode | src/main.rs:202 | every string the strict decoder accepts is the encoding of what it decodes to, so the encoding is the only one |
| Filters.PatternBytes | src/main.rs:101-107 | after `0x`, the pattern is the hex decoding of the rest, or the call fails with its hex error; otherwise it is the 32 bytes of the base58 key, or the call fails with a bad-address error |
| Filters.ParseFilter | src/main.rs:94-113 | a filter without exactly one `:` is a syntax error; a bad offset is an offset error, reported before the value is read; otherwise the call succeeds exactly when the pattern does, fails with the pattern's error, and gives `Memcmp(parsed offset, pattern)` |
| Filters.AddressPatternsAreKeys | src/main.rs:103-106 | every successful non-`0x` pattern is 32 bytes long |
| Filters.WholeFilter | src/main.rs:95-99 | `offset:value` without further colons splits into exactly that offset and that value |
| Filters.HexFilter | src/main.rs:94-113 | `offset:0xdigits` is the memory compare of the hex decoding at the parsed offset, with the offset error taking precedence over the hex error |
| Filters.ExtraColonRefused | src/main.rs:95-96 | any argument with two or more colons is refused |
| Decoders.GetDecoder | src/main.rs:86-92 | `alt` gives the lookup-table decoder, no name gives no decoder, and exactly the other names give an unknown-parser error carrying that name |
| Decoders.AltDecode | src/main.rs:67-84 | the decoder fails exactly when the table does not deserialize, passing its error on; otherwise it lists the base58 strings of the table's addresses in order, and `num_addresses` is their number |
| Decoders.RawValue | src/main.rs:199-204 | the raw view's `size` is the byte count; its `hex` is lowercase, has `2 * size` digits and decodes to the bytes; its `base64` decodes strictly to the bytes and has the padded length |
| Request.ParseDataSlice | src/main.rs:137-145 | no `--data` gives no slice; without exactly one `:` the range is refused; the slice is produced exactly when both sides are `usize` text, from their values; otherwise the error is the offset's and then the length's |
| Request.FirstErr | src/main.rs:148-151 | every result before the returned position is a value, and the one at it is an error |
| Request.Collect | src/main.rs:151 | collecting results succeeds exactly when none is an error, with every value in order; otherwise it is the first error |
| Request.FirstBad | src/main.rs:148-151 | every filter before the returned position compiles, and the filter at it does not |
| Request.UserFilters | src/main.rs:148-151 | the filters compile exactly when none fails; they then give one filter per argument, in order; otherwise the error is the first failing argument's |
| Request.FilterList | src/main.rs:148-156 | the user filters in order, followed by exactly one `DataSize` filter when `--size` is given; the list exists exactly when every filter compiles |
| Request.FilterPair | src/main.rs:148-151 | two compiling arguments give their two filters in order |
| Request.BuildRequest | src/main.rs:134-170 | program key, then data slice, then filters, each error stopping the build; the request exists exactly when all three succeed; the encoding is `base64+zstd`; the slice is present exactly when `--data` is given; the filter list is absent exactly when there are no filters and no `--size`, and is otherwise the compiled list unchanged |
| Pipeline.StepFor | src/main.rs:181-212 | an account gives an entry exactly when its payload decodes and the decoder (if any) accepts it; it is skipped silently exactly when the payload does not decode; otherwise the decoder's error is recorded against the account's key; an entry carries the key's base58, the lamports, the owner and the decoded or raw data |
| Pipeline.Processed | src/main.rs:181-214 | the loop pushes at most one entry per account; `Pipeline.ProcessedSelects` says which and in what order |
| Pipeline.ProcessAccounts | src/main.rs:178-216 | the loop's `results` are the entries of `Processed`, and `processed` is their number |
| Pipeline.ProcessedKept | src/main.rs:181-214 | the loop keeps exactly the entries of its passes, in order |
| Pipeline.KeptSelects | src/main.rs:181-214 | the kept entries are an order-preserving selection of the passes, identified by increasing positions |
| Pipeline.ProcessedSelects | src/main.rs:181-214 | the entries are an order-preserving subsequence of the accounts: exactly the accounts that give an entry, in the order received |
| Pipeline.EntriesConsistent | src/main.rs:182-205 | every entry's data is consistent; without a decoder it is a raw view, and with `alt` it is a lookup-table view |
| Pipeline.EntryKeysParse | src/main.rs:207-208 | when base58 round-trips, each entry's `pubkey` parses back to the key of the account it came from |
| Pipeline.AltFailureIsolated | src/main.rs:187-193 | a table that fails to deserialize is skipped and the next account is still reported |
| Accs.AccsOutcome | src/main.rs:134-222 | a report's `count` is the number of its entries and its `program` is the argument as given |
| Accs.RunAccs | src/main.rs:134-222 | the imperative subcommand computes exactly `AccsOutcome` |
| Accs.RequestErrorsPrecedeFetch | src/main.rs:134-173 | a bad program key, data slice or filter is the outcome whatever the server would answer |
| Accs.UnknownParserFollowsFetch | src/main.rs:172-177 | with an unknown parser name, a failing fetch reports its own error, and a successful one is followed by the unknown-parser error |
| Accs.ReportSelectsAccounts | src/main.rs:178-222 | a report lists, in order, exactly the fetched accounts that give an entry, and `count` is their number |
| Accs.ReportEntriesConsistent | src/main.rs:182-205 | without `--parser` every entry is a consistent raw view; with `--parser alt` every entry is a lookup-table view |
| Accs.EmptyFetch | src/main.rs:172-222 | an empty answer gives the report with count 0 and no entries |
| Accs.RawThreeBytes | src/main.rs:199-204 | the bytes 00 01 02 render as hex `000102`, base64 `AAEC`, size 3 |
| Accs.HexFilterExample | src/main.rs:94-113 | `10:0xdead` compiles to the bytes DE AD at offset 10 |
| Accs.AddressFilterExample | src/main.rs:103-110 | `0:<address>` compiles to the address's 32 bytes at offset 0 |
| Accs.TwoFiltersExample | src/main.rs:148-156 | `-f 10:0xdead -f 0:<address>` sends both patterns in that order and no size filter |
| Accs.AltTwoAddresses | src/main.rs:67-84 | a table with two addresses lists both, in order, with `num_addresses` 2 |

## Left out

- The RPC client is left out: building it, its 15-minute timeout, the `processed` commitment, and the transport. This is network I/O. The call is the function parameter `fetch`, and its failure is `Rpc(message)`.
- Command-line parsing by `clap` is left out, together with the `RPC_NODE` default URL and the `u64` parsing of `--size`. `AccsArgs` holds the parsed values. The `--parser`/`--data` exclusion is the precondition `NoConflict` of `Accs.RunAccs`. `url` and `output` are carried but not used.
- The external codecs are abstract functions. These are base58 keys, the `base64+zstd` payload decoder, and the lookup-table deserializer. Their output is only partly fixed: base58 text is assumed to round-trip only where `Pipeline.KeysRoundTrip` is required.
- JSON rendering, pretty-printing, writing the file or standard output, and the `Fetched`/`Processed`/`Saved` diagnostics are output plumbing. The report is the value `Accs.Report`. The `Failed to decode` diagnostic is recorded as the `DecodeFailed` step.
- The other fields of `UiAccount` are left out (`executable`, `rent_epoch`, `space`). The report does not use them.
- `usize` is taken to be 64 bits wide, so `Decimal.USIZE_LIMIT` is 2^64.
- Pipeline.ProcessAccounts: `processed` is an `i32` in the source, because nothing else fixes the type of its literal `0`. It would wrap, or panic in a debug build, past 2^31 - 1 kept accounts. The model counts without bound, and so do `Accs.RunAccs` and the report's `count`.
- Text.Utf8: only encoding is modelled. The decoder never needs to go back from bytes to text.
- Base64: only the encoder is part of the source. The decoder in the model is the partner definition against which the encoder is proved.
