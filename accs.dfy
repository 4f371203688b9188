/** The `accs` arm of `main` (src/main.rs lines 119-232) from the parsed
    arguments to the report: build the request, fetch, resolve the decoder,
    run the loop. The RPC call is the parameter `fetch`. */
module Accs {
  import opened Wrappers
  import opened Bytes
  import opened Types
  import opened Filters
  import opened Decoders
  import opened Request
  import opened Pipeline
  import Hex
  import Base64
  import Decimal
  import Text

  /** `get_program_ui_accounts_with_config`: the accounts of a program, in
      the order the server returns them, or a transport error. */
  type Fetch = (Pubkey, ProgramAccountsConfig) -> Result<seq<KeyedAccount>, string>

  /** The JSON object the command prints or saves. */
  datatype Report = Report(program: string, count: nat, accounts: seq<Entry>)

  /** The whole subcommand as a function of its arguments, the codecs and
      the server. The report's `count` is its number of entries and its
      `program` is the argument as the user wrote it. */
  function AccsOutcome(codecs: Codecs, fetch: Fetch, args: AccsArgs): (r: Result<Report, Error>)
    ensures r.Ok? ==> r.value.count == |r.value.accounts| && r.value.program == args.program
  {
    var request :- BuildRequest(codecs, args);
    var accounts :- match fetch(request.program, request.config)
      case Ok(accounts) => Ok(accounts)
      case Err(message) => Err(Rpc(message));
    var decoder :- GetDecoder(args.parser);
    var results := Processed(codecs, decoder, accounts);
    Ok(Report(args.program, |results|, results))
  }

  /** The subcommand. It pushes the size filter onto the compiled user
      filters, fetches, resolves the decoder only after the fetch, and runs
      the account loop. */
  method RunAccs(codecs: Codecs, fetch: Fetch, args: AccsArgs) returns (r: Result<Report, Error>)
    requires NoConflict(args)
    ensures r == AccsOutcome(codecs, fetch, args)
  {
    var programPubkey :- match codecs.pubkeyFromStr(args.program)
      case Some(key) => Ok(key)
      case None => Err(BadProgram(args.program));
    var dataSlice :- ParseDataSlice(args.data);
    var rpcFilters :- UserFilters(codecs, args.filter);
    if args.size.Some? {
      rpcFilters := rpcFilters + [DataSize(args.size.value)];
    }
    var cfg := ProgramAccountsConfig(if |rpcFilters| == 0 then None else Some(rpcFilters), Base64Zstd, dataSlice);
    assert BuildRequest(codecs, args) == Ok(ProgramRequest(programPubkey, cfg));
    var accounts :- match fetch(programPubkey, cfg)
      case Ok(accounts) => Ok(accounts)
      case Err(message) => Err(Rpc(message));
    var decoder :- GetDecoder(args.parser);
    var results, processed := ProcessAccounts(codecs, decoder, accounts);
    r := Ok(Report(args.program, processed, results));
  }

  /** A bad program key, data slice or filter ends the run with that error
      whatever the server would have answered: these checks come before the
      fetch. */
  lemma RequestErrorsPrecedeFetch(codecs: Codecs, fetch1: Fetch, fetch2: Fetch, args: AccsArgs)
    requires BuildRequest(codecs, args).Err?
    ensures AccsOutcome(codecs, fetch1, args) == AccsOutcome(codecs, fetch2, args)
    ensures AccsOutcome(codecs, fetch1, args) == Err(BuildRequest(codecs, args).error)
  {
  }

  /** An unknown `--parser` name is noticed only after the fetch: a failing
      fetch reports its own error instead. */
  lemma UnknownParserFollowsFetch(codecs: Codecs, fetch: Fetch, args: AccsArgs)
    requires BuildRequest(codecs, args).Ok?
    requires args.parser.Some? && args.parser.value != "alt"
    ensures var req := BuildRequest(codecs, args).value;
      AccsOutcome(codecs, fetch, args) ==
        if fetch(req.program, req.config).Err? then Err(Rpc(fetch(req.program, req.config).error))
        else Err(UnknownParser(args.parser.value))
  {
  }

  /** A successful run reports exactly the accounts the loop keeps, as an
      order-preserving selection of the fetched accounts. */
  lemma ReportSelectsAccounts(codecs: Codecs, fetch: Fetch, args: AccsArgs)
    returns (kept: seq<nat>)
    requires AccsOutcome(codecs, fetch, args).Ok?
    ensures var req := BuildRequest(codecs, args).value;
      var accounts := fetch(req.program, req.config).value;
      var decoder := GetDecoder(args.parser).value;
      var report := AccsOutcome(codecs, fetch, args).value;
      |kept| == report.count == |report.accounts| &&
      (forall k :: 0 <= k < |kept| ==>
        kept[k] < |accounts| && StepFor(codecs, decoder, accounts[kept[k]]) == Keep(report.accounts[k])) &&
      (forall k, l :: 0 <= k < l < |kept| ==> kept[k] < kept[l]) &&
      (forall i :: 0 <= i < |accounts| ==> (i in kept <==> StepFor(codecs, decoder, accounts[i]).Keep?))
  {
    var req := BuildRequest(codecs, args).value;
    var accounts := fetch(req.program, req.config).value;
    var decoder := GetDecoder(args.parser).value;
    kept := ProcessedSelects(codecs, decoder, accounts);
  }

  /** Without `--parser` every entry is a raw view whose texts decode to the
      same `size` bytes; with `--parser alt` every entry is a lookup-table
      view that counts its addresses. */
  lemma ReportEntriesConsistent(codecs: Codecs, fetch: Fetch, args: AccsArgs)
    requires AccsOutcome(codecs, fetch, args).Ok?
    ensures forall e :: e in AccsOutcome(codecs, fetch, args).value.accounts ==>
      Consistent(e.data) &&
      (args.parser.None? ==> e.data.Raw?) &&
      (args.parser.Some? ==> e.data.AddressLookupTable?)
  {
    var req := BuildRequest(codecs, args).value;
    var accounts := fetch(req.program, req.config).value;
    EntriesConsistent(codecs, GetDecoder(args.parser).value, accounts);
  }

  /** An empty answer gives an empty report. */
  lemma EmptyFetch(codecs: Codecs, fetch: Fetch, args: AccsArgs)
    requires BuildRequest(codecs, args).Ok? && GetDecoder(args.parser).Ok?
    requires var req := BuildRequest(codecs, args).value; fetch(req.program, req.config) == Ok([])
    ensures AccsOutcome(codecs, fetch, args) == Ok(Report(args.program, 0, []))
  {
  }

  /** The raw view of the bytes 00 01 02. */
  lemma RawThreeBytes()
    ensures RawValue([0, 1, 2]) == Raw("000102", "AAEC", 3)
  {
    assert Hex.Encode([0, 1, 2]) == "000102" by {
      assert [0, 1, 2][1..] == [1, 2];
      assert [1, 2][1..] == [2];
      assert [2][1..] == [];
    }
    assert Base64.Encode([0, 1, 2]) == "AAEC" by {
      assert [0, 1, 2][3..] == [];
    }
  }

  /** `--filter 10:0xdead` compiles to the two bytes DE AD at offset 10. */
  lemma HexFilterExample(codecs: Codecs)
    ensures ParseFilter(codecs, "10:0xdead") == Ok(Memcmp(10, [0xde, 0xad]))
  {
    assert Decimal.ParseUsize("10") == Ok(10);
    assert "10" + ":0x" + "dead" == "10:0xdead";
    Hex.DecodeExample();
    HexFilter(codecs, "10", "dead");
  }

  /** `--filter 0:<address>` compiles to the 32 bytes of the address at
      offset 0. */
  lemma AddressFilterExample(codecs: Codecs, address: string, key: Pubkey)
    requires ':' !in address && !Text.StartsWith(address, "0x")
    requires codecs.pubkeyFromStr(address) == Some(key)
    ensures ParseFilter(codecs, "0:" + address) == Ok(Memcmp(0, key))
  {
    assert ':' !in "0";
    assert "0:" + address == "0" + ":" + address;
    WholeFilter("0", address);
    assert Decimal.ParseUsize("0") == Ok(0);
  }

  /** `--filter 10:0xdead --filter 0:<address>` sends both patterns, in the
      order given, and no size filter without `--size`. */
  lemma TwoFiltersExample(codecs: Codecs, address: string, key: Pubkey)
    requires ':' !in address && !Text.StartsWith(address, "0x")
    requires codecs.pubkeyFromStr(address) == Some(key)
    ensures FilterList(codecs, ["10:0xdead", "0:" + address], None) ==
      Ok([Memcmp(10, [0xde, 0xad]), Memcmp(0, key)])
  {
    HexFilterExample(codecs);
    AddressFilterExample(codecs, address, key);
    FilterPair(codecs, "10:0xdead", "0:" + address, Memcmp(10, [0xde, 0xad]), Memcmp(0, key));
  }

  /** A table holding two addresses lists both, in order, and counts 2. */
  lemma AltTwoAddresses(codecs: Codecs, data: seq<byte>, a1: Pubkey, a2: Pubkey)
    requires codecs.deserializeAlt(data) == Ok([a1, a2])
    ensures AltDecode(codecs, data) ==
      Ok(AddressLookupTable([codecs.pubkeyToString(a1), codecs.pubkeyToString(a2)], 2))
  {
    var r := AltDecode(codecs, data);
    assert r.value.addresses == [codecs.pubkeyToString(a1), codecs.pubkeyToString(a2)];
  }
}
