/** The request-building part of the `accs` arm of `main` (src/main.rs):
    the program key, the `--data` slice, the filter list and the
    program-accounts configuration. */
module Request {
  import opened Wrappers
  import opened Text
  import opened Types
  import opened Filters
  import Decimal

  /** The arguments of `sol-acc accs` once the command-line parser has read
      them. */
  datatype AccsArgs = AccsArgs(
    program: string,
    url: string,
    parser: Option<string>,
    data: Option<string>,
    filter: seq<string>,
    size: Option<u64>,
    output: Option<string>)

  /** `--parser` and `--data` exclude each other (`conflicts_with`). */
  predicate NoConflict(args: AccsArgs)
  {
    args.parser.None? || args.data.None?
  }

  /** `UiDataSliceConfig`: the window of each account's data the server
      returns. */
  datatype DataSlice = DataSlice(offset: nat, length: nat)

  /** `UiAccountEncoding`: the command always asks for `base64+zstd`. */
  datatype Encoding = Base64Zstd

  /** The parts of `RpcProgramAccountsConfig` the command sets. */
  datatype ProgramAccountsConfig = ProgramAccountsConfig(
    filters: Option<seq<RpcFilter>>,
    encoding: Encoding,
    dataSlice: Option<DataSlice>)

  /** The program key and configuration passed to the fetch. */
  datatype ProgramRequest = ProgramRequest(program: Pubkey, config: ProgramAccountsConfig)

  /** The two numbers of `--data offset:length`: a slice exactly when the
      argument is given, has a single `:`, and both sides are `usize`
      values; the offset is checked first. */
  function ParseDataSlice(data: Option<string>): (r: Result<Option<DataSlice>, Error>)
    ensures data.None? ==> r == Ok(None)
    ensures data.Some? && Count(data.value, ':') != 1 ==> r == Err(BadDataRange)
    ensures data.Some? ==>
      (r.Ok? <==> Count(data.value, ':') == 1 &&
                  Decimal.WellFormed(OffsetText(data.value)) &&
                  Decimal.WellFormed(ValueText(data.value)))
    ensures data.Some? && r.Ok? ==>
      r.value == Some(DataSlice(Decimal.ParseUsize(OffsetText(data.value)).value,
                                Decimal.ParseUsize(ValueText(data.value)).value))
    ensures data.Some? && Count(data.value, ':') == 1 && r.Err? ==>
      r.error == BadDataNumber(
        if Decimal.ParseUsize(OffsetText(data.value)).Err?
        then Decimal.ParseUsize(OffsetText(data.value)).error
        else Decimal.ParseUsize(ValueText(data.value)).error)
  {
    match data
    case None => Ok(None)
    case Some(range) =>
      var parts := Split(range, ':');
      TwoPieces(range, ':');
      if |parts| != 2 then Err(BadDataRange)
      else
        assert ':' in range by { CountZero(range, ':'); }
        match (Decimal.ParseUsize(parts[0]), Decimal.ParseUsize(parts[1]))
        case (Err(kind), _) => Err(BadDataNumber(kind))
        case (Ok(_), Err(kind)) => Err(BadDataNumber(kind))
        case (Ok(offset), Ok(length)) => Ok(Some(DataSlice(offset, length)))
  }

  /** Position of the first error in `rs`, or `|rs|` when there is none. */
  function FirstErr<T, E>(rs: seq<Result<T, E>>): (i: nat)
    ensures i <= |rs|
    ensures forall j :: 0 <= j < i ==> rs[j].Ok?
    ensures i < |rs| ==> rs[i].Err?
  {
    if rs == [] then 0
    else if rs[0].Err? then 0
    else
      assert forall j :: 1 <= j < |rs| ==> rs[j] == rs[1..][j - 1];
      1 + FirstErr(rs[1..])
  }

  /** `collect::<Result<Vec<_>, _>>()`: every value in order when there is
      no error, otherwise the first error. */
  function Collect<T, E>(rs: seq<Result<T, E>>): (r: Result<seq<T>, E>)
    ensures r.Ok? <==> FirstErr(rs) == |rs|
    ensures r.Ok? ==> |r.value| == |rs| && forall i :: 0 <= i < |rs| ==> r.value[i] == rs[i].value
    ensures r.Err? ==> r.error == rs[FirstErr(rs)].error
  {
    if rs == [] then Ok([])
    else
      var first :- rs[0];
      assert forall j :: 1 <= j < |rs| ==> rs[j] == rs[1..][j - 1];
      var rest :- Collect(rs[1..]);
      Ok([first] + rest)
  }

  /** `filter.iter().map(parse_filter)`: each argument compiled on its own. */
  function Compiled(codecs: Codecs, filters: seq<string>): seq<Result<RpcFilter, Error>>
  {
    seq(|filters|, i requires 0 <= i < |filters| => ParseFilter(codecs, filters[i]))
  }

  /** Position of the first filter argument that does not compile, or the
      number of arguments when they all do. */
  function FirstBad(codecs: Codecs, filters: seq<string>): (i: nat)
    ensures i <= |filters|
    ensures forall j :: 0 <= j < i ==> ParseFilter(codecs, filters[j]).Ok?
    ensures i < |filters| ==> ParseFilter(codecs, filters[i]).Err?
  {
    var rs := Compiled(codecs, filters);
    assert forall j :: 0 <= j < |filters| ==> rs[j] == ParseFilter(codecs, filters[j]);
    FirstErr(rs)
  }

  /** `filter.iter().map(parse_filter).collect::<Result<Vec<_>>>()`: one
      filter per argument, in order, or the error of the first argument that
      does not compile. */
  function UserFilters(codecs: Codecs, filters: seq<string>): (r: Result<seq<RpcFilter>, Error>)
    ensures r.Ok? <==> FirstBad(codecs, filters) == |filters|
    ensures r.Ok? ==> |r.value| == |filters|
    ensures r.Ok? ==> forall i :: 0 <= i < |filters| ==> r.value[i] == ParseFilter(codecs, filters[i]).value
    ensures r.Err? ==> r.error == ParseFilter(codecs, filters[FirstBad(codecs, filters)]).error
  {
    Collect(Compiled(codecs, filters))
  }

  /** The filter list of lines 148-156: the user filters in order, then one
      `DataSize` filter exactly when `--size` is given. */
  function FilterList(codecs: Codecs, filters: seq<string>, size: Option<u64>): (r: Result<seq<RpcFilter>, Error>)
    ensures r.Ok? <==> forall i :: 0 <= i < |filters| ==> ParseFilter(codecs, filters[i]).Ok?
    ensures r.Err? ==> r.error == ParseFilter(codecs, filters[FirstBad(codecs, filters)]).error
    ensures r.Ok? ==> |r.value| == |filters| + (if size.Some? then 1 else 0)
    ensures r.Ok? ==> forall i :: 0 <= i < |filters| ==> r.value[i] == ParseFilter(codecs, filters[i]).value
    ensures r.Ok? && size.Some? ==> r.value[|filters|] == DataSize(size.value)
  {
    var user :- UserFilters(codecs, filters);
    Ok(if size.Some? then user + [DataSize(size.value)] else user)
  }

  /** Two filter arguments that compile give their two filters in order. */
  lemma FilterPair(codecs: Codecs, f1: string, f2: string, p1: RpcFilter, p2: RpcFilter)
    requires ParseFilter(codecs, f1) == Ok(p1) && ParseFilter(codecs, f2) == Ok(p2)
    ensures FilterList(codecs, [f1, f2], None) == Ok([p1, p2])
  {
    var filters := [f1, f2];
    assert FirstBad(codecs, filters) == 2 by {
      assert filters[1..] == [f2];
      assert [f2][1..] == [];
    }
    var user := UserFilters(codecs, filters).value;
    assert user[0] == p1 && user[1] == p2;
    assert user == [p1, p2];
  }

  /** The request of lines 134-170. The program key is read first, then the
      data slice, then the filters; the filter list is left out of the
      configuration exactly when it is empty. */
  function BuildRequest(codecs: Codecs, args: AccsArgs): (r: Result<ProgramRequest, Error>)
    ensures codecs.pubkeyFromStr(args.program).None? ==> r == Err(BadProgram(args.program))
    ensures codecs.pubkeyFromStr(args.program).Some? && ParseDataSlice(args.data).Err? ==>
      r == Err(ParseDataSlice(args.data).error)
    ensures codecs.pubkeyFromStr(args.program).Some? && ParseDataSlice(args.data).Ok? &&
            FilterList(codecs, args.filter, args.size).Err? ==>
      r == Err(FilterList(codecs, args.filter, args.size).error)
    ensures r.Ok? <==>
      codecs.pubkeyFromStr(args.program).Some? && ParseDataSlice(args.data).Ok? &&
      FilterList(codecs, args.filter, args.size).Ok?
    ensures r.Ok? ==>
      r.value.program == codecs.pubkeyFromStr(args.program).value &&
      r.value.config.encoding == Base64Zstd &&
      r.value.config.dataSlice == ParseDataSlice(args.data).value &&
      (r.value.config.dataSlice.Some? <==> args.data.Some?) &&
      (r.value.config.filters.None? <==> |args.filter| == 0 && args.size.None?) &&
      (r.value.config.filters.Some? ==>
        r.value.config.filters.value == FilterList(codecs, args.filter, args.size).value)
  {
    var programKey :- match codecs.pubkeyFromStr(args.program)
      case Some(key) => Ok(key)
      case None => Err(BadProgram(args.program));
    var dataSlice :- ParseDataSlice(args.data);
    var rpcFilters :- FilterList(codecs, args.filter, args.size);
    Ok(ProgramRequest(programKey, ProgramAccountsConfig(
      if |rpcFilters| == 0 then None else Some(rpcFilters), Base64Zstd, dataSlice)))
  }
}
