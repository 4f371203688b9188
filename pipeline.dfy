/** The result loop of the `accs` arm of `main` (src/main.rs lines
    178-216): every fetched account is decoded, then either turned into a
    report entry or skipped. */
module Pipeline {
  import opened Wrappers
  import opened Bytes
  import opened Types
  import opened Decoders

  /** One element of `results`. */
  datatype Entry = Entry(pubkey: string, lamports: u64, owner: string, data: DataValue)

  /** What happens to one account: it gives an entry, it is skipped because
      its data does not decode, or it is skipped after the decoder reported
      an error (the source prints "Failed to decode <pubkey>: <error>"). */
  datatype Step =
    | Keep(entry: Entry)
    | NoPayload
    | DecodeFailed(pubkey: string, message: string)

  /** One pass of the loop body, for the account `keyed`. */
  function StepFor(codecs: Codecs, decoder: Option<Decoder>, keyed: KeyedAccount): (r: Step)
    ensures r.Keep? <==>
      codecs.decodeData(keyed.1.data).Some? &&
      (decoder.None? || DecodeWith(codecs, decoder.value, codecs.decodeData(keyed.1.data).value).Ok?)
    ensures r.NoPayload? <==> codecs.decodeData(keyed.1.data).None?
    ensures r.Keep? ==>
      var data := codecs.decodeData(keyed.1.data).value;
      r.entry.pubkey == codecs.pubkeyToString(keyed.0) &&
      r.entry.lamports == keyed.1.lamports &&
      r.entry.owner == keyed.1.owner &&
      r.entry.data == (if decoder.None? then RawValue(data)
                       else DecodeWith(codecs, decoder.value, data).value)
    ensures r.DecodeFailed? ==>
      decoder.Some? && r.pubkey == codecs.pubkeyToString(keyed.0) &&
      r.message == DecodeWith(codecs, decoder.value, codecs.decodeData(keyed.1.data).value).error
  {
    var (pubkey, acc) := keyed;
    match decoder
    case Some(dec) =>
      (match codecs.decodeData(acc.data)
       case None => NoPayload
       case Some(data) =>
         match DecodeWith(codecs, dec, data)
         case Ok(decoded) => Keep(Entry(codecs.pubkeyToString(pubkey), acc.lamports, acc.owner, decoded))
         case Err(e) => DecodeFailed(codecs.pubkeyToString(pubkey), e))
    case None =>
      match codecs.decodeData(acc.data)
      case None => NoPayload
      case Some(data) => Keep(Entry(codecs.pubkeyToString(pubkey), acc.lamports, acc.owner, RawValue(data)))
  }

  /** The entries the loop has pushed after the accounts `accounts`. */
  function Processed(codecs: Codecs, decoder: Option<Decoder>, accounts: seq<KeyedAccount>): (r: seq<Entry>)
    ensures |r| <= |accounts|
  {
    if accounts == [] then []
    else
      var done := Processed(codecs, decoder, accounts[..|accounts| - 1]);
      match StepFor(codecs, decoder, accounts[|accounts| - 1])
      case Keep(e) => done + [e]
      case _ => done
  }

  /** The `for` loop over the fetched accounts: `results` collects the
      entries in order and `processed` counts them. */
  method ProcessAccounts(codecs: Codecs, decoder: Option<Decoder>, accounts: seq<KeyedAccount>)
    returns (results: seq<Entry>, processed: nat)
    ensures results == Processed(codecs, decoder, accounts)
    ensures processed == |results|
  {
    results := [];
    processed := 0;
    for i := 0 to |accounts|
      invariant results == Processed(codecs, decoder, accounts[..i])
      invariant processed == |results|
    {
      assert accounts[..i + 1][..i] == accounts[..i];
      var (pubkey, acc) := accounts[i];
      var dataValue;
      if decoder.Some? {
        var data := codecs.decodeData(acc.data);
        if data.None? {
          continue;
        }
        var decoded := DecodeWith(codecs, decoder.value, data.value);
        if decoded.Err? {
          continue;
        }
        dataValue := decoded.value;
      } else {
        var data := codecs.decodeData(acc.data);
        if data.None? {
          continue;
        }
        dataValue := RawValue(data.value);
      }
      results := results + [Entry(codecs.pubkeyToString(pubkey), acc.lamports, acc.owner, dataValue)];
      processed := processed + 1;
    }
    assert accounts[..|accounts|] == accounts;
  }

  /** The outcome of every pass, in account order. */
  function Steps(codecs: Codecs, decoder: Option<Decoder>, accounts: seq<KeyedAccount>): seq<Step>
  {
    seq(|accounts|, i requires 0 <= i < |accounts| => StepFor(codecs, decoder, accounts[i]))
  }

  /** The entries that a sequence of passes keeps, in order. */
  function Kept(steps: seq<Step>): seq<Entry>
  {
    if steps == [] then []
    else
      var done := Kept(steps[..|steps| - 1]);
      match steps[|steps| - 1]
      case Keep(e) => done + [e]
      case _ => done
  }

  /** The loop keeps exactly what its passes keep. */
  lemma {:induction false} ProcessedKept(codecs: Codecs, decoder: Option<Decoder>, accounts: seq<KeyedAccount>)
    ensures Processed(codecs, decoder, accounts) == Kept(Steps(codecs, decoder, accounts))
  {
    if accounts != [] {
      var n := |accounts| - 1;
      ProcessedKept(codecs, decoder, accounts[..n]);
      assert Steps(codecs, decoder, accounts)[..n] == Steps(codecs, decoder, accounts[..n]);
    }
  }

  /** `Kept` is an order-preserving selection of the passes that keep. */
  lemma {:induction false} KeptSelects(steps: seq<Step>) returns (kept: seq<nat>)
    ensures |kept| == |Kept(steps)|
    ensures forall k :: 0 <= k < |kept| ==> kept[k] < |steps| && steps[kept[k]] == Keep(Kept(steps)[k])
    ensures forall k, l :: 0 <= k < l < |kept| ==> kept[k] < kept[l]
    ensures forall i :: 0 <= i < |steps| ==> (i in kept <==> steps[i].Keep?)
  {
    if steps == [] {
      kept := [];
    } else {
      var n := |steps| - 1;
      var before := KeptSelects(steps[..n]);
      assert forall i :: 0 <= i < n ==> steps[i] == steps[..n][i];
      if steps[n].Keep? {
        kept := before + [n];
      } else {
        kept := before;
      }
    }
  }

  /** The entries are an order-preserving selection of the accounts: `kept`
      lists, in increasing order, the positions of exactly the accounts
      that give an entry, and entry `k` is the one account `kept[k]` gives. */
  lemma ProcessedSelects(codecs: Codecs, decoder: Option<Decoder>, accounts: seq<KeyedAccount>)
    returns (kept: seq<nat>)
    ensures |kept| == |Processed(codecs, decoder, accounts)|
    ensures forall k :: 0 <= k < |kept| ==>
      kept[k] < |accounts| &&
      StepFor(codecs, decoder, accounts[kept[k]]) == Keep(Processed(codecs, decoder, accounts)[k])
    ensures forall k, l :: 0 <= k < l < |kept| ==> kept[k] < kept[l]
    ensures forall i :: 0 <= i < |accounts| ==> (i in kept <==> StepFor(codecs, decoder, accounts[i]).Keep?)
  {
    ProcessedKept(codecs, decoder, accounts);
    kept := KeptSelects(Steps(codecs, decoder, accounts));
  }

  /** Every entry carries a consistent `data` object: a raw view whose
      hexadecimal and base64 texts decode to the same `size` bytes when no
      decoder is chosen, and a lookup-table view that counts its addresses
      when `alt` is. */
  lemma {:induction false} EntriesConsistent(codecs: Codecs, decoder: Option<Decoder>, accounts: seq<KeyedAccount>)
    ensures forall e :: e in Processed(codecs, decoder, accounts) ==>
      Consistent(e.data) &&
      (decoder.None? ==> e.data.Raw?) &&
      (decoder == Some(Alt) ==> e.data.AddressLookupTable?)
  {
    if accounts != [] {
      EntriesConsistent(codecs, decoder, accounts[..|accounts| - 1]);
    }
  }

  /** The base58 codec reads back what it writes. */
  ghost predicate KeysRoundTrip(codecs: Codecs)
  {
    forall key: Pubkey :: codecs.pubkeyFromStr(codecs.pubkeyToString(key)) == Some(key)
  }

  /** When the base58 codec round-trips, the `pubkey` of each entry is the
      base58 text of the account it came from. */
  lemma EntryKeysParse(codecs: Codecs, decoder: Option<Decoder>, accounts: seq<KeyedAccount>)
    returns (kept: seq<nat>)
    requires KeysRoundTrip(codecs)
    ensures |kept| == |Processed(codecs, decoder, accounts)|
    ensures forall k :: 0 <= k < |kept| ==>
      kept[k] < |accounts| &&
      codecs.pubkeyFromStr(Processed(codecs, decoder, accounts)[k].pubkey) == Some(accounts[kept[k]].0)
  {
    kept := ProcessedSelects(codecs, decoder, accounts);
  }

  /** An account whose table does not deserialize is left out without
      affecting the next one. */
  lemma AltFailureIsolated(codecs: Codecs, bad: KeyedAccount, good: KeyedAccount)
    requires codecs.decodeData(bad.1.data).Some? && codecs.decodeData(good.1.data).Some?
    requires codecs.deserializeAlt(codecs.decodeData(bad.1.data).value).Err?
    requires codecs.deserializeAlt(codecs.decodeData(good.1.data).value) == Ok([])
    ensures Processed(codecs, Some(Alt), [bad, good]) ==
      [Entry(codecs.pubkeyToString(good.0), good.1.lamports, good.1.owner, AddressLookupTable([], 0))]
  {
    var data := codecs.decodeData(good.1.data).value;
    assert AltDecode(codecs, data) == Ok(AddressLookupTable([], 0));
    assert StepFor(codecs, Some(Alt), bad).DecodeFailed?;
    assert StepFor(codecs, Some(Alt), good) ==
      Keep(Entry(codecs.pubkeyToString(good.0), good.1.lamports, good.1.owner, AddressLookupTable([], 0)));
    assert [bad][..0] == [];
    assert Processed(codecs, Some(Alt), [bad]) == [];
    assert [bad, good][..1] == [bad];
  }
}
