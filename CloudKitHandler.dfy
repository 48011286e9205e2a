/**
 The mapping between key-major string tables and CloudKit records made by
 `CloudKitHandler`: one record per translation key, whose main field holds
 the JSON-encoded locale -> value map and whose optional English field holds
 the English value on its own. The network calls are not modelled: the
 records a fetch returns are a parameter, and upload stops at the batch of
 records it would save. The JSON encoder and decoder are parameters too.
 */
module CloudKitHandler {
  import opened Tables
  import Transform
  import StringsFile

  datatype CloudKitHandlerError = CloudKit | RemovalNotAllowed | InternalError | Json | EnglishResourceMissing

  /** A record as the handler sees it: its record name and its string-valued fields. */
  datatype Record = Record(name: string, fields: map<string, string>)

  /** What one fetched record contributes to the key-major table. */
  datatype Contribution = Skip | Entry(strings: map<string, string>) | Fail(error: CloudKitHandlerError)

  type Encoder = map<string, string> -> Option<string>
  type Decoder = string -> Option<map<string, string>>

  // ---------------------------------------------------------------------
  // Upload

  /** Collects the added and then the changed entries into one table, so a
      changed entry wins over an added one with the same key. */
  method MergeChanges(addedStrings: Table, changedStrings: Table) returns (allChanges: Table)
    ensures allChanges.Keys == addedStrings.Keys + changedStrings.Keys
    ensures forall k :: k in changedStrings ==> allChanges[k] == changedStrings[k]
    ensures forall k :: k in addedStrings && k !in changedStrings ==> allChanges[k] == addedStrings[k]
  {
    allChanges := map[];
    var left := addedStrings.Keys;
    while left != {}
      invariant left <= addedStrings.Keys
      invariant allChanges == map k | k in addedStrings && k !in left :: addedStrings[k]
      decreases left
    {
      var key :| key in left;
      allChanges := allChanges[key := addedStrings[key]];
      left := left - {key};
    }
    assert allChanges == addedStrings;
    left := changedStrings.Keys;
    while left != {}
      invariant left <= changedStrings.Keys
      invariant allChanges.Keys == addedStrings.Keys + (changedStrings.Keys - left)
      invariant forall k :: k in changedStrings && k !in left ==> allChanges[k] == changedStrings[k]
      invariant forall k :: k in addedStrings && (k !in changedStrings || k in left) ==> allChanges[k] == addedStrings[k]
      decreases left
    {
      var key :| key in left;
      allChanges := allChanges[key := changedStrings[key]];
      left := left - {key};
    }
  }

  /** The fetched records by name; a later record wins over an earlier one
      with the same name. */
  function Latest(fetched: seq<Record>): map<string, Record>
    decreases |fetched|
  {
    if fetched == [] then map[]
    else
      var n := |fetched| - 1;
      Latest(fetched[..n])[fetched[n].name := fetched[n]]
  }

  /** Indexes the records returned by the fetch by their record name. */
  method IndexByName(fetched: seq<Record>) returns (records: map<string, Record>)
    ensures records == Latest(fetched)
  {
    records := map[];
    for i := 0 to |fetched|
      invariant records == Latest(fetched[..i])
    {
      assert fetched[..i + 1][..i] == fetched[..i];
      records := records[fetched[i].name := fetched[i]];
    }
    assert fetched[..|fetched|] == fetched;
  }

  /** Exactly the fetched names are indexed, each under its own name. */
  lemma {:induction false} LatestNames(fetched: seq<Record>)
    ensures forall n :: n in Latest(fetched) <==> exists i :: 0 <= i < |fetched| && fetched[i].name == n
    ensures forall n :: n in Latest(fetched) ==> Latest(fetched)[n].name == n
    decreases |fetched|
  {
    if fetched != [] {
      var n := |fetched| - 1;
      var prefix := fetched[..n];
      LatestNames(prefix);
      forall name | exists i :: 0 <= i < |fetched| && fetched[i].name == name
        ensures name in Latest(fetched)
      {
        var i :| 0 <= i < |fetched| && fetched[i].name == name;
        if i < n {
          assert prefix[i].name == name;
        }
      }
      forall name | name in Latest(prefix)
        ensures exists i :: 0 <= i < |fetched| && fetched[i].name == name
      {
        var i :| 0 <= i < n && prefix[i].name == name;
        assert fetched[i].name == name;
      }
    }
  }

  /** Each indexed record is the last fetched record with its name. */
  lemma {:induction false} LatestIsLast(fetched: seq<Record>)
    ensures forall n :: n in Latest(fetched) ==>
              exists i :: 0 <= i < |fetched| && fetched[i] == Latest(fetched)[n] &&
                forall j :: i < j < |fetched| ==> fetched[j].name != n
    decreases |fetched|
  {
    if fetched != [] {
      var n := |fetched| - 1;
      var prefix := fetched[..n];
      LatestIsLast(prefix);
      forall name | name in Latest(fetched) && name != fetched[n].name
        ensures exists i :: 0 <= i < |fetched| && fetched[i] == Latest(fetched)[name] &&
                  forall j :: i < j < |fetched| ==> fetched[j].name != name
      {
        var i :| 0 <= i < n && prefix[i] == Latest(prefix)[name] &&
                 forall j :: i < j < n ==> prefix[j].name != name;
        assert fetched[i] == prefix[i];
        forall j | i < j < |fetched| ensures fetched[j].name != name {
          if j < n {
            assert fetched[j] == prefix[j];
          }
        }
      }
    }
  }

  /** The JSON payload of the main field: with a separate English field,
      everything but English; otherwise the whole entry. */
  function Payload(strings: map<string, string>, englishKey: Option<string>): map<string, string>
  {
    if englishKey.Some? then strings - {English} else strings
  }

  /** The record's fields after the English field is set (or cleared, when
      the entry has no English value). */
  function WithEnglish(fields: map<string, string>, strings: map<string, string>, englishKey: Option<string>): map<string, string>
  {
    match englishKey
    case None => fields
    case Some(ek) => if English in strings then fields[ek := strings[English]] else fields - {ek}
  }

  /** The record to save for entry `strings`, or None when encoding fails. */
  function Prepared(record: Record, strings: map<string, string>, mainKey: string, englishKey: Option<string>, encode: Encoder): Option<Record>
  {
    match encode(Payload(strings, englishKey))
    case None => None
    case Some(json) => Some(Record(record.name, WithEnglish(record.fields, strings, englishKey)[mainKey := json]))
  }

  /** Every change has a fetched record and an encodable payload. */
  predicate Preparable(allChanges: Table, records: map<string, Record>, mainKey: string, englishKey: Option<string>, encode: Encoder)
  {
    forall k :: k in allChanges ==> k in records && Prepared(records[k], allChanges[k], mainKey, englishKey, encode).Some?
  }

  /** The batch of records to save, by key. */
  function Batch(allChanges: Table, records: map<string, Record>, mainKey: string, englishKey: Option<string>, encode: Encoder): map<string, Record>
    requires Preparable(allChanges, records, mainKey, englishKey, encode)
  {
    map k | k in allChanges :: Prepared(records[k], allChanges[k], mainKey, englishKey, encode).value
  }

  /** Writes one change into its record: the English field first (cleared
      when the change has no English value), then the encoded payload into the
      main field. None when the payload does not encode. */
  method WriteChange(record: Record, strings: map<string, string>, mainKey: string, englishKey: Option<string>, encode: Encoder)
    returns (r: Option<Record>)
    ensures r == Prepared(record, strings, mainKey, englishKey, encode)
  {
    var updated := record;
    var stringsToSave := strings;
    if englishKey.Some? {
      if English in strings {
        updated := updated.(fields := updated.fields[englishKey.value := strings[English]]);
      } else {
        updated := updated.(fields := updated.fields - {englishKey.value});
      }
      stringsToSave := stringsToSave - {English};
    }
    var stringData := encode(stringsToSave);
    if stringData.None? {
      return None;
    }
    updated := updated.(fields := updated.fields[mainKey := stringData.value]);
    return Some(updated);
  }

  /** Writes each change into its fetched record. A change without a record
      is an internal error, a payload that does not encode a JSON error;
      which of the two is reported when both occur depends on iteration order. */
  method PrepareRecords(allChanges: Table, records: map<string, Record>, mainKey: string, englishKey: Option<string>, encode: Encoder)
    returns (r: Result<map<string, Record>, CloudKitHandlerError>)
    ensures Preparable(allChanges, records, mainKey, englishKey, encode) ==>
              r == Ok(Batch(allChanges, records, mainKey, englishKey, encode))
    ensures !Preparable(allChanges, records, mainKey, englishKey, encode) ==>
              r.Err? && (r.error == InternalError || r.error == Json)
    ensures r.Err? && (forall k :: k in allChanges ==> k in records) ==> r.error == Json
    ensures r.Err? && (forall k :: k in allChanges ==> encode(Payload(allChanges[k], englishKey)).Some?) ==>
              r.error == InternalError
  {
    var recordsToSave: map<string, Record> := map[];
    var keysLeft := allChanges.Keys;
    ghost var keysDone: set<string> := {};
    while keysLeft != {}
      invariant keysDone + keysLeft == allChanges.Keys && keysDone !! keysLeft
      invariant forall k :: k in keysDone ==>
                  k in records && Prepared(records[k], allChanges[k], mainKey, englishKey, encode).Some?
      invariant recordsToSave ==
                  map k | k in keysDone :: Prepared(records[k], allChanges[k], mainKey, englishKey, encode).value
      decreases keysLeft
    {
      var key :| key in keysLeft;
      var strings := allChanges[key];
      if key !in records {
        return Err(InternalError);
      }
      var record := WriteChange(records[key], strings, mainKey, englishKey, encode);
      if record.None? {
        return Err(Json);
      }
      recordsToSave := recordsToSave[key := record.value];
      Visit(keysDone, keysLeft, allChanges.Keys, key);
      keysDone := keysDone + {key};
      keysLeft := keysLeft - {key};
    }
    return Ok(recordsToSave);
  }

  /** The upload path up to the save: refuse any removal, merge added and
      changed entries, index the fetched records (None: the fetch failed) and
      write each change into its record. */
  method UploadChanges(addedStrings: Table, removedStrings: Table, changedStrings: Table,
                       mainKey: string, englishKey: Option<string>,
                       fetched: Option<seq<Record>>, encode: Encoder)
    returns (r: Result<map<string, Record>, CloudKitHandlerError>)
    ensures removedStrings != map[] ==> r == Err(RemovalNotAllowed)
    ensures removedStrings == map[] && fetched.None? ==> r == Err(CloudKit)
    ensures removedStrings == map[] && fetched.Some? ==>
              var all := addedStrings + changedStrings;
              var records := Latest(fetched.value);
              && (Preparable(all, records, mainKey, englishKey, encode) ==>
                    r == Ok(Batch(all, records, mainKey, englishKey, encode)))
              && (!Preparable(all, records, mainKey, englishKey, encode) ==>
                    r.Err? && (r.error == InternalError || r.error == Json))
  {
    if removedStrings != map[] {
      return Err(RemovalNotAllowed);
    }
    var allChanges := MergeChanges(addedStrings, changedStrings);
    assert allChanges == addedStrings + changedStrings;
    if fetched.None? {
      return Err(CloudKit);
    }
    var records := IndexByName(fetched.value);
    r := PrepareRecords(allChanges, records, mainKey, englishKey, encode);
  }

  /** Every saved record is the fetched record of its key, under that key's
      name, with the English field and the main field set from the change. */
  lemma {:induction false} BatchMeaning(allChanges: Table, fetched: seq<Record>, mainKey: string, englishKey: Option<string>, encode: Encoder)
    requires Preparable(allChanges, Latest(fetched), mainKey, englishKey, encode)
    ensures var batch := Batch(allChanges, Latest(fetched), mainKey, englishKey, encode);
      && batch.Keys == allChanges.Keys
      && forall k :: k in batch ==>
           && batch[k].name == k
           && Some(batch[k].fields[mainKey]) == encode(Payload(allChanges[k], englishKey))
           && (englishKey.Some? && englishKey.value != mainKey && English in allChanges[k] ==>
                 batch[k].fields[englishKey.value] == allChanges[k][English])
           && (forall f :: f in Latest(fetched)[k].fields && f != mainKey && Some(f) != englishKey ==>
                 f in batch[k].fields && batch[k].fields[f] == Latest(fetched)[k].fields[f])
  {
    LatestNames(fetched);
  }

  // ---------------------------------------------------------------------
  // Fetch

  /** What one record contributes: with a separate English field, English
      from that field overlaid by the decoded main field; without one, the
      decoded main field, which must hold English. */
  function RecordContribution(record: Record, mainKey: string, englishKey: Option<string>, decode: Decoder): Contribution
  {
    match englishKey
    case Some(ek) =>
      if ek !in record.fields then Fail(EnglishResourceMissing)
      else if mainKey !in record.fields then Entry(map[English := record.fields[ek]])
      else (
        var json := decode(record.fields[mainKey]);
        if json.None? then Fail(Json) else Entry(map[English := record.fields[ek]] + json.value))
    case None =>
      if mainKey !in record.fields then Skip
      else (
        var json := decode(record.fields[mainKey]);
        if json.None? then Fail(Json)
        else if English !in json.value then Fail(EnglishResourceMissing)
        else Entry(json.value))
  }

  /** The key-major table built from the fetched records in order: the first
      failing record aborts, a later record replaces an earlier one of the
      same name. */
  function Fetched(records: seq<Record>, mainKey: string, englishKey: Option<string>, decode: Decoder): Result<Table, CloudKitHandlerError>
    decreases |records|
  {
    if records == [] then Ok(map[])
    else
      var n := |records| - 1;
      match Fetched(records[..n], mainKey, englishKey, decode)
      case Err(e) => Err(e)
      case Ok(results) =>
        match RecordContribution(records[n], mainKey, englishKey, decode)
        case Skip => Ok(results)
        case Fail(e) => Err(e)
        case Entry(strings) => Ok(results[records[n].name := strings])
  }

  /** Once a prefix of the records fails, the whole fetch fails the same way. */
  lemma {:induction false} FetchedFailurePersists(records: seq<Record>, i: nat, mainKey: string, englishKey: Option<string>, decode: Decoder)
    requires i <= |records| && Fetched(records[..i], mainKey, englishKey, decode).Err?
    ensures Fetched(records, mainKey, englishKey, decode) == Fetched(records[..i], mainKey, englishKey, decode)
    decreases |records|
  {
    if i < |records| {
      var n := |records| - 1;
      assert records[..n][..i] == records[..i];
      FetchedFailurePersists(records[..n], i, mainKey, englishKey, decode);
    } else {
      assert records[..i] == records;
    }
  }

  /** Parses one fetched record. With a separate English field, the decoded
      main field is copied over the English value locale by locale. */
  method ParseRecord(record: Record, mainKey: string, englishKey: Option<string>, decode: Decoder)
    returns (c: Contribution)
    ensures c == RecordContribution(record, mainKey, englishKey, decode)
  {
    if englishKey.Some? {
      if englishKey.value !in record.fields {
        return Fail(EnglishResourceMissing);
      }
      var english := record.fields[englishKey.value];
      var result := map[English := english];
      if mainKey in record.fields {
        var json := decode(record.fields[mainKey]);
        if json.None? {
          return Fail(Json);
        }
        var localesLeft := json.value.Keys;
        ghost var localesDone: set<string> := {};
        while localesLeft != {}
          invariant localesDone + localesLeft == json.value.Keys && localesDone !! localesLeft
          invariant result == map[English := english] + Restrict(json.value, localesDone)
          decreases localesLeft
        {
          var locale :| locale in localesLeft;
          assert Restrict(json.value, localesDone + {locale}) == Restrict(json.value, localesDone)[locale := json.value[locale]];
          result := result[locale := json.value[locale]];
          Visit(localesDone, localesLeft, json.value.Keys, locale);
          localesDone := localesDone + {locale};
          localesLeft := localesLeft - {locale};
        }
        assert Restrict(json.value, localesDone) == json.value;
      }
      return Entry(result);
    } else {
      if mainKey !in record.fields {
        return Skip;
      }
      var json := decode(record.fields[mainKey]);
      if json.None? {
        return Fail(Json);
      }
      if English !in json.value {
        return Fail(EnglishResourceMissing);
      }
      return Entry(json.value);
    }
  }

  /** The record-parsing loop of a fetch: records are taken in order, a
      failing record aborts, a skipped one is passed over. */
  method ParseRecords(records: seq<Record>, mainKey: string, englishKey: Option<string>, decode: Decoder)
    returns (r: Result<Table, CloudKitHandlerError>)
    ensures r == Fetched(records, mainKey, englishKey, decode)
  {
    var results: Table := map[];
    for i := 0 to |records|
      invariant Fetched(records[..i], mainKey, englishKey, decode) == Ok(results)
    {
      var record := records[i];
      assert records[..i + 1][..i] == records[..i];
      var contribution := ParseRecord(record, mainKey, englishKey, decode);
      match contribution {
        case Skip =>
        case Fail(e) =>
          FetchedFailurePersists(records, i + 1, mainKey, englishKey, decode);
          return Err(e);
        case Entry(strings) =>
          results := results[record.name := strings];
      }
    }
    assert records[..|records|] == records;
    return Ok(results);
  }

  /** Every entry of a successful fetch has an English value. */
  lemma {:induction false} FetchedHasEnglish(records: seq<Record>, mainKey: string, englishKey: Option<string>, decode: Decoder)
    ensures Fetched(records, mainKey, englishKey, decode).Ok? ==>
              EveryKeyHasEnglish(Fetched(records, mainKey, englishKey, decode).value)
    decreases |records|
  {
    if records != [] {
      FetchedHasEnglish(records[..|records| - 1], mainKey, englishKey, decode);
    }
  }

  /** A fetch fails exactly when some record fails, and then with the error
      of the first failing record. */
  lemma {:induction false} FetchedFailure(records: seq<Record>, mainKey: string, englishKey: Option<string>, decode: Decoder)
    ensures Fetched(records, mainKey, englishKey, decode).Err? <==>
              exists i :: 0 <= i < |records| && RecordContribution(records[i], mainKey, englishKey, decode).Fail?
    ensures Fetched(records, mainKey, englishKey, decode).Err? ==>
              exists i :: 0 <= i < |records| &&
                RecordContribution(records[i], mainKey, englishKey, decode) == Fail(Fetched(records, mainKey, englishKey, decode).error) &&
                forall j :: 0 <= j < i ==> !RecordContribution(records[j], mainKey, englishKey, decode).Fail?
    decreases |records|
  {
    if records != [] {
      var n := |records| - 1;
      var prefix := records[..n];
      FetchedFailure(prefix, mainKey, englishKey, decode);
      assert forall i :: 0 <= i < n ==> prefix[i] == records[i];
      if Fetched(prefix, mainKey, englishKey, decode).Err? {
        var i :| 0 <= i < n &&
          RecordContribution(prefix[i], mainKey, englishKey, decode) == Fail(Fetched(prefix, mainKey, englishKey, decode).error) &&
          forall j :: 0 <= j < i ==> !RecordContribution(prefix[j], mainKey, englishKey, decode).Fail?;
        assert RecordContribution(records[i], mainKey, englishKey, decode).Fail?;
      }
    }
  }

  /** A successful fetch has an entry for exactly the names of the records
      that contribute one. */
  lemma FetchedKeys(records: seq<Record>, mainKey: string, englishKey: Option<string>, decode: Decoder)
    ensures Fetched(records, mainKey, englishKey, decode).Ok? ==>
              forall n :: n in Fetched(records, mainKey, englishKey, decode).value <==>
                exists i :: 0 <= i < |records| && records[i].name == n &&
                  RecordContribution(records[i], mainKey, englishKey, decode).Entry?
  {
    FetchedKeysFromRecords(records, mainKey, englishKey, decode);
    RecordsInFetched(records, mainKey, englishKey, decode);
  }

  /** Each name of a successful fetch comes from a record that contributes an entry. */
  lemma {:induction false} FetchedKeysFromRecords(records: seq<Record>, mainKey: string, englishKey: Option<string>, decode: Decoder)
    ensures Fetched(records, mainKey, englishKey, decode).Ok? ==>
              forall name :: name in Fetched(records, mainKey, englishKey, decode).value ==>
                exists i :: 0 <= i < |records| && records[i].name == name &&
                  RecordContribution(records[i], mainKey, englishKey, decode).Entry?
    decreases |records|
  {
    if records != [] && Fetched(records, mainKey, englishKey, decode).Ok? {
      var n := |records| - 1;
      var prefix := records[..n];
      FetchedKeysFromRecords(prefix, mainKey, englishKey, decode);
      FetchedStep(records, mainKey, englishKey, decode);
      var last := RecordContribution(records[n], mainKey, englishKey, decode);
      forall name | name in Fetched(records, mainKey, englishKey, decode).value
        ensures exists i :: 0 <= i < |records| && records[i].name == name &&
                  RecordContribution(records[i], mainKey, englishKey, decode).Entry?
      {
        if !(last.Entry? && records[n].name == name) {
          var i :| 0 <= i < n && prefix[i].name == name &&
                   RecordContribution(prefix[i], mainKey, englishKey, decode).Entry?;
          assert records[i] == prefix[i];
        }
      }
    }
  }

  /** Every record that contributes an entry has its name in a successful fetch. */
  lemma {:induction false} RecordsInFetched(records: seq<Record>, mainKey: string, englishKey: Option<string>, decode: Decoder)
    ensures Fetched(records, mainKey, englishKey, decode).Ok? ==>
              forall i :: 0 <= i < |records| && RecordContribution(records[i], mainKey, englishKey, decode).Entry? ==>
                records[i].name in Fetched(records, mainKey, englishKey, decode).value
    decreases |records|
  {
    if records != [] && Fetched(records, mainKey, englishKey, decode).Ok? {
      var n := |records| - 1;
      var prefix := records[..n];
      RecordsInFetched(prefix, mainKey, englishKey, decode);
      FetchedStep(records, mainKey, englishKey, decode);
      forall i | 0 <= i < n && RecordContribution(records[i], mainKey, englishKey, decode).Entry?
        ensures records[i].name in Fetched(records, mainKey, englishKey, decode).value
      {
        assert records[i] == prefix[i];
      }
    }
  }

  /** The last record of a successful fetch either adds its entry or is skipped. */
  lemma FetchedStep(records: seq<Record>, mainKey: string, englishKey: Option<string>, decode: Decoder)
    requires records != [] && Fetched(records, mainKey, englishKey, decode).Ok?
    ensures var n := |records| - 1;
      var last := RecordContribution(records[n], mainKey, englishKey, decode);
      && Fetched(records[..n], mainKey, englishKey, decode).Ok?
      && !last.Fail?
      && Fetched(records, mainKey, englishKey, decode).value ==
           if last.Entry? then Fetched(records[..n], mainKey, englishKey, decode).value[records[n].name := last.strings]
           else Fetched(records[..n], mainKey, englishKey, decode).value
  {
  }

  /** A fetched table can be converted to locale-major form, and the result
      can be written exactly when the fetch found at least one entry. */
  lemma {:induction false} FetchedIsWritable(records: seq<Record>, mainKey: string, englishKey: Option<string>, decode: Decoder)
    requires Fetched(records, mainKey, englishKey, decode).Ok?
    ensures var t := Fetched(records, mainKey, englishKey, decode).value;
      EveryKeyHasEnglish(t) && (StringsFile.WriteAllowed(Transform.ByLocales(t)) <==> t != map[])
  {
    FetchedHasEnglish(records, mainKey, englishKey, decode);
    StringsFile.ConvertedIsWritable(Fetched(records, mainKey, englishKey, decode).value);
  }

  /** Uploading an entry into a record and fetching that record back gives
      the entry again, provided the entry has English, the JSON codec
      round-trips the payload and the English field is not the main field. */
  lemma UploadFetchRoundTrip(record: Record, strings: map<string, string>, mainKey: string, englishKey: Option<string>,
                             encode: Encoder, decode: Decoder)
    requires English in strings
    requires englishKey != Some(mainKey)
    requires encode(Payload(strings, englishKey)).Some?
    requires decode(encode(Payload(strings, englishKey)).value) == Some(Payload(strings, englishKey))
    ensures Prepared(record, strings, mainKey, englishKey, encode).Some?
    ensures RecordContribution(Prepared(record, strings, mainKey, englishKey, encode).value, mainKey, englishKey, decode)
         == Entry(strings)
  {
    if englishKey.Some? {
      assert map[English := strings[English]] + (strings - {English}) == strings;
    }
  }
}
