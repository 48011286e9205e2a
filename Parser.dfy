/**
 The bundle parser and the two table conversions of `Parser`, as imperative
 methods that build their dictionaries entry by entry. Swift's dictionary
 iteration order is unspecified; each loop picks the next key from the set of
 keys not yet visited, so every proof holds for every iteration order.
 */
module Parser {
  import opened Tables
  import opened Transform
  import opened StringsFile

  datatype ParserError = Malformed | EnglishResourceMissing | DirectoryIteration | CreateDirectory | WriteFile

  /** The file written for one locale: the order in which the dictionary
      yielded its keys, and the text of `Localizable.strings`. */
  datatype LocaleFile = LocaleFile(order: seq<string>, text: string)

  /** Gathers the locale tables of a directory listing. `files` holds the
      dictionary parsed from each entry's `Localizable.strings`; an entry
      missing from it is a file that did not parse. */
  method ReadLocales(contents: seq<string>, files: map<string, map<string, string>>)
    returns (r: Result<Table, ParserError>)
    ensures !AllParsed(contents, files) ==> r == Err(Malformed)
    ensures AllParsed(contents, files) ==> r == Ok(Collected(contents, files))
  {
    var stringsByLocale: Table := map[];
    for i := 0 to |contents|
      invariant stringsByLocale == Collected(contents[..i], files)
      invariant forall j :: 0 <= j < i && IsLproj(contents[j]) ==> contents[j] in files
    {
      assert contents[..i + 1][..i] == contents[..i];
      var content := contents[i];
      if !IsLproj(content) {
        continue;
      }
      if content !in files {
        return Err(Malformed);
      }
      stringsByLocale := stringsByLocale[LocaleOf(content) := files[content]];
    }
    assert contents[..|contents|] == contents;
    return Ok(stringsByLocale);
  }

  /** Drops every key that English lacks and every locale left empty. */
  method PruneToEnglish(stringsByLocale: Table) returns (r: Result<Table, ParserError>)
    ensures English !in stringsByLocale ==> r == Err(EnglishResourceMissing)
    ensures English in stringsByLocale ==> r == Ok(Prune(stringsByLocale))
  {
    if English !in stringsByLocale {
      return Err(EnglishResourceMissing);
    }
    var englishStrings := stringsByLocale[English];
    var clearedStringsByLocale: Table := map[];
    var localesLeft := stringsByLocale.Keys;
    while localesLeft != {}
      invariant localesLeft <= stringsByLocale.Keys
      invariant clearedStringsByLocale ==
        map l | l in stringsByLocale && l !in localesLeft && Restrict(stringsByLocale[l], englishStrings.Keys) != map[]
          :: Restrict(stringsByLocale[l], englishStrings.Keys)
      decreases localesLeft
    {
      var locale :| locale in localesLeft;
      var strings := stringsByLocale[locale];
      var newStrings: map<string, string> := map[];
      var keysLeft := strings.Keys;
      while keysLeft != {}
        invariant keysLeft <= strings.Keys
        invariant newStrings == map k | k in strings && k !in keysLeft && k in englishStrings :: strings[k]
        decreases keysLeft
      {
        var key :| key in keysLeft;
        if key in englishStrings {
          newStrings := newStrings[key := strings[key]];
        }
        keysLeft := keysLeft - {key};
      }
      assert newStrings == Restrict(strings, englishStrings.Keys);
      if newStrings != map[] {
        clearedStringsByLocale := clearedStringsByLocale[locale := newStrings];
      }
      localesLeft := localesLeft - {locale};
    }
    assert clearedStringsByLocale == Prune(stringsByLocale) by {
      assert englishStrings == stringsByLocale[English];
      forall l | l in stringsByLocale ensures l !in localesLeft {
      }
    }
    return Ok(clearedStringsByLocale);
  }

  /** Reads a bundle: the locale directories of the listing, then pruning
      against English. */
  method ParseDirectory(contents: seq<string>, files: map<string, map<string, string>>)
    returns (r: Result<Table, ParserError>)
    ensures !AllParsed(contents, files) ==> r == Err(Malformed)
    ensures AllParsed(contents, files) && English !in Collected(contents, files) ==>
              r == Err(EnglishResourceMissing)
    ensures AllParsed(contents, files) && English in Collected(contents, files) ==>
              r == Ok(Prune(Collected(contents, files)))
  {
    var stringsByLocale := ReadLocales(contents, files);
    if stringsByLocale.Err? {
      return Err(stringsByLocale.error);
    }
    r := PruneToEnglish(stringsByLocale.value);
  }

  /** Builds the lines of one locale's file, failing when a key has no
      English value. */
  method RenderLocale(strings: map<string, string>, englishStrings: map<string, string>)
    returns (r: Result<LocaleFile, ParserError>)
    ensures r.Err? <==> exists k :: k in strings && k !in englishStrings
    ensures r.Err? ==> r.error == EnglishResourceMissing
    ensures r.Ok? ==>
              && Enumerates(r.value.order, strings.Keys)
              && (forall i :: 0 <= i < |r.value.order| ==> r.value.order[i] in englishStrings)
              && r.value.text == RenderFile(strings, englishStrings, r.value.order)
  {
    var singleStrings: seq<string> := [];
    var order: seq<string> := [];
    var keysLeft := strings.Keys;
    while keysLeft != {}
      invariant keysLeft <= strings.Keys
      invariant forall i :: 0 <= i < |order| ==> order[i] in strings && order[i] in englishStrings && order[i] !in keysLeft
      invariant forall k :: k in strings && k !in keysLeft ==> k in order
      invariant forall i, j :: 0 <= i < j < |order| ==> order[i] != order[j]
      invariant singleStrings == Lines(strings, englishStrings, order)
      decreases keysLeft
    {
      var key :| key in keysLeft;
      if key !in englishStrings {
        return Err(EnglishResourceMissing);
      }
      var value := strings[key];
      singleStrings := singleStrings + [Line(key, value, englishStrings[key])];
      assert (order + [key])[..|order|] == order;
      order := order + [key];
      keysLeft := keysLeft - {key};
    }
    return Ok(LocaleFile(order, Join(singleStrings, "\n\n")));
  }

  /** The files of a bundle, keyed by the `.lproj` directory they go into.
      Fails when English is missing or some key of some locale has no English
      value. */
  method WriteStrings(stringsByLocale: Table) returns (r: Result<map<string, LocaleFile>, ParserError>)
    ensures !WriteAllowed(stringsByLocale) ==> r == Err(EnglishResourceMissing)
    ensures WriteAllowed(stringsByLocale) ==>
              r.Ok? &&
              r.value.Keys == (set l | l in stringsByLocale :: LprojName(l)) &&
              forall l :: l in stringsByLocale ==>
                var file := r.value[LprojName(l)];
                Enumerates(file.order, stringsByLocale[l].Keys) &&
                (forall i :: 0 <= i < |file.order| ==> file.order[i] in stringsByLocale[English]) &&
                file.text == RenderFile(stringsByLocale[l], stringsByLocale[English], file.order)
  {
    if English !in stringsByLocale {
      return Err(EnglishResourceMissing);
    }
    var englishStrings := stringsByLocale[English];
    var written: map<string, LocaleFile> := map[];
    var localesLeft := stringsByLocale.Keys;
    while localesLeft != {}
      invariant localesLeft <= stringsByLocale.Keys
      invariant forall l, k :: l in stringsByLocale && l !in localesLeft && k in stringsByLocale[l] ==> k in englishStrings
      invariant written.Keys == set l | l in stringsByLocale && l !in localesLeft :: LprojName(l)
      invariant forall l :: l in stringsByLocale && l !in localesLeft ==>
                  var file := written[LprojName(l)];
                  Enumerates(file.order, stringsByLocale[l].Keys) &&
                  (forall i :: 0 <= i < |file.order| ==> file.order[i] in englishStrings) &&
                  file.text == RenderFile(stringsByLocale[l], englishStrings, file.order)
      decreases localesLeft
    {
      var locale :| locale in localesLeft;
      var file := RenderLocale(stringsByLocale[locale], englishStrings);
      if file.Err? {
        return Err(file.error);
      }
      forall l | l in stringsByLocale && l !in localesLeft ensures LprojName(l) != LprojName(locale) {
        LprojNameInjective(l, locale);
      }
      written := written[LprojName(locale) := file.value];
      localesLeft := localesLeft - {locale};
    }
    return Ok(written);
  }

  /** Locale-major to key-major: one entry per English key, holding every
      locale's value for that key. */
  method ConvertToStringsByKeys(stringsByLocale: Table) returns (r: Result<Table, ParserError>)
    ensures English !in stringsByLocale ==> r == Err(EnglishResourceMissing)
    ensures English in stringsByLocale ==> r == Ok(ByKeys(stringsByLocale))
  {
    if English !in stringsByLocale {
      return Err(EnglishResourceMissing);
    }
    var englishStrings := stringsByLocale[English];
    var results: Table := map[];
    var keysLeft := englishStrings.Keys;
    ghost var keysDone: set<string> := {};
    while keysLeft != {}
      invariant keysDone + keysLeft == englishStrings.Keys && keysDone !! keysLeft
      invariant results == ByKeysSoFar(stringsByLocale, keysDone)
      decreases keysLeft
    {
      var key :| key in keysLeft;
      var result := map[English := englishStrings[key]];
      var localesLeft := stringsByLocale.Keys;
      ghost var localesDone: set<string> := {};
      while localesLeft != {}
        invariant localesDone + localesLeft == stringsByLocale.Keys && localesDone !! localesLeft
        invariant result == EntrySoFar(stringsByLocale, key, localesDone)
        decreases localesLeft
      {
        var locale :| locale in localesLeft;
        EntrySoFarStep(stringsByLocale, key, localesDone, locale);
        var strings := stringsByLocale[locale];
        if key in strings {
          result := result[locale := strings[key]];
        }
        Visit(localesDone, localesLeft, stringsByLocale.Keys, locale);
        localesDone := localesDone + {locale};
        localesLeft := localesLeft - {locale};
      }
      EntrySoFarComplete(stringsByLocale, key);
      ByKeysSoFarStep(stringsByLocale, keysDone, key);
      results := results[key := result];
      Visit(keysDone, keysLeft, englishStrings.Keys, key);
      keysDone := keysDone + {key};
      keysLeft := keysLeft - {key};
    }
    ByKeysSoFarComplete(stringsByLocale);
    return Ok(results);
  }

  /** Key-major to locale-major. Fails when some key has no English value. */
  method ConvertToStringsByLocales(stringsByKeys: Table) returns (r: Result<Table, ParserError>)
    ensures EveryKeyHasEnglish(stringsByKeys) ==> r == Ok(ByLocales(stringsByKeys))
    ensures !EveryKeyHasEnglish(stringsByKeys) ==> r == Err(EnglishResourceMissing)
  {
    var results: Table := map[];
    var keysLeft := stringsByKeys.Keys;
    ghost var keysDone: set<string> := {};
    while keysLeft != {}
      invariant keysDone + keysLeft == stringsByKeys.Keys && keysDone !! keysLeft
      invariant forall k :: k in keysDone ==> English in stringsByKeys[k]
      invariant results == ByLocales(KeysSoFar(stringsByKeys, keysDone))
      decreases keysLeft
    {
      var key :| key in keysLeft;
      var strings := stringsByKeys[key];
      ghost var done := KeysSoFar(stringsByKeys, keysDone);
      KeysSoFarStep(stringsByKeys, keysDone, key);
      ByLocalesCellStart(done, key, strings);
      var hasEnglishResource := false;
      var localesLeft := strings.Keys;
      ghost var localesDone: set<string> := {};
      while localesLeft != {}
        invariant localesDone + localesLeft == strings.Keys && localesDone !! localesLeft
        invariant hasEnglishResource <==> English in localesDone
        invariant results == ByLocales(done[key := Restrict(strings, localesDone)])
        decreases localesLeft
      {
        var locale :| locale in localesLeft;
        var value := strings[locale];
        if !hasEnglishResource && locale == English {
          hasEnglishResource := true;
        }
        ByLocalesCellStep(done, key, strings, localesDone, locale);
        ghost var expected := results[locale := EntryOrEmpty(results, locale)[key := value]];
        if locale in results {
          results := results[locale := results[locale][key := value]];
        } else {
          results := results[locale := map[key := value]];
        }
        assert results == expected;
        Visit(localesDone, localesLeft, strings.Keys, locale);
        localesDone := localesDone + {locale};
        localesLeft := localesLeft - {locale};
      }
      if !hasEnglishResource {
        return Err(EnglishResourceMissing);
      }
      assert Restrict(strings, localesDone) == strings;
      Visit(keysDone, keysLeft, stringsByKeys.Keys, key);
      keysDone := keysDone + {key};
      keysLeft := keysLeft - {key};
    }
    assert keysDone == stringsByKeys.Keys;
    KeysSoFarComplete(stringsByKeys);
    return Ok(results);
  }
}
