# Localization synchronizer: verified model of the string-table core

This project models the part of the localization synchronizer that does the
work on string tables:

- **Reading a bundle.** `Parser.parseDirectory` reads the
  `<locale>.lproj/Localizable.strings` bundle. It keeps only keys that English
  defines and drops locales left empty.
- **Writing a bundle.** `Parser.writeStrings` writes a bundle back as
  commented, quote-escaped `"key" = "value";` lines.
- **Switching shape.** Two conversions turn a table from locale-major
  (locale -> key -> value) to key-major (key -> locale -> value) and back.
- **Diffing.** The uploader's diff of two key-major snapshots produces the
  added, removed and changed entries.
- **CloudKit records.** `CloudKitHandler` maps key-major tables to CloudKit
  records and back. Each translation key is one record. Its main field holds
  the JSON of the locale -> value map. An optional English field holds the
  English value on its own.

## Modules

- `Tables`: the table type and `Option`/`Result`.
- `Transform`: the specification functions `ByKeys`, `ByLocales` and `Prune`,
  with their properties.
- `StringsFile`: directory naming, escaping and the rendering of a strings file.
- `Parser`: the methods of `Parser.swift`, each proved against a specification
  function.
- `Uploader`: the diff.
- `CloudKitHandler`: the upload preparation and the fetch-parsing loop.

## Modelling choices

- **Dictionary iteration.** Swift visits a dictionary in an unspecified
  order. Each such loop is modelled by picking an arbitrary unvisited key
  (`:|`). So every result is proved for every iteration order.
- **Outside world as parameters.** The file system, the network and the JSON
  codec appear as parameters:
  - the directory listing is a sequence of entry names;
  - the parsed strings files are a map from entry to dictionary, and an entry
    missing from it is a file that did not parse;
  - the fetched records are `Option<seq<Record>>`, where `None` is a CloudKit
    failure;
  - the encoder and decoder are functions that return `None` on failure.

## Notes on behaviour

- With no English field configured, a fetched record without a main field is
  skipped, not an error (`Sources/Parser/CloudKitHandler.swift:167-169`);
  `RecordContribution` returns `Skip` for it.
- A strings file that does not parse is `ParserError.malformed`; JSON that
  does not encode or decode is `CloudKitHandlerError.json`.

## Model

| member | source | states |
|---|---|---|
| Parser.ConvertToStringsByKeys | Sources/Parser/Parser.swift:103-118 | Without an English table the result is `englishResourceMissing`. Otherwise it is `ByKeys`: one entry per English key, holding that key's value in every locale that has it. |
| Parser.ConvertToStringsByLocales | Sources/Parser/Parser.swift:120-139 | The conversion succeeds exactly when every key has an English value. It then returns `ByLocales`, the regrouping of every cell by locale. Otherwise it returns `englishResourceMissing`. |
| Parser.ReadLocales | Sources/Parser/Parser.swift:44-49 | If any `.lproj` entry's file does not parse, the result is `malformed`. Otherwise each parsed locale directory's table is stored under its locale name, later entries overwriting earlier ones. |
| Parser.PruneToEnglish | Sources/Parser/Parser.swift:51-68 | Without English the result is `englishResourceMissing`. Otherwise it is `Prune`: each locale restricted to the English keys, with locales that end up empty dropped. |
| Parser.ParseDirectory | Sources/Parser/Parser.swift:39-69 | Reading then pruning. The result is `malformed`, or `englishResourceMissing`, or the pruned collected table. |
| Parser.RenderLocale | Sources/Parser/Parser.swift:85-96 | Fails with `englishResourceMissing` exactly when some key has no English value. Otherwise the line order lists each key once, and the text is those lines joined by a blank line. |
| Parser.WriteStrings | Sources/Parser/Parser.swift:71-101 | Fails with `englishResourceMissing` exactly when there is no English table or some key lacks English. Otherwise it writes one `<locale>.lproj` file per locale, each listing that locale's keys once, rendered. |
| Transform.ByKeysMeaning | Sources/Parser/Parser.swift:103-118 | The keys of the key-major table are the English keys. Each entry holds exactly the locales that have that key, with their values. |
| Transform.ByKeysHasEnglish | Sources/Parser/Parser.swift:108-109 | Every entry of the key-major table has its English value. |
| Transform.ByLocalesMeaning | Sources/Parser/Parser.swift:120-139 | A locale appears exactly when some key has it. A cell is present exactly when the key-major table has it, with the same value. No locale is empty. |
| Transform.ByLocalesEnglish | Sources/Parser/Parser.swift:120-139 | When every key has English, the English locale appears exactly when the table is non-empty. |
| Transform.ByLocalesInsert | Sources/Parser/Parser.swift:128-132 | Inserting a cell into the key-major table inserts the same cell into the locale-major result. This is the step the conversion loop performs. |
| Transform.ByLocalesEmptyEntry | Sources/Parser/Parser.swift:122-124 | A new key whose entry is empty contributes nothing to the locale-major table. |
| Transform.PruneMeaning | Sources/Parser/Parser.swift:55-66 | Each kept locale holds only English keys, with unchanged values, and is non-empty. English is kept exactly when it has a key. |
| Transform.PruneExample | Sources/Parser/Parser.swift:55-66 | The worked example: with English keys `{a, b}`, French `{a, c}` is pruned to `{a}` and English is kept whole. |
| Transform.PruneIdempotent | Sources/Parser/Parser.swift:55-66 | When English has a key, pruning the pruned bundle again changes nothing. |
| Transform.RoundTripLocaleMajor | Sources/Parser/Parser.swift:103-139 | Converting a bundle to key-major and back gives its pruned form. |
| Transform.RoundTripKeyMajor | Sources/Parser/Parser.swift:103-139 | A non-empty key-major table whose keys all have English survives conversion to locale-major and back unchanged. |
| Transform.ByKeysOfPrune | Sources/Parser/Parser.swift:103-118 | Pruning before the key-major conversion does not change its result. |
| StringsFile.LprojNameRoundTrip | Sources/Parser/Parser.swift:46-47 | The directory written for a locale is an `.lproj` entry that reads back as that locale. |
| StringsFile.LocaleOfRoundTrip | Sources/Parser/Parser.swift:46-47 | Naming the locale read from an `.lproj` entry gives the entry back. |
| StringsFile.LprojNameInjective | Sources/Parser/Parser.swift:75-76 | Distinct locales are written to distinct directories. |
| StringsFile.CollectedLocales | Sources/Parser/Parser.swift:44-49 | The collected locales are exactly the locales of the parsed `.lproj` entries. Other entries are skipped. |
| StringsFile.CollectedValues | Sources/Parser/Parser.swift:44-49 | In a listing without repeated names, each locale holds the table parsed from its own directory. |
| StringsFile.EscapeRoundTrip | Sources/Parser/Parser.swift:92 | Quote escaping is injective: the model's `Unescape` gives the original key or value back. This is not a claim about the strings-file reader, which also reads backslash escapes. |
| StringsFile.EscapeQuotes | Sources/Parser/Parser.swift:92 | Every quote in an escaped string is preceded by a backslash. |
| StringsFile.EscapeWithoutQuotes | Sources/Parser/Parser.swift:92 | A string without quotes is written unchanged. |
| StringsFile.LinesMeaning | Sources/Parser/Parser.swift:87-94 | One line per key, in order, each made of the English comment and the escaped key and value. |
| StringsFile.ConvertedIsWritable | Sources/Parser/Parser.swift:72-90 | The locale-major form of a key-major table whose keys all have English can be written exactly when the table is non-empty. |
| StringsFile.PrunedIsWritable | Sources/Parser/Parser.swift:72-90 | A pruned bundle can be written exactly when its English table has a key. |
| Uploader.Added | Sources/UploaderApp/UploaderApp.swift:51 | The added entries are exactly the keys of the new snapshot missing from the old one, with their new entries. |
| Uploader.Removed | Sources/UploaderApp/UploaderApp.swift:52 | The removed entries are exactly the keys of the old snapshot missing from the new one, with their old entries. |
| Uploader.Changed | Sources/UploaderApp/UploaderApp.swift:53 | The changed entries are exactly the shared keys whose entries differ, each with its new entry. |
| Uploader.Diff | Sources/UploaderApp/UploaderApp.swift:51-53 | The three sets of the change set are pairwise disjoint; added and changed keys lie in the new snapshot, removed keys in the old one. |
| Uploader.DiffMeaning | Sources/UploaderApp/UploaderApp.swift:51-53 | Added: the new keys, with their new entries. Removed: the vanished keys, with their old entries. Changed: the shared keys whose entries differ, with their new entries. |
| Uploader.DiffPartition | Sources/UploaderApp/UploaderApp.swift:51-53 | The three sets are pairwise disjoint. Together they cover exactly the keys that are not identical in both snapshots. |
| Uploader.ApplyDiff | Sources/UploaderApp/UploaderApp.swift:51-53 | Applying the diff to the old snapshot gives the new one. |
| Uploader.DiffSelf | Sources/UploaderApp/UploaderApp.swift:51-53 | A snapshot diffed with itself yields three empty sets. |
| Uploader.DiffUpload | Sources/UploaderApp/UploaderApp.swift:51-53 | The removal set is empty exactly when no old key disappears. Added plus changed are exactly the new entries that are new or differ. |
| Uploader.DiffExample | Sources/UploaderApp/UploaderApp.swift:51-53 | The example with `k1` kept, `k2` removed and `k3` added. |
| Uploader.ChangedExample | Sources/UploaderApp/UploaderApp.swift:53 | A difference in a single locale marks the whole key as changed. |
| CloudKitHandler.MergeChanges | Sources/Parser/CloudKitHandler.swift:43-49 | The merged keys are the added and changed keys together. A changed entry wins over an added one with the same key. |
| CloudKitHandler.IndexByName | Sources/Parser/CloudKitHandler.swift:51-61 | The fetched records are indexed by name. The source's results are a dictionary keyed by record ID, so names never repeat; the sequence and the rule that a later record wins generalise it. |
| CloudKitHandler.LatestNames | Sources/Parser/CloudKitHandler.swift:54-57 | Exactly the fetched names are indexed, each record under its own name. |
| CloudKitHandler.LatestIsLast | Sources/Parser/CloudKitHandler.swift:54-57 | Each indexed record is the last fetched record with its name. |
| CloudKitHandler.WriteChange | Sources/Parser/CloudKitHandler.swift:74-86 | The English field is set from the change's English value, or cleared if it has none. English is removed from the payload. The encoded payload goes into the main field. The result is none when encoding fails. |
| CloudKitHandler.PrepareRecords | Sources/Parser/CloudKitHandler.swift:66-88 | Succeeds exactly when every change has a record and an encodable payload, and then returns the batch. Otherwise it fails with `internalError` or `json`, and it is always `json` when every record exists and `internalError` when every payload encodes. |
| CloudKitHandler.UploadChanges | Sources/Parser/CloudKitHandler.swift:36-88 | Any removal gives `removalNotAllowed`, and a failed fetch gives `cloudKit`. Otherwise the result is the batch for added-then-changed entries over the fetched records, or `internalError`/`json`. |
| CloudKitHandler.BatchMeaning | Sources/Parser/CloudKitHandler.swift:66-88 | One saved record per change, under its own key. Its main field is the encoded payload, and its English field holds the English value. Every other field of the fetched record is kept. |
| CloudKitHandler.ParseRecord | Sources/Parser/CloudKitHandler.swift:152-177 | One record's contribution. With an English field: that field is required (`englishResourceMissing`), and the decoded main field, if present, is overlaid on it (`json` if it does not decode). Without one: a record lacking the main field is skipped, and otherwise the decoded map must contain English. |
| CloudKitHandler.ParseRecords | Sources/Parser/CloudKitHandler.swift:150-179 | Records are taken in order. The first failing record aborts the fetch, skipped records are passed over, and a later record overwrites an earlier one with the same name. |
| CloudKitHandler.FetchedFailurePersists | Sources/Parser/CloudKitHandler.swift:151-178 | Once a prefix of the records fails, the whole fetch fails with the same error. |
| CloudKitHandler.FetchedHasEnglish | Sources/Parser/CloudKitHandler.swift:153-176 | Every entry of a successful fetch has an English value. |
| CloudKitHandler.FetchedFailure | Sources/Parser/CloudKitHandler.swift:150-179 | The fetch fails exactly when some record fails, and then with the first failing record's error. |
| CloudKitHandler.FetchedKeys | Sources/Parser/CloudKitHandler.swift:150-179 | A successful fetch holds an entry for exactly the names of the records that contribute one. |
| CloudKitHandler.FetchedIsWritable | Sources/Parser/CloudKitHandler.swift:150-179 | A fetched table converts to a locale-major table, which can be written exactly when the fetch found an entry. |
| CloudKitHandler.UploadFetchRoundTrip | Sources/Parser/CloudKitHandler.swift:152-165 | Fetching back a record prepared from an entry gives the entry again. This needs an English value, a round-tripping codec, and an English field distinct from the main field. |

## Left out

- `Parser.parseFile` (`NSDictionary` parsing of a strings file) is not modelled. Its outcome is the `files` parameter, and an entry missing from it is a file that did not parse.
- The `directoryIteration`, `createDirectory` and `writeFile` errors of `Parser` come from the file system, which is not modelled. `WriteStrings` returns the files it would write rather than writing them, so files written before a failure are not captured.
- `Parser.WriteStrings`: the order of lines within a file is Swift's dictionary order. The model proves only that the order lists every key once.
- The CloudKit calls are not modelled: the record fetch, query pagination with its cursor loop, and `modifyRecords`. The fetched records are a parameter, and `UploadChanges` returns the batch it would save.
- `CloudKitHandler.configure` and the authentication set-up and argument parsing of `UploaderApp.run` are configuration glue with no logic on tables.
- JSON encoding and decoding are not modelled. The codec is a pair of function parameters, and its round trip is a precondition where needed.
- Record fields that are not strings are treated as absent, which matches the `as? String` casts.
- CKRecord's in-place field updates are modelled on record values. Aliasing between records is therefore not captured.
- `CloudKitHandler.PrepareRecords`: when one change lacks a record and another's payload does not encode, which of `internalError` and `json` is reported depends on iteration order. The contract says only that it is one of the two.
- `StringsFile.Escape`: the writer escapes double quotes but not backslashes, as the code does. A key or value containing a backslash (such as `a\` or a backslash followed by a quote) is therefore not read back as written by a strings-file reader; `EscapeRoundTrip` holds only against the model's own `Unescape`.
- Strings are compared as sequences of characters. Swift's `String` equality, used by every dictionary lookup and by the diff's `!=`, identifies canonically equivalent Unicode sequences (precomposed `é` and `e` plus a combining accent). The model matches the program only when keys, locales and values share one normalization form.
- The English comment line of a strings file is written without escaping, as the code does. The model does not claim the written file can be parsed back when an English value contains a newline.
- The synchronizer app, `Package.swift` and the command-line front ends are not part of this model.
