/**
 The on-disk layout of a localization bundle: one `<locale>.lproj` directory
 per locale, each holding a `Localizable.strings` file made of commented,
 quote-escaped `"key" = "value";` lines.
 */
module StringsFile {
  import opened Tables
  import Transform

  // ---------------------------------------------------------------------
  // Directory names

  const Suffix: string := ".lproj"
  const FileName: string := "Localizable.strings"

  /** A directory entry that names a locale directory. */
  predicate IsLproj(entry: string)
  {
    |entry| >= |Suffix| && entry[|entry| - |Suffix|..] == Suffix
  }

  /** The locale of a locale directory: its name without the last six characters. */
  function LocaleOf(entry: string): string
    requires IsLproj(entry)
  {
    entry[..|entry| - |Suffix|]
  }

  /** The directory that holds the table of `locale`. */
  function LprojName(locale: string): string
  {
    locale + Suffix
  }

  /** The directory written for a locale is read back as that locale. */
  lemma LprojNameRoundTrip(locale: string)
    ensures IsLproj(LprojName(locale)) && LocaleOf(LprojName(locale)) == locale
  {
    assert LprojName(locale)[..|locale|] == locale;
  }

  /** Reading a locale directory's locale and naming it again gives the entry back. */
  lemma LocaleOfRoundTrip(entry: string)
    requires IsLproj(entry)
    ensures LprojName(LocaleOf(entry)) == entry
  {
    assert entry == entry[..|entry| - |Suffix|] + entry[|entry| - |Suffix|..];
  }

  /** Distinct locales get distinct directories. */
  lemma LprojNameInjective(a: string, b: string)
    ensures LprojName(a) == LprojName(b) ==> a == b
  {
    LprojNameRoundTrip(a);
    LprojNameRoundTrip(b);
  }

  /** The locale-major table gathered from a directory listing, in listing
      order: each locale directory whose file parsed contributes its table
      (`files` maps an entry to the dictionary parsed from its file). */
  function Collected(contents: seq<string>, files: map<string, map<string, string>>): Table
    decreases |contents|
  {
    if contents == [] then map[]
    else
      var prior := Collected(contents[..|contents| - 1], files);
      var entry := contents[|contents| - 1];
      if IsLproj(entry) && entry in files then prior[LocaleOf(entry) := files[entry]] else prior
  }

  /** Every locale directory of the listing has a file that parsed. */
  predicate AllParsed(contents: seq<string>, files: map<string, map<string, string>>)
  {
    forall i :: 0 <= i < |contents| && IsLproj(contents[i]) ==> contents[i] in files
  }

  /** The locale `LocaleOf(entry)` comes from a parsed locale directory. */
  predicate FromParsedEntry(entry: string, files: map<string, map<string, string>>, l: string)
  {
    IsLproj(entry) && entry in files && LocaleOf(entry) == l
  }

  /** The gathered locales are exactly the locales of the parsed locale directories. */
  lemma {:induction false} CollectedLocales(contents: seq<string>, files: map<string, map<string, string>>)
    ensures forall l :: l in Collected(contents, files) <==>
              exists i :: 0 <= i < |contents| && FromParsedEntry(contents[i], files, l)
    decreases |contents|
  {
    if contents != [] {
      var n := |contents| - 1;
      var prefix := contents[..n];
      CollectedLocales(prefix, files);
      var entry := contents[n];
      assert forall i :: 0 <= i < n ==> prefix[i] == contents[i];
      forall l | l in Collected(contents, files)
        ensures exists i :: 0 <= i < |contents| && FromParsedEntry(contents[i], files, l)
      {
        if !FromParsedEntry(entry, files, l) {
          assert l in Collected(prefix, files);
          var i :| 0 <= i < n && FromParsedEntry(prefix[i], files, l);
          assert FromParsedEntry(contents[i], files, l);
        }
      }
      forall l, i | 0 <= i < |contents| && FromParsedEntry(contents[i], files, l)
        ensures l in Collected(contents, files)
      {
        if i < n {
          assert FromParsedEntry(prefix[i], files, l);
        }
      }
    }
  }

  /** In a listing without repeated names, each locale holds the table parsed
      from its own directory. */
  lemma {:induction false} CollectedValues(contents: seq<string>, files: map<string, map<string, string>>)
    requires forall i, j :: 0 <= i < j < |contents| ==> contents[i] != contents[j]
    ensures forall i :: 0 <= i < |contents| && IsLproj(contents[i]) && contents[i] in files ==>
              LocaleOf(contents[i]) in Collected(contents, files) &&
              Collected(contents, files)[LocaleOf(contents[i])] == files[contents[i]]
    decreases |contents|
  {
    if contents != [] {
      var n := |contents| - 1;
      var prefix := contents[..n];
      CollectedValues(prefix, files);
      var entry := contents[n];
      forall i | 0 <= i < |contents| && IsLproj(contents[i]) && contents[i] in files
        ensures LocaleOf(contents[i]) in Collected(contents, files) &&
                Collected(contents, files)[LocaleOf(contents[i])] == files[contents[i]]
      {
        if i < n {
          assert prefix[i] == contents[i];
          if IsLproj(entry) && entry in files && LocaleOf(entry) == LocaleOf(contents[i]) {
            LocaleOfRoundTrip(entry);
            LocaleOfRoundTrip(contents[i]);
          }
        }
      }
    }
  }

  // ---------------------------------------------------------------------
  // Escaping

  /** Every double quote prefixed with a backslash; nothing else changes. */
  function Escape(s: string): string
  {
    if s == [] then []
    else (if s[0] == '"' then ['\\', '"'] else [s[0]]) + Escape(s[1..])
  }

  /** Reads a backslash-quote pair back as a quote. */
  function Unescape(s: string): string
  {
    if s == [] then []
    else if |s| >= 2 && s[0] == '\\' && s[1] == '"' then ['"'] + Unescape(s[2..])
    else [s[0]] + Unescape(s[1..])
  }

  /** An escaped string never starts with a bare quote. */
  lemma EscapeHead(s: string)
    ensures Escape(s) != [] ==> Escape(s)[0] != '"'
  {
  }

  /** Escaping loses nothing: `Unescape` gives the original back. `Unescape`
      is this model's inverse, not the strings-file reader, which also treats
      a lone backslash as an escape; backslashes are not escaped here. */
  lemma {:induction false} EscapeRoundTrip(s: string)
    ensures Unescape(Escape(s)) == s
    decreases |s|
  {
    if s != [] {
      var rest := Escape(s[1..]);
      EscapeRoundTrip(s[1..]);
      if s[0] == '"' {
        assert Escape(s) == ['\\', '"'] + rest;
        assert (['\\', '"'] + rest)[2..] == rest;
      } else {
        EscapeHead(s[1..]);
        assert Escape(s) == [s[0]] + rest;
        assert ([s[0]] + rest)[1..] == rest;
      }
    }
  }

  /** Every quote of an escaped string is preceded by a backslash. */
  lemma {:induction false} EscapeQuotes(s: string)
    ensures forall i :: 0 <= i < |Escape(s)| && Escape(s)[i] == '"' ==> i > 0 && Escape(s)[i - 1] == '\\'
    decreases |s|
  {
    if s != [] {
      EscapeQuotes(s[1..]);
      var head: string := if s[0] == '"' then ['\\', '"'] else [s[0]];
      var rest := Escape(s[1..]);
      assert Escape(s) == head + rest;
      EscapeHead(s[1..]);
      forall i | 0 <= i < |Escape(s)| && Escape(s)[i] == '"' ensures i > 0 && Escape(s)[i - 1] == '\\' {
        if i > |head| {
          assert Escape(s)[i] == rest[i - |head|];
          assert Escape(s)[i - 1] == rest[i - |head| - 1];
        }
      }
    }
  }

  /** A string without quotes is written unchanged. */
  lemma {:induction false} EscapeWithoutQuotes(s: string)
    requires forall i :: 0 <= i < |s| ==> s[i] != '"'
    ensures Escape(s) == s
    decreases |s|
  {
    if s != [] {
      EscapeWithoutQuotes(s[1..]);
      assert s == [s[0]] + s[1..];
    }
  }

  // ---------------------------------------------------------------------
  // Lines and files

  /** One entry of a strings file: the unescaped English text as a comment,
      then the escaped key and value. */
  function Line(key: string, value: string, english: string): string
  {
    "// English: " + english + "\n\"" + Escape(key) + "\" = \"" + Escape(value) + "\";"
  }

  /** The lines of a locale's file, in `order`. */
  function Lines(strings: map<string, string>, english: map<string, string>, order: seq<string>): seq<string>
    requires forall i :: 0 <= i < |order| ==> order[i] in strings && order[i] in english
    decreases |order|
  {
    if order == [] then []
    else
      var n := |order| - 1;
      Lines(strings, english, order[..n]) + [Line(order[n], strings[order[n]], english[order[n]])]
  }

  /** The lines joined by `sep`, as Swift's `joined(separator:)`. */
  function Join(lines: seq<string>, sep: string): string
    decreases |lines|
  {
    if lines == [] then ""
    else if |lines| == 1 then lines[0]
    else lines[0] + sep + Join(lines[1..], sep)
  }

  /** The text of a locale's `Localizable.strings`: its lines separated by a blank line. */
  function RenderFile(strings: map<string, string>, english: map<string, string>, order: seq<string>): string
    requires forall i :: 0 <= i < |order| ==> order[i] in strings && order[i] in english
  {
    Join(Lines(strings, english, order), "\n\n")
  }

  /** One line per key, each for the key at the same position of `order`. */
  lemma {:induction false} LinesMeaning(strings: map<string, string>, english: map<string, string>, order: seq<string>)
    requires forall i :: 0 <= i < |order| ==> order[i] in strings && order[i] in english
    ensures |Lines(strings, english, order)| == |order|
    ensures forall i :: 0 <= i < |order| ==>
              Lines(strings, english, order)[i] == Line(order[i], strings[order[i]], english[order[i]])
    decreases |order|
  {
    if order != [] {
      var n := |order| - 1;
      LinesMeaning(strings, english, order[..n]);
    }
  }

  /** `order` lists the keys of `keys`, each once. */
  predicate Enumerates(order: seq<string>, keys: set<string>)
  {
    && (forall i :: 0 <= i < |order| ==> order[i] in keys)
    && (forall k :: k in keys ==> k in order)
    && (forall i, j :: 0 <= i < j < |order| ==> order[i] != order[j])
  }

  /** Writing is allowed when there is an English table and every key of
      every locale has an English value. */
  predicate WriteAllowed(t: Table)
  {
    English in t && forall l, k :: l in t && k in t[l] ==> k in t[English]
  }

  /** The locale-major view of a fetched key-major table (every key has
      English) can be written exactly when the table is not empty. */
  lemma {:induction false} ConvertedIsWritable(t: Table)
    requires EveryKeyHasEnglish(t)
    ensures WriteAllowed(Transform.ByLocales(t)) <==> t != map[]
  {
    Transform.ByLocalesEnglish(t);
  }

  /** A pruned bundle can be written exactly when its English table has a key. */
  lemma {:induction false} PrunedIsWritable(s: Table)
    requires English in s
    ensures WriteAllowed(Transform.Prune(s)) <==> s[English] != map[]
  {
    Transform.PruneMeaning(s);
    var p := Transform.Prune(s);
    if s[English] != map[] {
      assert p[English] == s[English];
    }
  }
}
