/**
 The two views of a multi-locale string table and the pruning applied when a
 bundle is read, as functions on values. The imperative conversions in module
 Parser are proved equal to these functions; the lemmas below state what the
 conversions promise.
 */
module Transform {
  import opened Tables

  /** The locale -> value entry that key `key` gets in the key-major view of `s`. */
  function EntryFor(s: Table, key: string): map<string, string>
  {
    map l | l in s && key in s[l] :: s[l][key]
  }

  /** Key-major view of a locale-major table: one entry per English key. */
  function ByKeys(s: Table): Table
    requires English in s
  {
    map k | k in s[English] :: EntryFor(s, k)
  }

  /** The locales that occur in some entry of key-major `t`. */
  function LocalesOf(t: Table): set<string>
  {
    set k, l | k in t && l in t[k] :: l
  }

  /** The key -> value table of locale `l` in the locale-major view of `t`. */
  function Column(t: Table, l: string): map<string, string>
  {
    map k | k in t && l in t[k] :: t[k][l]
  }

  /** Locale-major view of a key-major table. */
  function ByLocales(t: Table): Table
  {
    map l | l in LocalesOf(t) :: Column(t, l)
  }

  /** A bundle read from disk with every key that English lacks dropped, and
      every locale left empty dropped (English included). */
  function Prune(s: Table): Table
    requires English in s
  {
    map l | l in s && Restrict(s[l], s[English].Keys) != map[] :: Restrict(s[l], s[English].Keys)
  }

  /** The entry of `key` in `p`, or the empty entry. */
  function EntryOrEmpty(p: Table, key: string): map<string, string>
  {
    if key in p then p[key] else map[]
  }

  // ---------------------------------------------------------------------
  // Locale-major -> key-major

  /** The key set is the English key set; every entry holds the English value
      under "en" and, for each other locale, exactly the values that locale has. */
  lemma ByKeysMeaning(s: Table)
    requires English in s
    ensures ByKeys(s).Keys == s[English].Keys
    ensures forall k :: k in ByKeys(s) ==> English in ByKeys(s)[k] && ByKeys(s)[k][English] == s[English][k]
    ensures forall k, l :: k in ByKeys(s) ==>
              (l in ByKeys(s)[k] <==> l in s && k in s[l]) &&
              (l in ByKeys(s)[k] ==> ByKeys(s)[k][l] == s[l][k])
  {
  }

  /** The key-major view always satisfies the key-major invariant. */
  lemma ByKeysHasEnglish(s: Table)
    requires English in s
    ensures EveryKeyHasEnglish(ByKeys(s))
  {
  }

  // ---------------------------------------------------------------------
  // Key-major -> locale-major

  /** Each (key, locale) pair of `t` appears as `result[locale][key]` with the
      same value, nothing else appears, and no locale has an empty table. */
  lemma ByLocalesMeaning(t: Table)
    ensures forall l, k :: l in ByLocales(t) && k in ByLocales(t)[l] ==>
              k in t && l in t[k] && ByLocales(t)[l][k] == t[k][l]
    ensures forall k, l :: k in t && l in t[k] ==>
              l in ByLocales(t) && k in ByLocales(t)[l]
    ensures forall l :: l in ByLocales(t) ==> ByLocales(t)[l] != map[]
  {
    forall l | l in ByLocales(t) ensures ByLocales(t)[l] != map[] {
      var k :| k in t && l in t[k];
      assert k in Column(t, l);
    }
  }

  /** For a key-major table that keeps its invariant, the locale-major view has
      an English table exactly when there is at least one key, and then every
      key of every locale is an English key. */
  lemma ByLocalesEnglish(t: Table)
    requires EveryKeyHasEnglish(t)
    ensures English in ByLocales(t) <==> t != map[]
    ensures English in ByLocales(t) ==>
              forall l, k :: l in ByLocales(t) && k in ByLocales(t)[l] ==> k in ByLocales(t)[English]
  {
    if t != map[] {
      var k :| k in t;
      assert English in t[k];
    }
  }

  /** The table of locale `l` in the locale-major view, empty when `l` is absent. */
  lemma ColumnOrEmpty(p: Table, l: string)
    ensures EntryOrEmpty(ByLocales(p), l) == Column(p, l)
  {
    forall k | k in Column(p, l) ensures l in LocalesOf(p) {
      assert k in p && l in p[k];
    }
    if l !in LocalesOf(p) {
      assert Column(p, l) == map[];
    }
  }

  /** Adding one (key, locale, value) cell to a key-major table adds the same
      cell to its locale-major view. */
  lemma ByLocalesInsert(p: Table, key: string, l: string, v: string)
    ensures ByLocales(p[key := EntryOrEmpty(p, key)[l := v]])
         == ByLocales(p)[l := EntryOrEmpty(ByLocales(p), l)[key := v]]
  {
    var p' := p[key := EntryOrEmpty(p, key)[l := v]];
    var lhs := ByLocales(p');
    var rhs := ByLocales(p)[l := EntryOrEmpty(ByLocales(p), l)[key := v]];
    LocalesOfInsert(p, key, l, v);
    assert lhs.Keys == LocalesOf(p');
    assert rhs.Keys == LocalesOf(p) + {l};
    ColumnOrEmpty(p, l);
    ColumnSame(p, key, l, v);
    assert lhs[l] == rhs[l];
    forall l' | l' in lhs && l' != l ensures lhs[l'] == rhs[l'] {
      ColumnOther(p, key, l, v, l');
    }
  }

  /** Adding a cell of locale `l` adds it to the table of `l`. */
  lemma ColumnSame(p: Table, key: string, l: string, v: string)
    ensures Column(p[key := EntryOrEmpty(p, key)[l := v]], l) == Column(p, l)[key := v]
  {
  }

  /** Adding a cell of locale `l` leaves the table of every other locale alone. */
  lemma ColumnOther(p: Table, key: string, l: string, v: string, l': string)
    requires l' != l
    ensures Column(p[key := EntryOrEmpty(p, key)[l := v]], l') == Column(p, l')
  {
  }

  /** The locales of `p` after adding one cell: those of `p` and the cell's. */
  lemma LocalesOfInsert(p: Table, key: string, l: string, v: string)
    ensures LocalesOf(p[key := EntryOrEmpty(p, key)[l := v]]) == LocalesOf(p) + {l}
  {
    var p' := p[key := EntryOrEmpty(p, key)[l := v]];
    forall x | x in LocalesOf(p') ensures x in LocalesOf(p) + {l} {
      var k :| k in p' && x in p'[k];
      if x != l {
        assert k in p && x in p[k];
      }
    }
    forall x | x in LocalesOf(p) + {l} ensures x in LocalesOf(p') {
      if x == l {
        assert key in p' && l in p'[key];
      } else {
        var k :| k in p && x in p[k];
        assert k in p' && x in p'[k];
      }
    }
  }

  /** A key with an empty entry contributes nothing to the locale-major view. */
  lemma ByLocalesEmptyEntry(p: Table, key: string)
    requires key !in p
    ensures ByLocales(p[key := map[]]) == ByLocales(p)
  {
    var p' := p[key := map[]];
    forall x | x in LocalesOf(p') ensures x in LocalesOf(p) {
      var k :| k in p' && x in p'[k];
      assert k in p && x in p[k];
    }
    forall x | x in LocalesOf(p) ensures x in LocalesOf(p') {
      var k :| k in p && x in p[k];
      assert k in p' && x in p'[k];
    }
    assert LocalesOf(p') == LocalesOf(p);
    forall l | l in LocalesOf(p) ensures Column(p', l) == Column(p, l) {
    }
  }

  // ---------------------------------------------------------------------
  // Pruning

  /** Pruning keeps only English keys with their values unchanged, leaves no
      locale empty, and keeps English exactly when English has a key. */
  lemma PruneMeaning(s: Table)
    requires English in s
    ensures Prune(s).Keys <= s.Keys
    ensures forall l, k :: l in Prune(s) && k in Prune(s)[l] ==>
              k in s[English] && k in s[l] && Prune(s)[l][k] == s[l][k]
    ensures forall l, k :: l in s && k in s[l] && k in s[English] ==>
              l in Prune(s) && k in Prune(s)[l]
    ensures forall l :: l in Prune(s) ==> Prune(s)[l] != map[]
    ensures English in Prune(s) <==> s[English] != map[]
  {
    if s[English] != map[] {
      var k :| k in s[English];
      assert k in Restrict(s[English], s[English].Keys);
    }
    forall l, k | l in s && k in s[l] && k in s[English]
      ensures l in Prune(s) && k in Prune(s)[l]
    {
      assert k in Restrict(s[l], s[English].Keys);
    }
  }

  /** The pruning scenario: French key "c" is dropped because English lacks it. */
  lemma PruneExample()
    ensures Prune(map["en" := map["a" := "A", "b" := "B"], "fr" := map["a" := "FA", "c" := "FC"]])
         == map["en" := map["a" := "A", "b" := "B"], "fr" := map["a" := "FA"]]
  {
    var s := map["en" := map["a" := "A", "b" := "B"], "fr" := map["a" := "FA", "c" := "FC"]];
    var english := s[English].Keys;
    assert english == {"a", "b"};
    assert Restrict(s["en"], english) == map["a" := "A", "b" := "B"];
    assert Restrict(s["fr"], english) == map["a" := "FA"] by {
      assert "c" !in english;
    }
    assert "a" in Restrict(s["en"], english) && "a" in Restrict(s["fr"], english);
    assert Prune(s).Keys == {"en", "fr"};
  }

  /** Pruning again changes nothing. */
  lemma PruneIdempotent(s: Table)
    requires English in s && s[English] != map[]
    ensures English in Prune(s) && Prune(Prune(s)) == Prune(s)
  {
    PruneMeaning(s);
    var p := Prune(s);
    assert p[English] == s[English];
    forall l | l in p ensures Restrict(p[l], p[English].Keys) == p[l] {
    }
  }

  // ---------------------------------------------------------------------
  // Round trips

  /** Converting to key-major and back yields the pruned bundle: orphaned
      keys and empty locales disappear, everything else is reproduced. */
  lemma {:induction false} RoundTripLocaleMajor(s: Table)
    requires English in s
    ensures ByLocales(ByKeys(s)) == Prune(s)
  {
    var keyed := ByKeys(s);
    var back := ByLocales(keyed);
    var pruned := Prune(s);
    var english := s[English].Keys;
    forall l | l in back ensures l in pruned && back[l] == pruned[l] {
      var k :| k in keyed && l in keyed[k];
      assert Column(keyed, l) == Restrict(s[l], english);
      assert k in Restrict(s[l], english);
    }
    forall l | l in pruned ensures l in back {
      var k :| k in Restrict(s[l], english);
      assert k in keyed && l in keyed[k];
      assert l in LocalesOf(keyed);
    }
  }

  /** Converting a non-empty key-major table that keeps its invariant to
      locale-major and back reproduces it exactly. */
  lemma {:induction false} RoundTripKeyMajor(t: Table)
    requires EveryKeyHasEnglish(t) && t != map[]
    ensures English in ByLocales(t) && ByKeys(ByLocales(t)) == t
  {
    ByLocalesEnglish(t);
    var locales := ByLocales(t);
    EnglishColumnKeys(t);
    var back := ByKeys(locales);
    forall k | k in t ensures back[k] == t[k] {
      EntryOfByLocales(t, k);
    }
  }

  /** The English table of the locale-major view has every key of `t`. */
  lemma EnglishColumnKeys(t: Table)
    requires EveryKeyHasEnglish(t) && t != map[]
    ensures English in ByLocales(t) && ByLocales(t)[English].Keys == t.Keys
  {
    ByLocalesEnglish(t);
    assert Column(t, English).Keys == t.Keys;
  }

  /** Reading key `k` back out of the locale-major view gives its entry. */
  lemma EntryOfByLocales(t: Table, k: string)
    requires k in t
    ensures EntryFor(ByLocales(t), k) == t[k]
  {
    var locales := ByLocales(t);
    forall l | l in t[k] ensures l in locales && k in locales[l] && locales[l][k] == t[k][l] {
      assert l in LocalesOf(t);
    }
    forall l | l in locales && k in locales[l] ensures l in t[k] {
    }
  }

  /** Pruning a bundle whose English table is non-empty does not change its
      key-major view. */
  lemma {:induction false} ByKeysOfPrune(s: Table)
    requires English in s && s[English] != map[]
    ensures English in Prune(s) && ByKeys(Prune(s)) == ByKeys(s)
  {
    PruneMeaning(s);
    var p := Prune(s);
    assert p[English] == s[English];
    forall k | k in s[English] ensures EntryFor(p, k) == EntryFor(s, k) {
      forall l | l in s && k in s[l] ensures l in p && k in p[l] {
      }
    }
  }

  // ---------------------------------------------------------------------
  // Partial results of the conversion loops

  /** The entry of `key` once the locales in `done` have been visited. */
  function EntrySoFar(s: Table, key: string, done: set<string>): map<string, string>
    requires English in s && key in s[English]
  {
    map[English := s[English][key]] + map l | l in s && l in done && key in s[l] :: s[l][key]
  }

  lemma EntrySoFarStep(s: Table, key: string, done: set<string>, l: string)
    requires English in s && key in s[English] && l in s
    ensures EntrySoFar(s, key, done + {l}) ==
              if key in s[l] then EntrySoFar(s, key, done)[l := s[l][key]] else EntrySoFar(s, key, done)
  {
  }

  lemma EntrySoFarComplete(s: Table, key: string)
    requires English in s && key in s[English]
    ensures EntrySoFar(s, key, s.Keys) == EntryFor(s, key)
  {
  }

  /** The key-major view restricted to the English keys in `done`. */
  function ByKeysSoFar(s: Table, done: set<string>): Table
    requires English in s
  {
    map k | k in s[English] && k in done :: EntryFor(s, k)
  }

  lemma ByKeysSoFarStep(s: Table, done: set<string>, key: string)
    requires English in s && key in s[English]
    ensures ByKeysSoFar(s, done + {key}) == ByKeysSoFar(s, done)[key := EntryFor(s, key)]
  {
  }

  lemma ByKeysSoFarComplete(s: Table)
    requires English in s
    ensures ByKeysSoFar(s, s[English].Keys) == ByKeys(s)
  {
  }

  /** The keys of `t` that lie in `done`, with their entries. */
  function KeysSoFar(t: Table, done: set<string>): Table
  {
    map k | k in t && k in done :: t[k]
  }

  lemma KeysSoFarStep(t: Table, done: set<string>, key: string)
    requires key in t && key !in done
    ensures key !in KeysSoFar(t, done)
    ensures KeysSoFar(t, done + {key}) == KeysSoFar(t, done)[key := t[key]]
  {
  }

  lemma KeysSoFarComplete(t: Table)
    ensures KeysSoFar(t, t.Keys) == t
  {
  }

  /** Visiting locale `l` of entry `m` while converting key `key` adds the
      cell (l, key) to the locale-major view built so far. */
  lemma ByLocalesCellStep(p: Table, key: string, m: map<string, string>, done: set<string>, l: string)
    requires l in m
    ensures ByLocales(p[key := Restrict(m, done + {l})])
         == var r := ByLocales(p[key := Restrict(m, done)]); r[l := EntryOrEmpty(r, l)[key := m[l]]]
  {
    var partial := p[key := Restrict(m, done)];
    assert EntryOrEmpty(partial, key) == Restrict(m, done);
    assert Restrict(m, done)[l := m[l]] == Restrict(m, done + {l});
    assert partial[key := EntryOrEmpty(partial, key)[l := m[l]]] == p[key := Restrict(m, done + {l})];
    ByLocalesInsert(partial, key, l, m[l]);
  }

  lemma ByLocalesCellStart(p: Table, key: string, m: map<string, string>)
    requires key !in p
    ensures ByLocales(p[key := Restrict(m, {})]) == ByLocales(p)
  {
    assert Restrict(m, {}) == map[];
    ByLocalesEmptyEntry(p, key);
  }
}
