/**
 The change set the uploader computes between two key-major snapshots of a
 bundle (the three `filter` expressions of `UploaderApp.run`).
 */
module Uploader {
  import opened Tables

  datatype ChangeSet = ChangeSet(added: Table, removed: Table, changed: Table)

  /** Entries of `newTable` whose key `oldTable` lacks. */
  function Added(oldTable: Table, newTable: Table): (r: Table)
    ensures r.Keys == newTable.Keys - oldTable.Keys
    ensures forall k :: k in r ==> r[k] == newTable[k]
  {
    map k | k in newTable && k !in oldTable :: newTable[k]
  }

  /** Entries of `oldTable` whose key `newTable` lacks. */
  function Removed(oldTable: Table, newTable: Table): (r: Table)
    ensures r.Keys == oldTable.Keys - newTable.Keys
    ensures forall k :: k in r ==> r[k] == oldTable[k]
  {
    map k | k in oldTable && k !in newTable :: oldTable[k]
  }

  /** Entries of `newTable` whose key `oldTable` has with a different entry. */
  function Changed(oldTable: Table, newTable: Table): (r: Table)
    ensures r.Keys <= oldTable.Keys * newTable.Keys
    ensures forall k :: k in r ==> r[k] == newTable[k] && r[k] != oldTable[k]
    ensures forall k :: k in oldTable && k in newTable && oldTable[k] != newTable[k] ==> k in r
  {
    map k | k in newTable && k in oldTable && oldTable[k] != newTable[k] :: newTable[k]
  }

  /** The change set between two snapshots. Its three key sets are pairwise
      disjoint and lie within the keys of the two snapshots. */
  function Diff(oldTable: Table, newTable: Table): (d: ChangeSet)
    ensures d.added.Keys !! d.removed.Keys && d.added.Keys !! d.changed.Keys && d.removed.Keys !! d.changed.Keys
    ensures d.added.Keys + d.changed.Keys <= newTable.Keys && d.removed.Keys <= oldTable.Keys
  {
    ChangeSet(Added(oldTable, newTable), Removed(oldTable, newTable), Changed(oldTable, newTable))
  }

  /** Replays a change set on a snapshot: drop the removed keys, then write
      the added and changed entries. */
  function Apply(table: Table, changes: ChangeSet): Table
  {
    (table - changes.removed.Keys) + changes.added + changes.changed
  }

  /** Each set carries the entries the diff promises: added and changed hold
      the new entry, removed the old one. */
  lemma DiffMeaning(oldTable: Table, newTable: Table)
    ensures var d := Diff(oldTable, newTable);
      && (forall k :: k in d.added <==> k in newTable && k !in oldTable)
      && (forall k :: k in d.removed <==> k in oldTable && k !in newTable)
      && (forall k :: k in d.changed <==> k in newTable && k in oldTable && oldTable[k] != newTable[k])
      && (forall k :: k in d.added ==> d.added[k] == newTable[k])
      && (forall k :: k in d.removed ==> d.removed[k] == oldTable[k])
      && (forall k :: k in d.changed ==> d.changed[k] == newTable[k])
  {
  }

  /** The three key sets are pairwise disjoint, and every key of either
      snapshot is in exactly one of them or has the same entry in both. */
  lemma DiffPartition(oldTable: Table, newTable: Table)
    ensures var d := Diff(oldTable, newTable);
      && d.added.Keys !! d.removed.Keys
      && d.added.Keys !! d.changed.Keys
      && d.removed.Keys !! d.changed.Keys
      && d.added.Keys + d.removed.Keys + d.changed.Keys <= oldTable.Keys + newTable.Keys
      && forall k :: k in oldTable.Keys + newTable.Keys ==>
           (k in d.added || k in d.removed || k in d.changed <==>
            !(k in oldTable && k in newTable && oldTable[k] == newTable[k]))
  {
  }

  /** Replaying the diff of two snapshots on the old one yields the new one. */
  lemma {:induction false} ApplyDiff(oldTable: Table, newTable: Table)
    ensures Apply(oldTable, Diff(oldTable, newTable)) == newTable
  {
    var d := Diff(oldTable, newTable);
    var result := Apply(oldTable, d);
    forall k | k in newTable ensures k in result && result[k] == newTable[k] {
      if k !in oldTable {
        assert k in d.added;
      } else if oldTable[k] != newTable[k] {
        assert k in d.changed;
      } else {
        assert k !in d.removed;
      }
    }
    forall k | k in result ensures k in newTable {
      if k !in d.added && k !in d.changed {
        assert k in oldTable && k !in d.removed;
      }
    }
  }

  /** A snapshot diffed against itself gives three empty sets. */
  lemma DiffSelf(table: Table)
    ensures Diff(table, table) == ChangeSet(map[], map[], map[])
  {
    assert Added(table, table) == map[];
    assert Removed(table, table) == map[];
    assert Changed(table, table) == map[];
  }

  /** What the uploader pushes: the removal check passes exactly when no key
      of the old snapshot is missing from the new one, and the merged added and
      changed sets are the new entries of every key that is new or differs. */
  lemma DiffUpload(oldTable: Table, newTable: Table)
    ensures var d := Diff(oldTable, newTable);
      && (d.removed == map[] <==> oldTable.Keys <= newTable.Keys)
      && d.added + d.changed == map k | k in newTable && (k !in oldTable || oldTable[k] != newTable[k]) :: newTable[k]
  {
    var d := Diff(oldTable, newTable);
    if d.removed == map[] {
      forall k | k in oldTable ensures k in newTable {
        assert k !in d.removed;
      }
    } else {
      var k :| k in d.removed;
    }
  }

  /** The scenario with one key kept, one removed and one added. */
  lemma DiffExample()
    ensures Diff(map["k1" := map["en" := "v1"], "k2" := map["en" := "v2"]],
                 map["k1" := map["en" := "v1"], "k3" := map["en" := "v3"]])
         == ChangeSet(map["k3" := map["en" := "v3"]], map["k2" := map["en" := "v2"]], map[])
  {
    var o := map["k1" := map["en" := "v1"], "k2" := map["en" := "v2"]];
    var n := map["k1" := map["en" := "v1"], "k3" := map["en" := "v3"]];
    assert Added(o, n) == map["k3" := map["en" := "v3"]];
    assert Removed(o, n) == map["k2" := map["en" := "v2"]];
    assert Changed(o, n) == map[];
  }

  /** A change in a single locale marks the whole key as changed. */
  lemma ChangedExample()
    ensures Changed(map["k1" := map["en" := "v1", "fr" := "f1"]], map["k1" := map["en" := "v1", "fr" := "f2"]])
         == map["k1" := map["en" := "v1", "fr" := "f2"]]
  {
    var o := map["k1" := map["en" := "v1", "fr" := "f1"]];
    var n := map["k1" := map["en" := "v1", "fr" := "f2"]];
    assert o["k1"]["fr"] != n["k1"]["fr"];
  }
}
