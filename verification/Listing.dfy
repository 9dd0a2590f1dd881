/** Record lists, and the cache of records that they are read from. */
module Listings {
  import opened Optional
  import opened Replays
  import opened Duplicates
  import opened Repairs

  /** The records that can be had: from the cache, or else from the tables. */
  function Seen(cache: map<int, Record>, rows: seq<Row>, names: seq<ObjectName>): map<int, Record> {
    map id | id in cache.Keys + Known(rows, names) ::
      if id in cache then cache[id] else FindRecord(rows, names, id).value
  }

  /** The list holds exactly the records of a set, once each. */
  ghost predicate Lists(seen: map<int, Record>, list: seq<Record>, s: set<int>) {
    && (forall i :: 0 <= i < |list| ==> list[i].row.id in s)
    && (forall i :: 0 <= i < |list| ==> list[i].row.id in seen && seen[list[i].row.id] == list[i])
    && (forall i, j :: 0 <= i < j < |list| ==> list[i].row.id != list[j].row.id)
    && (forall id :: id in s ==> exists i :: 0 <= i < |list| && list[i].row.id == id)
  }

  function BaseIds(list: seq<Option<Record>>): set<int> {
    set r | r in list && r.Some? :: r.value.row.id
  }

  lemma NoBase()
    ensures BaseIds([]) == {}
  {
  }

  function RecordIds(list: seq<Record>): (ids: seq<int>)
    ensures |ids| == |list|
  {
    seq(|list|, i requires 0 <= i < |list| => list[i].row.id)
  }

  /** The records that alterations bring. */
  function NewRecords(alts: seq<Alteration>): (ids: seq<int>)
    ensures forall a :: a in alts && a.next.Some? ==> a.next.value in ids
  {
    if alts == [] then []
    else (if alts[0].next.Some? then [alts[0].next.value] else []) + NewRecords(alts[1..])
  }

  /** The references that a query for a snapshot gives. */
  function SnapshotRows(refs: map<int, seq<int>>, snapshot: int): seq<int> {
    if snapshot in refs then refs[snapshot] else []
  }

  /** Some alteration brings the record, or some snapshot lists it. */
  ghost predicate Mentioned(table: seq<Alteration>, refs: map<int, seq<int>>, id: int) {
    (exists a :: a in table && a.next == Some(id)) || (exists s :: s in refs && id in refs[s])
  }

  /** Cached records are what the tables hold. */
  ghost predicate InStep(cache: map<int, Record>, rows: seq<Row>, names: seq<ObjectName>) {
    forall id :: id in cache ==> FindRecord(rows, names, id) == Some(cache[id])
  }

  /** Cached records have the contents that the tables hold, or are no longer mentioned. */
  ghost predicate Serves(cache: map<int, Record>, rows: seq<Row>, names: seq<ObjectName>, table: seq<Alteration>,
                         refs: map<int, seq<int>>)
  {
    forall id :: id in cache ==>
      && cache[id].row.id == id
      && (FindRecord(rows, names, id).Some? ==> SameContents(cache[id], FindRecord(rows, names, id).value))
      && (FindRecord(rows, names, id).None? ==> !Mentioned(table, refs, id))
  }

  /** The same for those records of a set that are cached. */
  ghost predicate InStepOn(s: set<int>, cache: map<int, Record>, rows: seq<Row>, names: seq<ObjectName>) {
    forall id :: id in s && id in cache ==> FindRecord(rows, names, id) == Some(cache[id])
  }

  lemma InStepServes(cache: map<int, Record>, rows: seq<Row>, names: seq<ObjectName>, table: seq<Alteration>,
                     refs: map<int, seq<int>>)
    requires InStep(cache, rows, names)
    ensures Serves(cache, rows, names, table, refs)
  {
  }

  // ----- what can be had

  /** The cache keeps what it has, and gets no more than the tables hold. */
  ghost predicate Grew(was: map<int, Record>, cache: map<int, Record>, rows: seq<Row>, names: seq<ObjectName>) {
    && (forall id :: id in was ==> id in cache && cache[id] == was[id])
    && (forall id :: id in cache && id !in was ==> FindRecord(rows, names, id) == Some(cache[id]))
  }

  lemma GrewRefl(cache: map<int, Record>, rows: seq<Row>, names: seq<ObjectName>)
    ensures Grew(cache, cache, rows, names)
  {
  }

  lemma GrewTrans(a: map<int, Record>, b: map<int, Record>, c: map<int, Record>, rows: seq<Row>, names: seq<ObjectName>)
    requires Grew(a, b, rows, names) && Grew(b, c, rows, names)
    ensures Grew(a, c, rows, names)
  {
  }

  lemma GrewSeen(was: map<int, Record>, cache: map<int, Record>, rows: seq<Row>, names: seq<ObjectName>)
    requires Grew(was, cache, rows, names)
    ensures Seen(cache, rows, names) == Seen(was, rows, names)
  {
    var a, b := Seen(cache, rows, names), Seen(was, rows, names);
    forall id ensures id in a <==> id in b {
      if id in cache && id !in was { assert id in Known(rows, names); }
    }
    assert a.Keys == b.Keys;
    forall id | id in a ensures a[id] == b[id] {}
  }

  lemma GrewServes(was: map<int, Record>, cache: map<int, Record>, rows: seq<Row>, names: seq<ObjectName>,
                   table: seq<Alteration>, refs: map<int, seq<int>>)
    requires Grew(was, cache, rows, names) && Serves(was, rows, names, table, refs)
    ensures Serves(cache, rows, names, table, refs)
  {
  }

  lemma SeenCached(cache: map<int, Record>, rows: seq<Row>, names: seq<ObjectName>)
    ensures forall id :: id in cache ==> id in Seen(cache, rows, names) && Seen(cache, rows, names)[id] == cache[id]
  {
  }

  lemma Keyed(cache: map<int, Record>, rows: seq<Row>, names: seq<ObjectName>, table: seq<Alteration>,
              refs: map<int, seq<int>>)
    requires Serves(cache, rows, names, table, refs)
    ensures forall id :: id in cache ==> cache[id].row.id == id
    ensures forall id :: id in Seen(cache, rows, names) ==> Seen(cache, rows, names)[id].row.id == id
  {
  }

  /** Once these records have been asked for, the cache has all that can be had. */
  lemma AllCached(cache: map<int, Record>, rows: seq<Row>, names: seq<ObjectName>, ids: seq<int>)
    requires forall id :: id in ids && FindRecord(rows, names, id).Some? ==> id in cache
    ensures forall id :: id in ids ==> (id in cache <==> id in Seen(cache, rows, names))
  {
  }

  /** What looking ids up in the cache gives. */
  lemma LookedUp(cache: map<int, Record>, ids: seq<int>, list: seq<Option<Record>>)
    requires forall id :: id in cache ==> cache[id].row.id == id
    requires |list| == |ids|
    requires forall i :: 0 <= i < |ids| ==> list[i] == if ids[i] in cache then Some(cache[ids[i]]) else None
    ensures forall r :: r in list && r.Some? ==> r.value.row.id in cache && cache[r.value.row.id] == r.value
    ensures None !in list <==> forall id :: id in ids ==> id in cache
    ensures None !in list ==> BaseIds(list) == Ids(ids)
  {
    forall r | r in list && r.Some? ensures r.value.row.id in cache && cache[r.value.row.id] == r.value {
      var i :| 0 <= i < |list| && list[i] == r;
      assert list[i] == if ids[i] in cache then Some(cache[ids[i]]) else None;
      assert ids[i] in cache;
      assert r == Some(cache[ids[i]]);
      assert cache[ids[i]].row.id == ids[i];
    }
    if None !in list {
      forall i | 0 <= i < |ids| ensures list[i].Some? && list[i].value.row.id == ids[i] && ids[i] in cache {
        assert list[i] in list;
      }
      forall id | id in Ids(ids) ensures id in BaseIds(list) {
        var i :| 0 <= i < |ids| && ids[i] == id;
        assert list[i] in list;
      }
      assert BaseIds(list) == Ids(ids);
    } else {
      var i :| 0 <= i < |list| && list[i] == None;
      var id := ids[i];
      assert id in ids && id !in cache;
    }
  }

  /** A record that is mentioned can be had exactly if the tables hold it. */
  lemma MentionedKnown(cache: map<int, Record>, rows: seq<Row>, names: seq<ObjectName>, table: seq<Alteration>,
                       refs: map<int, seq<int>>, id: int)
    requires Serves(cache, rows, names, table, refs) && Mentioned(table, refs, id)
    ensures id in Seen(cache, rows, names) <==> id in Known(rows, names)
  {
  }

  lemma SnapshotKnown(cache: map<int, Record>, rows: seq<Row>, names: seq<ObjectName>, table: seq<Alteration>,
                      refs: map<int, seq<int>>, snapshot: int)
    requires Serves(cache, rows, names, table, refs)
    ensures Ids(SnapshotRows(refs, snapshot)) <= Seen(cache, rows, names).Keys
      <==> Ids(SnapshotRows(refs, snapshot)) <= Known(rows, names)
  {
    hide Seen, Known, Serves;
    forall id | id in Ids(SnapshotRows(refs, snapshot))
      ensures id in Seen(cache, rows, names) <==> id in Known(rows, names)
    {
      MentionedKnown(cache, rows, names, table, refs, id);
    }
  }

  /** So a replay of stored alterations gives the same from the cache as from the tables. */
  lemma ReplaySeen(cache: map<int, Record>, rows: seq<Row>, names: seq<ObjectName>, table: seq<Alteration>,
                   refs: map<int, seq<int>>, s: set<int>, alts: seq<Alteration>)
    requires Serves(cache, rows, names, table, refs) && forall a :: a in alts ==> a in table
    ensures Replay(Seen(cache, rows, names).Keys, s, alts) == Replay(Known(rows, names), s, alts)
  {
    hide Seen, Known, Serves, Replay;
    var seen, known := Seen(cache, rows, names).Keys, Known(rows, names);
    forall a | a in alts && a.next.Some? ensures a.next.value in seen <==> a.next.value in known {
      assert a in table && a.next == Some(a.next.value);
      MentionedKnown(cache, rows, names, table, refs, a.next.value);
    }
    ReplayKnown(seen, known, s, alts);
  }

  /** A new snapshot of records that the tables hold. */
  lemma SavedServes(cache: map<int, Record>, rows: seq<Row>, names: seq<ObjectName>, table: seq<Alteration>,
                    refs: map<int, seq<int>>, snapshot: int, ids: seq<int>)
    requires Serves(cache, rows, names, table, refs) && Ids(ids) <= Known(rows, names)
    ensures Serves(cache, rows, names, table, refs[snapshot := ids])
  {
    forall id | id in cache && FindRecord(rows, names, id).None? ensures !Mentioned(table, refs[snapshot := ids], id) {
      if id in ids { assert id in Ids(ids); }
      assert !Mentioned(table, refs, id);
    }
  }

  // ----- lists

  lemma BringsNoMoreServes(cache: map<int, Record>, rows: seq<Row>, names: seq<ObjectName>, table: seq<Alteration>,
                           after: seq<Alteration>, refs: map<int, seq<int>>)
    requires Serves(cache, rows, names, table, refs) && BringsNoMore(table, after)
    ensures Serves(cache, rows, names, after, refs)
  {
    hide FindRecord, SameContents;
    forall id ensures !Mentioned(table, refs, id) ==> !Mentioned(after, refs, id) {}
  }

  lemma ListedIds(seen: map<int, Record>, list: seq<Record>, s: set<int>)
    requires Lists(seen, list, s)
    ensures Ids(RecordIds(list)) == s
  {
    forall id | id in s ensures id in RecordIds(list) {
      var i :| 0 <= i < |list| && list[i].row.id == id;
      assert RecordIds(list)[i] == id;
    }
  }

  lemma NothingListed(seen: map<int, Record>)
    ensures Lists(seen, [], {})
  {
  }

  lemma ListedOneMore(seen: map<int, Record>, list: seq<Record>, s: set<int>, record: Record)
    requires Lists(seen, list, s) && record.row.id !in s
    requires record.row.id in seen && seen[record.row.id] == record
    ensures Lists(seen, list + [record], s + {record.row.id})
  {
    var more, id := list + [record], record.row.id;
    assert more[|list|].row.id == id;
    forall x | x in s + {id} ensures exists i :: 0 <= i < |more| && more[i].row.id == x {
      if x != id {
        var i :| 0 <= i < |list| && list[i].row.id == x;
        assert more[i].row.id == x;
      }
    }
  }

  lemma ListedRecord(seen: map<int, Record>, list: seq<Record>, s: set<int>, id: int)
    requires Lists(seen, list, s) && id in s
    ensures id in seen && seen[id] in list
  {
    var i :| 0 <= i < |list| && list[i].row.id == id;
  }

  /** Every listed record has the contents that the tables hold; the rows themselves agree exactly if
      the cache had no other row for a listed record. */
  ghost predicate Current(list: seq<Record>, s: set<int>, cache: map<int, Record>, rows: seq<Row>,
                          names: seq<ObjectName>)
  {
    && (forall r :: r in list ==> var now := FindRecord(rows, names, r.row.id); now.Some? && SameContents(r, now.value))
    && ((forall r :: r in list ==> FindRecord(rows, names, r.row.id) == Some(r)) <==> InStepOn(s, cache, rows, names))
  }

  lemma ListedContents(cache: map<int, Record>, rows: seq<Row>, names: seq<ObjectName>, table: seq<Alteration>,
                       refs: map<int, seq<int>>, list: seq<Record>, s: set<int>)
    requires Serves(cache, rows, names, table, refs) && s <= Known(rows, names)
    requires Lists(Seen(cache, rows, names), list, s)
    ensures Current(list, s, cache, rows, names)
  {
    hide FindRecord;
    var seen := Seen(cache, rows, names);
    forall r | r in list
      ensures r.row.id in s && seen[r.row.id] == r && FindRecord(rows, names, r.row.id).Some?
      ensures SameContents(r, FindRecord(rows, names, r.row.id).value)
    {
      var i :| 0 <= i < |list| && list[i] == r;
      assert list[i].row.id in Known(rows, names);
    }
    forall id | id in s && id in cache ensures cache[id] in list && cache[id].row.id == id {
      ListedRecord(seen, list, s, id);
    }
  }

  // ----- the cache after a repair

  /** The rows have been renamed, and every one of them has a name. */
  ghost predicate AllRenamed(rows: seq<Row>, names: seq<ObjectName>, renamed: seq<Row>, names': seq<ObjectName>) {
    && |renamed| == |rows|
    && (forall i :: 0 <= i < |rows| ==> Renamed(rows[i], names, renamed[i], names'))
    && (forall row :: row in renamed ==> FindName(names', row.nameId).Some?)
  }

  lemma AllNamed(rows: seq<Row>, names: seq<ObjectName>, renamed: seq<Row>, names': seq<ObjectName>)
    requires |renamed| == |rows| && forall i :: 0 <= i < |rows| ==> Renamed(rows[i], names, renamed[i], names')
    requires forall i :: 0 <= i < |rows| ==> FindName(names, rows[i].nameId).Some?
    ensures AllRenamed(rows, names, renamed, names')
  {
    hide FindName;
    forall row | row in renamed ensures FindName(names', row.nameId).Some? {
      var i :| 0 <= i < |renamed| && renamed[i] == row;
      assert Renamed(rows[i], names, renamed[i], names');
    }
  }

  /** A record that was found is found again, or one with the same contents in its place. */
  ghost predicate Kept(rows: seq<Row>, names: seq<ObjectName>, rows': seq<Row>, names': seq<ObjectName>,
                       m: map<int, int>, id: int)
  {
    var was, now := FindRecord(rows, names, id), FindRecord(rows', names', Mapped(m, id));
    was.Some? ==> now.Some? && SameContents(was.value, now.value)
  }

  lemma KeptAll(rows: seq<Row>, names: seq<ObjectName>, renamed: seq<Row>, names': seq<ObjectName>)
    requires UniqueIds(renamed) && AllRenamed(rows, names, renamed, names')
    ensures forall id :: Kept(rows, names, Merged(renamed), names', MergeMap(renamed), id)
    ensures Known(renamed, names') == Known(rows, names)
  {
    hide FindRecord, MergeMap, Merged, Mapped, UniqueIds;
    forall id
      ensures Kept(rows, names, Merged(renamed), names', MergeMap(renamed), id)
      ensures id in Known(renamed, names') <==> id in Known(rows, names)
    {
      RenamedRecord(rows, names, renamed, names', id);
      if FindRecord(renamed, names', id).Some? { MergedRecord(renamed, names', id); }
    }
  }

  /** What became of a record: it has been merged, or it has kept its contents. */
  lemma CleanedRecord(rows: seq<Row>, names: seq<ObjectName>, renamed: seq<Row>, names': seq<ObjectName>, id: int)
    requires UniqueIds(renamed) && AllRenamed(rows, names, renamed, names')
    ensures var was, now := FindRecord(rows, names, id), FindRecord(Merged(renamed), names', id);
      && (id in MergeMap(renamed) ==> now.None?)
      && (id !in MergeMap(renamed) ==> was.Some? == now.Some?)
      && (now.Some? ==> SameContents(was.value, now.value) && FindRow(renamed, id) == Some(now.value.row))
  {
    hide MergeMap, Merged, FindRow, FindName;
    MergedFind(renamed, id);
    RenamedRecord(rows, names, renamed, names', id);
  }

  /** A record that is not found after the repair is mentioned by no alteration, if it was not found
      and not mentioned before or has been merged. */
  lemma CleanedMention(rows: seq<Row>, names: seq<ObjectName>, renamed: seq<Row>, names': seq<ObjectName>,
                       table: seq<Alteration>, refs: map<int, seq<int>>, id: int)
    requires UniqueIds(renamed) && AllRenamed(rows, names, renamed, names')
    requires FindRecord(rows, names, id).None? ==> !Mentioned(table, refs, id)
    requires FindRecord(Merged(renamed), names', id).None?
    ensures !Mentioned(Relinked(MergeMap(renamed), table), map[], id)
  {
    var m := MergeMap(renamed);
    CleanedRecord(rows, names, renamed, names', id);
    RenamedRecord(rows, names, renamed, names', id);
    forall a | a in Relinked(m, table) ensures a.next != Some(id) {
      var i :| 0 <= i < |table| && a == Relink(m, table[i]);
      var next := table[i].next;
      if next.Some? {
        if id in m {
          MergedGone(renamed, id, next.value);
        } else {
          assert FindRecord(rows, names, id).None? && table[i] in table;
          assert next != Some(id);
          if next.value in m { StandsIn(renamed, names', next.value); }
        }
      }
    }
  }

  /** A record that stands in for another is found. */
  lemma StandsIn(rows: seq<Row>, names: seq<ObjectName>, x: int)
    requires UniqueIds(rows) && (forall row :: row in rows ==> FindName(names, row.nameId).Some?) && x in MergeMap(rows)
    ensures FindRecord(rows, names, MergeMap(rows)[x]).Some?
  {
    MergeMapValues(rows);
    var row :| row in rows && row.id == MergeMap(rows)[x];
    FindRowUnique(rows, row);
  }

  /** So the cache, though it is not emptied, still serves; ... */
  lemma CleanedServes(cache: map<int, Record>, rows: seq<Row>, names: seq<ObjectName>, renamed: seq<Row>,
                      names': seq<ObjectName>, table: seq<Alteration>, refs: map<int, seq<int>>)
    requires UniqueIds(renamed) && AllRenamed(rows, names, renamed, names')
    requires Serves(cache, rows, names, table, refs)
    ensures Serves(cache, Merged(renamed), names', Relinked(MergeMap(renamed), table), map[])
  {
    hide FindRecord, MergeMap, Merged, AllRenamed, UniqueIds, Mentioned, Relinked;
    forall id | id in cache
      ensures var now := FindRecord(Merged(renamed), names', id);
        && (now.Some? ==> SameContents(cache[id], now.value))
        && (now.None? ==> !Mentioned(Relinked(MergeMap(renamed), table), map[], id))
    {
      CleanedRecord(rows, names, renamed, names', id);
      if FindRecord(Merged(renamed), names', id).None? {
        CleanedMention(rows, names, renamed, names', table, refs, id);
      }
    }
  }

  /** ... but it is in step with the tables exactly if it holds no record that was merged or got another
      name id. */
  lemma CleanedInStep(cache: map<int, Record>, rows: seq<Row>, names: seq<ObjectName>, renamed: seq<Row>,
                      names': seq<ObjectName>)
    requires UniqueIds(renamed) && AllRenamed(rows, names, renamed, names')
    requires InStep(cache, rows, names)
    ensures InStep(cache, Merged(renamed), names')
      <==> (forall id :: id in cache ==> id !in MergeMap(renamed) && FindRow(renamed, id) == Some(cache[id].row))
  {
    hide FindRecord, FindRow, MergeMap, Merged, AllRenamed, UniqueIds;
    forall id | id in cache
      ensures FindRecord(Merged(renamed), names', id) == Some(cache[id])
        <==> id !in MergeMap(renamed) && FindRow(renamed, id) == Some(cache[id].row)
    {
      CleanedRecord(rows, names, renamed, names', id);
    }
  }

  /** The input of StaleCache, ... */
  lemma StaleBefore(cache: map<int, Record>, rows: seq<Row>, names: seq<ObjectName>, table: seq<Alteration>,
                    refs: map<int, seq<int>>)
    requires names == [ObjectName(1, "f"), ObjectName(2, "f")] && rows == [Row(1, "x", 2, 0)]
    requires cache == map[1 := Record(rows[0], "f")]
    ensures FindName(names, rows[0].nameId).Some? && UniqueIds(rows)
    ensures InStep(cache, rows, names) && Serves(cache, rows, names, table, refs)
  {
    InStepServes(cache, rows, names, table, refs);
  }

  /** ... and what becomes of its row. */
  lemma StaleAfter(names: seq<ObjectName>, row: Row, renamed: seq<Row>)
    requires names == [ObjectName(1, "f"), ObjectName(2, "f")] && row == Row(1, "x", 2, 0)
    requires AllRenamed([row], names, renamed, Canonical(names))
    ensures FindRow(renamed, 1) != Some(row)
  {
    var first := names[..|names| - 1];
    CanonicalNew([], names[0], [], map[]);
    assert first == [] + [names[0]];
    var r := Canonical(first);
    assert r == [ObjectName(1, "f")];
    assert r[0].name == names[1].name;
    assert Canonical(names) == [ObjectName(1, "f")];
    assert renamed[0] in renamed && Renamed([row][0], names, renamed[0], Canonical(names));
  }

  // ----- the walk

  /** The walk reads the row of its first version from the caller's copy, which may name another snapshot. */
  lemma WalkedChain(versions: map<int, Version>, row: Version, table: seq<Alteration>, chain: seq<int>, n: nat)
    requires n <= |chain| && IsChain(versions, chain)
    requires row == versions[chain[0]].(snapshot := row.snapshot)
    ensures ChainAlterations(versions[chain[0] := row], table, chain[..n])
      == ChainAlterations(versions, table, chain[..n])
  {
    SnapshotsDoNotMatter(versions, versions[chain[0] := row], table, chain[..n]);
  }

  lemma {:induction false} PrefixMember(versions: map<int, Version>, table: seq<Alteration>, chain: seq<int>, n: nat)
    requires n <= |chain| && forall i :: 0 <= i < |chain| ==> chain[i] in versions
    ensures forall a :: a in ChainAlterations(versions, table, chain[..n]) ==> a in table
  {
    forall a | a in ChainAlterations(versions, table, chain[..n]) ensures a in table {
      ChainMember(versions, table, chain[..n], a);
    }
  }
}
