/** The version database: record sets by replay from the nearest snapshot, and the passes that repair
    the tables. */
module WorkspaceDBs {
  import opened Optional
  import opened Replays
  import opened Repairs
  import opened Duplicates
  import opened Listings

  const BATCH: nat := 256

  /** The caller's copy of a version's row. */
  class VersionObject {
    const id: int
    var row: Version

    constructor (id_: int, row_: Version)
      ensures id == id_ && row == row_
    {
      id, row := id_, row_;
    }
  }

  /** Where storing a snapshot fails, if it does. */
  datatype Fault = NoFault | BeforeUpdate | AfterUpdate

  class WorkspaceDB {
    var versions: map<int, Version>
    var alterations: seq<Alteration>
    var rows: seq<Row>
    var names: seq<ObjectName>
    /** RecordRef rows, by snapshot. */
    var refs: map<int, seq<int>>
    var nextSnapshot: int
    var nextAlteration: int
    var cachedRecords: map<int, Record>

    ghost function View(): map<int, Record>
      reads `cachedRecords, `rows, `names
    {
      Seen(cachedRecords, rows, names)
    }

    /** Cached records are what the tables hold. */
    ghost predicate Coherent()
      reads `cachedRecords, `rows, `names
    {
      InStep(cachedRecords, rows, names)
    }

    /** Cached records have the contents that the tables hold, or are no longer mentioned. */
    ghost predicate Usable()
      reads `cachedRecords, `rows, `names, `alterations, `refs
    {
      Serves(cachedRecords, rows, names, alterations, refs)
    }

    /** Every snapshot lists the record set of its version, and new snapshots get new numbers. */
    ghost predicate Correct()
      reads `versions, `alterations, `rows, `names, `refs, `nextSnapshot
    {
      SnapshotsCorrect(versions, alterations, Known(rows, names), refs) && Numbered()
    }

    ghost predicate Numbered()
      reads `refs, `nextSnapshot
    {
      forall s :: s in refs ==> s < nextSnapshot
    }

    method GetCachedRecord(index: int) returns (r: Option<Record>)
      ensures r == if index in cachedRecords then Some(cachedRecords[index]) else None
    {
      r := if index in cachedRecords then Some(cachedRecords[index]) else None;
    }

    /** One query: the records among the ids that can be found. */
    method LoadRecords(ids: seq<int>)
      requires forall id :: id in ids ==> id !in cachedRecords
      modifies `cachedRecords
      ensures Grew(old(cachedRecords), cachedRecords, rows, names)
      ensures forall id ::
        id in cachedRecords <==> id in old(cachedRecords) || (id in ids && FindRecord(rows, names, id).Some?)
    {
      var found := map id | id in ids && FindRecord(rows, names, id).Some? :: FindRecord(rows, names, id).value;
      cachedRecords := cachedRecords + found;
    }

    /** Brings records into the cache, 256 to a query. */
    method CacheRecords(records: seq<int>)
      modifies `cachedRecords
      ensures Grew(old(cachedRecords), cachedRecords, rows, names)
      ensures forall id :: id in cachedRecords <==>
        id in old(cachedRecords) || (id in records && FindRecord(rows, names, id).Some?)
    {
      var tempList := [];
      var i := 0;
      while i < |records|
        invariant i <= |records| && |tempList| < BATCH
        invariant Grew(old(cachedRecords), cachedRecords, rows, names)
        invariant forall id :: id in tempList ==> id in records && id !in cachedRecords
        invariant forall id :: id in cachedRecords ==>
          id in old(cachedRecords) || (id in records && FindRecord(rows, names, id).Some?)
        invariant forall j :: 0 <= j < i ==>
          records[j] in tempList || records[j] in cachedRecords || FindRecord(rows, names, records[j]).None?
      {
        var r := GetCachedRecord(records[i]);
        if r.None? {
          tempList := tempList + [records[i]];
          if |tempList| == BATCH {
            LoadRecords(tempList);
            tempList := [];
          }
        }
        i := i + 1;
      }
      if |tempList| != 0 {
        LoadRecords(tempList);
      }
    }

    /** Applies alterations to a base list. A missing record or a prior record that is not there makes
        it throw. */
    method Consolidate(baseList: seq<Option<Record>>, alts: seq<Alteration>) returns (result: Option<seq<Record>>)
      requires Usable()
      requires forall r :: r in baseList && r.Some? ==> r.value.row.id in View() && View()[r.value.row.id] == r.value
      modifies `cachedRecords
      ensures Grew(old(cachedRecords), cachedRecords, rows, names) && View() == old(View()) && Usable()
      ensures None in baseList ==> result == None
      ensures (None !in baseList ==>
        match Replay(View().Keys, BaseIds(baseList), alts)
        case None => result == None
        case Some(s) => result.Some? && Lists(View(), result.value, s))
    {
      hide Seen, Lists, Serves, Grew;
      ghost var view, cache := View(), cachedRecords;
      Keyed(cachedRecords, rows, names, alterations, refs);
      var records := CollectBase(baseList);
      GrewRefl(cache, rows, names);
      if records.None? { return None; }
      ghost var base := records.value.Keys;
      CacheRecords(NewRecords(alts));
      GrewSeen(cache, cachedRecords, rows, names);
      GrewServes(cache, cachedRecords, rows, names, alterations, refs);
      SeenCached(cachedRecords, rows, names);
      AllCached(cachedRecords, rows, names, NewRecords(alts));
      ghost var held := cachedRecords;
      assert forall id :: id in NewRecords(alts) ==> (id in held <==> id in view);
      var n := |alts|;
      assert alts[n..] == [];
      while 0 < n
        invariant n <= |alts| && records.Some? && cachedRecords == held
        invariant forall id :: id in records.value ==> id in view && view[id] == records.value[id]
        invariant Replay(view.Keys, base, alts[n..]) == Some(records.value.Keys)
      {
        n := n - 1;
        assert alts[n..][1..] == alts[n + 1..] && alts[n..][0] == alts[n];
        if alts[n].next.Some? {
          ghost var id := alts[n].next.value;
          assert alts[n] in alts && id in NewRecords(alts);
        }
        var next := ApplyTo(records.value, alts[n]);
        if next.None? {
          ReplayFails(view.Keys, base, alts, n);
          return None;
        }
        records := next;
      }
      assert alts[0..] == alts;
      var list := Values(records.value);
      result := Some(list);
    }

    /** The dictionary of the base list. */
    method CollectBase(baseList: seq<Option<Record>>) returns (result: Option<map<int, Record>>)
      requires forall r :: r in baseList && r.Some? ==> r.value.row.id in View() && View()[r.value.row.id] == r.value
      ensures None in baseList ==> result == None
      ensures None !in baseList ==> result.Some? && result.value.Keys == BaseIds(baseList)
      ensures result.Some? ==> forall id :: id in result.value ==> id in View() && View()[id] == result.value[id]
    {
      hide Seen;
      var records: map<int, Record> := map[];
      var i := 0;
      while i < |baseList|
        invariant i <= |baseList| && None !in baseList[..i] && records.Keys == BaseIds(baseList[..i])
        invariant forall id :: id in records ==> id in View() && View()[id] == records[id]
      {
        assert baseList[..i + 1] == baseList[..i] + [baseList[i]];
        assert baseList[i] in baseList;
        if baseList[i].None? { return None; }
        records := records[baseList[i].value.row.id := baseList[i].value];
        i := i + 1;
      }
      assert baseList[..|baseList|] == baseList;
      result := Some(records);
    }

    /** One turn of the loop. */
    method ApplyTo(records0: map<int, Record>, x: Alteration) returns (result: Option<map<int, Record>>)
      requires x.next.Some? ==> (x.next.value in cachedRecords <==> x.next.value in View())
      requires forall id :: id in View() ==> View()[id].row.id == id
      requires forall id :: id in cachedRecords ==> id in View() && View()[id] == cachedRecords[id]
      requires forall id :: id in records0 ==> id in View() && View()[id] == records0[id]
      ensures match Apply(View().Keys, records0.Keys, x)
        case None => result == None
        case Some(s) => result.Some? && result.value.Keys == s
      ensures result.Some? ==> forall id :: id in result.value ==> id in View() && View()[id] == result.value[id]
    {
      hide Seen;
      var records := records0;
      match x.kind
      case Add | Copy =>
        if x.next.None? { return None; }
        var record := GetCachedRecord(x.next.value);
        if record.None? { return None; }
        records := records[record.value.row.id := record.value];
        return Some(records);
      case Move | Update =>
        if x.next.None? { return None; }
        var record := GetCachedRecord(x.next.value);
        if x.prior.None? || x.prior.value !in records { return None; }
        records := records - {x.prior.value};
        if record.None? { return None; }
        records := records[record.value.row.id := record.value];
        return Some(records);
      case Discard =>
        return Some(records);
      case Delete =>
        if x.prior.None? || x.prior.value !in records { return None; }
        return Some(records - {x.prior.value});
    }

    /** The values of a dictionary, in an order it does not promise. */
    method Values(records: map<int, Record>) returns (list: seq<Record>)
      requires forall id :: id in records ==> id in View() && View()[id] == records[id] && records[id].row.id == id
      ensures Lists(View(), list, records.Keys)
    {
      hide Seen, Lists;
      ghost var view := View();
      list := [];
      var rest := records.Keys;
      NothingListed(view);
      assert records.Keys - rest == {};
      while rest != {}
        invariant rest <= records.Keys && Lists(view, list, records.Keys - rest)
        decreases |rest|
      {
        Inhabited(rest);
        var id :| id in rest;
        ListedOneMore(view, list, records.Keys - rest, records[id]);
        assert records.Keys - rest + {id} == records.Keys - (rest - {id});
        list := list + [records[id]];
        rest := rest - {id};
      }
      assert records.Keys - rest == records.Keys;
    }

    /** What the walk reads as the versions table: the row of the version it starts from is the caller's. */
    ghost function Walked(version: VersionObject): map<int, Version>
      reads `versions, version
    {
      versions[version.id := version.row]
    }

    /** The caller's copy may differ from the table in its snapshot only. */
    ghost predicate Matches(version: VersionObject)
      reads `versions, version
    {
      version.id in versions && version.row == versions[version.id].(snapshot := version.row.snapshot)
    }

    /** Where the walk ends: at the first version with a snapshot, or past the last version. */
    ghost predicate EndsAt(version: VersionObject, chain: seq<int>, parents: seq<Version>, snapshotID: Option<int>,
                           n: nat)
      requires forall i :: 0 <= i < |chain| ==> chain[i] in versions
      reads `versions, version
    {
      && n <= |parents| <= |chain| && |parents| <= n + 1
      && (forall i :: 0 <= i < |parents| ==> parents[i] == Walked(version)[chain[i]])
      && (forall i :: 0 <= i < n ==> parents[i].snapshot.None?)
      && (n < |parents| ==> snapshotID == parents[n].snapshot && snapshotID.Some?)
      && (n == |parents| ==> n == |chain| && snapshotID.None?)
    }

    /** The place in the chain of the first version from i on that has a snapshot, or the chain's end. */
    ghost function Nearest(version: VersionObject, chain: seq<int>, i: nat): (n: nat)
      requires i <= |chain| && forall k :: 0 <= k < |chain| ==> chain[k] in versions
      reads `versions, version
      ensures i <= n <= |chain| && forall k :: i <= k < n ==> Walked(version)[chain[k]].snapshot.None?
      ensures n < |chain| ==> Walked(version)[chain[n]].snapshot.Some?
      decreases |chain| - i
    {
      if i == |chain| || Walked(version)[chain[i]].snapshot.Some? then i else Nearest(version, chain, i + 1)
    }

    /** A new snapshot is worth while: the nearest one has fewer records than there are alterations since, or
        there are many of these, in many versions. */
    ghost predicate Worth(version: VersionObject, chain: seq<int>)
      requires forall k :: 0 <= k < |chain| ==> chain[k] in versions
      reads `versions, `alterations, `refs, version
    {
      var n := Nearest(version, chain, 0);
      var base := if n < |chain| then |SnapshotRows(refs, Walked(version)[chain[n]].snapshot.value)| else 0;
      var count := |ChainAlterations(versions, alterations, chain[..n])|;
      base < count || (count > 4096 && (if n < |chain| then n + 1 else n) > 128)
    }

    /** What the walk found tells whether it is. */
    lemma WorthSeen(version: VersionObject, chain: seq<int>, parents: seq<Version>, snapshotID: Option<int>, n: nat)
      requires Matches(version) && IsChain(versions, chain) && chain[0] == version.id
      requires EndsAt(version, chain, parents, snapshotID, n)
      ensures var base := if snapshotID.Some? then |SnapshotRows(refs, snapshotID.value)| else 0;
        var count := |AlterationsSince(alterations, parents)|;
        Worth(version, chain) <==> base < count || (count > 4096 && |parents| > 128)
    {
      hide ChainAlterations, AlterationsSince, IsChain;
      InChain(versions, chain);
      SinceSnapshot(Walked(version), alterations, chain, parents, n);
      WalkedChain(versions, version.row, alterations, chain, n);
      var m := Nearest(version, chain, 0);
      assert n < |parents| ==> parents[n] == Walked(version)[chain[n]];
      assert m < |parents| ==> parents[m] == Walked(version)[chain[m]];
      assert m == n;
    }

    /** The walk to the nearest snapshot. */
    method CollectParents(version: VersionObject, ghost chain: seq<int>)
      returns (parents: seq<Version>, snapshotID: Option<int>, ghost n: nat)
      requires Matches(version) && IsChain(versions, chain) && chain[0] == version.id
      ensures EndsAt(version, chain, parents, snapshotID, n)
    {
      parents := [];
      snapshotID := None;
      n := |chain|;
      var snapshotVersion := version.row;
      while snapshotID.None?
        invariant |parents| <= |chain|
        invariant forall i :: 0 <= i < |parents| ==> parents[i] == Walked(version)[chain[i]]
        invariant snapshotID.None? ==> n == |chain|
        invariant snapshotID.None? ==> |parents| < |chain| && snapshotVersion == Walked(version)[chain[|parents|]]
        invariant snapshotID.None? ==> forall i :: 0 <= i < |parents| ==> parents[i].snapshot.None?
        invariant snapshotID.Some? ==> |parents| == n + 1 && snapshotID == parents[n].snapshot
        invariant snapshotID.Some? ==> forall i :: 0 <= i < n ==> parents[i].snapshot.None?
        decreases if snapshotID.None? then 1 else 0, |chain| - |parents|
      {
        ChainParent(versions, chain, |parents|);
        parents := parents + [snapshotVersion];
        if snapshotVersion.snapshot.Some? {
          snapshotID := snapshotVersion.snapshot;
          n := |parents| - 1;
        } else {
          if snapshotVersion.parent.None? { return; }
          ChainLeaves(versions, chain, |parents|);
          snapshotVersion := versions[snapshotVersion.parent.value];
        }
      }
    }

    /** Stores a snapshot of a version, unless that fails; a failure rolls the tables back, but not the
        caller's copy of the version. */
    method SaveSnapshot(version: VersionObject, list: seq<Record>, fault: Fault)
      requires Numbered() && Matches(version)
      modifies `versions, `refs, `nextSnapshot, version
      ensures var s := old(nextSnapshot);
        fault.NoFault? ==>
          && versions == old(versions)[version.id := old(versions[version.id]).(snapshot := Some(s))]
          && refs == old(refs)[s := RecordIds(list)] && nextSnapshot == s + 1
      ensures !fault.NoFault? ==> versions == old(versions) && refs == old(refs) && nextSnapshot == old(nextSnapshot)
      ensures version.row.snapshot == if fault.BeforeUpdate? then old(version.row.snapshot) else Some(old(nextSnapshot))
      ensures Matches(version)
    {
      var priorRefs, priorSnapshot := refs, nextSnapshot;
      var snapshot := nextSnapshot;
      nextSnapshot := nextSnapshot + 1;
      refs := refs[snapshot := []];
      var i := 0;
      while i < |list|
        invariant i <= |list| && refs == old(refs)[snapshot := RecordIds(list[..i])]
        invariant versions == old(versions) && nextSnapshot == snapshot + 1 && version.row == old(version.row)
      {
        assert RecordIds(list[..i + 1]) == RecordIds(list[..i]) + [list[i].row.id];
        refs := refs[snapshot := refs[snapshot] + [list[i].row.id]];
        i := i + 1;
      }
      assert list[..|list|] == list;
      if fault.BeforeUpdate? {
        refs, nextSnapshot := priorRefs, priorSnapshot;
        return;
      }
      version.row := version.row.(snapshot := Some(snapshot));
      if fault.AfterUpdate? {
        refs, nextSnapshot := priorRefs, priorSnapshot;
        return;
      }
      versions := versions[version.id := version.row];
    }

    /** What GetRecords makes of a version: the references of the snapshot that the caller's copy names, or
        else the full replay. */
    ghost function Answer(version: VersionObject, chain: seq<int>): (r: Option<set<int>>)
      requires forall i :: 0 <= i < |chain| ==> chain[i] in versions
      reads `versions, `alterations, `rows, `names, `refs, version
      ensures r.Some? ==> r.value <= Known(rows, names)
    {
      if version.row.snapshot.None? then FullReplay(versions, alterations, Known(rows, names), chain)
      else
        var ids := Ids(SnapshotRows(refs, version.row.snapshot.value));
        if ids <= Known(rows, names) then Some(ids) else None
    }

    /** That is the record set exactly if the copy names no snapshot or one that lists it; and it is if the
        copy is the table's row. */
    lemma AnswerRight(version: VersionObject, chain: seq<int>)
      requires Correct() && Matches(version) && IsChain(versions, chain) && chain[0] == version.id
      ensures var all := FullReplay(versions, alterations, Known(rows, names), chain);
        all.Some? ==> (Answer(version, chain) == all
          <==> version.row.snapshot.None? || Ids(SnapshotRows(refs, version.row.snapshot.value)) == all.value)
      ensures version.row == versions[version.id] ==>
        Answer(version, chain) == FullReplay(versions, alterations, Known(rows, names), chain)
    {
    }

    /** After a failed save the copy may name a snapshot that has no rows: the next answer is empty. */
    lemma AnswerStale(version: VersionObject, chain: seq<int>)
      requires IsChain(versions, chain) && version.row.snapshot.Some? && version.row.snapshot.value !in refs
      ensures Answer(version, chain) == Some({})
    {
      assert Ids([]) == {};
    }

    /** The records of a snapshot, None for each that cannot be had. */
    method LoadBase(snapshot: int) returns (baseList: seq<Option<Record>>)
      requires Usable()
      modifies `cachedRecords
      ensures Grew(old(cachedRecords), cachedRecords, rows, names) && View() == old(View()) && Usable()
      ensures forall r :: r in baseList && r.Some? ==> r.value.row.id in View() && View()[r.value.row.id] == r.value
      ensures None !in baseList <==> Ids(SnapshotRows(refs, snapshot)) <= View().Keys
      ensures None !in baseList ==> BaseIds(baseList) == Ids(SnapshotRows(refs, snapshot))
      ensures |baseList| == |SnapshotRows(refs, snapshot)|
    {
      hide Seen, Serves, Grew;
      ghost var cache := cachedRecords;
      var sslist := SnapshotRows(refs, snapshot);
      CacheRecords(sslist);
      GrewSeen(cache, cachedRecords, rows, names);
      GrewServes(cache, cachedRecords, rows, names, alterations, refs);
      Keyed(cachedRecords, rows, names, alterations, refs);
      SeenCached(cachedRecords, rows, names);
      AllCached(cachedRecords, rows, names, sslist);
      baseList := CachedList(sslist);
      LookedUp(cachedRecords, sslist, baseList);
    }

    /** Looks records up in the cache. */
    method CachedList(ids: seq<int>) returns (list: seq<Option<Record>>)
      ensures |list| == |ids|
      ensures forall i ::
        0 <= i < |ids| ==> list[i] == if ids[i] in cachedRecords then Some(cachedRecords[ids[i]]) else None
    {
      list := [];
      var i := 0;
      while i < |ids|
        invariant i <= |ids| && |list| == i
        invariant forall j ::
          0 <= j < i ==> list[j] == if ids[j] in cachedRecords then Some(cachedRecords[ids[j]]) else None
      {
        var r := GetCachedRecord(ids[i]);
        list := list + [r];
        i := i + 1;
      }
    }

    /** The records of the snapshot that the walk found. */
    ghost function Base(snapshotID: Option<int>): set<int>
      reads `refs
    {
      if snapshotID.Some? then Ids(SnapshotRows(refs, snapshotID.value)) else {}
    }

    /** What the walk found, a base set and the alterations since, gives the answer. */
    lemma AnswerFrom(version: VersionObject, chain: seq<int>, parents: seq<Version>, snapshotID: Option<int>, n: nat)
      requires Correct() && Matches(version) && IsChain(versions, chain) && chain[0] == version.id
      requires EndsAt(version, chain, parents, snapshotID, n)
      ensures var base, known, alts := Base(snapshotID), Known(rows, names), AlterationsSince(alterations, parents);
        && Answer(version, chain) == (if base <= known then Replay(known, base, alts) else None)
        && (forall a :: a in alts ==> a in alterations)
        && (version.row.snapshot.Some? ==> |parents| == 1 && alts == [])
    {
      hide FullReplay, Replay, Known, ChainAlterations, AlterationsSince, IsChain, SnapshotsCorrect;
      InChain(versions, chain);
      var known, alts := Known(rows, names), ChainAlterations(versions, alterations, chain[..n]);
      SinceSnapshot(Walked(version), alterations, chain, parents, n);
      WalkedChain(versions, version.row, alterations, chain, n);
      PrefixMember(versions, alterations, chain, n);
      ReplayFromAncestor(versions, alterations, known, chain, n);
      if version.row.snapshot.Some? {
        assert parents[0] == version.row;
        assert n == 0;
        NoAlterations(versions, alterations, known, Ids(SnapshotRows(refs, snapshotID.value)), chain);
      } else if snapshotID.Some? {
        assert n > 0;
        ChainLeaves(versions, chain, n);
        SnapshotOf(versions, alterations, known, refs, chain, n);
      } else {
        NothingReplayed(versions, alterations, known, chain);
      }
    }

    /** The same in terms of the cache. */
    lemma AnswerSeen(version: VersionObject, chain: seq<int>, parents: seq<Version>, snapshotID: Option<int>, n: nat)
      requires Usable() && Correct() && Matches(version) && IsChain(versions, chain) && chain[0] == version.id
      requires EndsAt(version, chain, parents, snapshotID, n)
      ensures var base, alts := Base(snapshotID), AlterationsSince(alterations, parents);
        && Answer(version, chain) == (if base <= View().Keys then Replay(View().Keys, base, alts) else None)
        && (version.row.snapshot.Some? ==> |parents| == 1 && alts == [])
    {
      hide Seen, Known, Serves, Replay, AlterationsSince, EndsAt, IsChain, SnapshotsCorrect, Numbered;
      InChain(versions, chain);
      AnswerFrom(version, chain, parents, snapshotID, n);
      var base, alts := Base(snapshotID), AlterationsSince(alterations, parents);
      if snapshotID.Some? { SnapshotKnown(cachedRecords, rows, names, alterations, refs, snapshotID.value); }
      ReplaySeen(cachedRecords, rows, names, alterations, refs, base, alts);
    }

    /** The record list of a version, from the nearest snapshot and the alterations since. */
    method Resolve(version: VersionObject, ghost chain: seq<int>)
      returns (finalList: Option<seq<Record>>, baseCount: nat, alterationCount: nat, parentCount: nat)
      requires Usable() && Correct() && Matches(version) && IsChain(versions, chain) && chain[0] == version.id
      modifies `cachedRecords
      ensures Grew(old(cachedRecords), cachedRecords, rows, names) && View() == old(View()) && Usable()
      ensures (match Answer(version, chain)
        case None => finalList == None
        case Some(s) => finalList.Some? && Lists(View(), finalList.value, s))
      ensures version.row.snapshot.Some? ==> alterationCount == 0 && parentCount == 1
      ensures Worth(version, chain)
        <==> baseCount < alterationCount || (alterationCount > 4096 && parentCount > 128)
    {
      InChain(versions, chain);
      NoBase();
      hide *;
      ghost var cache := cachedRecords;
      GrewRefl(cache, rows, names);
      var parents, snapshotID;
      ghost var n;
      parents, snapshotID, n := CollectParents(version, chain);
      AnswerSeen(version, chain, parents, snapshotID, n);
      WorthSeen(version, chain, parents, snapshotID, n);
      var baseList := [];
      if snapshotID.Some? {
        baseList := LoadBase(snapshotID.value);
      }
      ghost var loaded := cachedRecords;
      var alts := AlterationsSince(alterations, parents);
      finalList := Consolidate(baseList, alts);
      GrewTrans(cache, loaded, cachedRecords, rows, names);
      baseCount, alterationCount, parentCount := |baseList|, |alts|, |parents|;
    }

    /** Stores a snapshot of a version that has been resolved, if nothing fails. */
    method Store(version: VersionObject, list: seq<Record>, fault: Fault, ghost chain: seq<int>)
      requires Usable() && Correct() && Matches(version) && IsChain(versions, chain) && chain[0] == version.id
      requires version.row.snapshot.None? && Answer(version, chain) == Some(Ids(RecordIds(list)))
      modifies `versions, `refs, `nextSnapshot, version
      ensures Usable() && Correct() && Matches(version) && versions.Keys == old(versions).Keys
      ensures forall v :: v in versions ==> versions[v] == old(versions)[v].(snapshot := versions[v].snapshot)
      ensures Answer(version, chain) == if fault.AfterUpdate? then Some({}) else old(Answer(version, chain))
      ensures fault.NoFault? ==> version.row == versions[version.id]
      ensures fault.BeforeUpdate? ==> version.row == old(version.row) && versions == old(versions)
      ensures fault.NoFault? ==> refs == old(refs)[old(nextSnapshot) := RecordIds(list)]
      ensures fault.NoFault? ==> version.row.snapshot == Some(old(nextSnapshot))
      ensures !fault.NoFault? ==> refs == old(refs) && versions == old(versions)
    {
      InChain(versions, chain);
      hide FullReplay, Known, Serves, SnapshotsCorrect;
      ghost var ids := RecordIds(list);
      SnapshotSaved(versions, alterations, Known(rows, names), refs, chain, nextSnapshot, ids);
      SavedServes(cachedRecords, rows, names, alterations, refs, nextSnapshot, ids);
      SaveSnapshot(version, list, fault);
      assert Ids([]) == {};
    }

    /** The records of a version. Wherever the snapshots are, as long as they are correct, that is the
        answer for the caller's copy. A new snapshot is stored exactly if it is worth while; and whether or
        not it is, all snapshots of the tables stay correct. Only a failure after the copy has been given
        the new snapshot changes the next answer, which is then empty. */
    method GetRecords(version: VersionObject, testFailure: bool, fault: Fault, ghost chain: seq<int>)
      returns (finalList: Option<seq<Record>>)
      requires Usable() && Correct() && Matches(version) && IsChain(versions, chain) && chain[0] == version.id
      modifies `versions, `refs, `nextSnapshot, `cachedRecords, version
      ensures Usable() && Correct() && Matches(version) && View() == old(View())
      ensures Grew(old(cachedRecords), cachedRecords, rows, names)
      ensures (match old(Answer(version, chain))
        case None => finalList == None
        case Some(s) => finalList.Some? && Lists(View(), finalList.value, s))
      ensures finalList.Some? ==>
        Current(finalList.value, old(Answer(version, chain)).value, old(cachedRecords), rows, names)
      ensures versions.Keys == old(versions).Keys
      ensures forall v :: v in versions ==> versions[v] == old(versions)[v].(snapshot := versions[v].snapshot)
      ensures Answer(version, chain) == old(Answer(version, chain))
        || (fault.AfterUpdate? && Answer(version, chain) == Some({}))
      ensures fault.NoFault? && old(version.row == versions[version.id]) ==> version.row == versions[version.id]
      ensures fault.NoFault? && finalList.Some? && !testFailure && old(Worth(version, chain)) ==>
        && version.row.snapshot == Some(old(nextSnapshot)) && version.row == versions[version.id]
        && refs == old(refs)[old(nextSnapshot) := RecordIds(finalList.value)]
      ensures finalList.None? || testFailure || !old(Worth(version, chain)) ==>
        version.row == old(version.row) && versions == old(versions) && refs == old(refs)
    {
      InChain(versions, chain);
      hide *;
      ghost var answer, cache := Answer(version, chain), cachedRecords;
      var baseCount, alterationCount, parentCount;
      finalList, baseCount, alterationCount, parentCount := Resolve(version, chain);
      if finalList.None? { return; }
      ListedContents(cache, rows, names, alterations, refs, finalList.value, answer.value);
      if testFailure { return; }
      if baseCount < alterationCount || (alterationCount > 4096 && parentCount > 128) {
        ListedIds(View(), finalList.value, answer.value);
        Store(version, finalList.value, fault, chain);
      }
    }

    // ----- repair: names and duplicates

    /** Stores every name once and points the records to it; the references of all snapshots are dropped
        first. Throws, and rolls back, if a record has no name. */
    method NormaliseNames() returns (ok: bool)
      modifies `names, `rows, `refs
      ensures ok <==> forall i :: 0 <= i < |old(rows)| ==> FindName(old(names), old(rows)[i].nameId).Some?
      ensures !ok ==> names == old(names) && rows == old(rows) && refs == old(refs)
      ensures ok ==> names == Canonical(old(names)) && refs == map[] && |rows| == |old(rows)|
      ensures ok ==> forall i :: 0 <= i < |rows| ==> Renamed(old(rows)[i], old(names), rows[i], names)
    {
      hide FindName, Renamed, MapsNames, Canonical, UniqueNames, Indexed;
      var objNames, priorRows, priorRefs := names, rows, refs;
      refs := map[];
      var nameMapping: map<int, int>, table := CollectNames(objNames);
      names := table;
      var i := 0;
      while i < |rows|
        invariant i <= |rows| == |priorRows| && names == table && refs == map[]
        invariant forall k :: 0 <= k < i ==> Renamed(priorRows[k], objNames, rows[k], table)
        invariant forall k :: 0 <= k < i ==> FindName(objNames, priorRows[k].nameId).Some?
        invariant forall k :: i <= k < |rows| ==> rows[k] == priorRows[k]
      {
        RenamedOne(objNames, table, nameMapping, priorRows[i]);
        if rows[i].nameId !in nameMapping {
          names, rows, refs := objNames, priorRows, priorRefs;
          return false;
        }
        rows := rows[i := rows[i].(nameId := nameMapping[rows[i].nameId])];
        i := i + 1;
      }
      ok := true;
    }

    /** The first loop: one new row for every name. */
    static method CollectNames(objNames: seq<ObjectName>) returns (nameMapping: map<int, int>, table: seq<ObjectName>)
      ensures table == Canonical(objNames) && MapsNames(objNames, table, nameMapping)
    {
      hide Canonical, MapsNames;
      var nameIndexes: map<string, int> := map[];
      nameMapping, table := map[], [];
      NothingCollected();
      var i := 0;
      while i < |objNames|
        invariant i <= |objNames| && Collected(objNames[..i], table, nameIndexes, nameMapping)
      {
        var x := objNames[i];
        assert objNames[..i + 1] == objNames[..i] + [x];
        if x.name in nameIndexes {
          OldName(objNames[..i], x, table, nameIndexes, nameMapping);
          nameMapping := nameMapping[x.id := nameIndexes[x.name]];
        } else {
          NewName(objNames[..i], x, table, nameIndexes, nameMapping);
          var oname := ObjectName(|table| + 1, x.name);
          table := table + [oname];
          nameMapping := nameMapping[x.id := oname.id];
          nameIndexes := nameIndexes[x.name := oname.id];
        }
        i := i + 1;
      }
      assert objNames[..|objNames|] == objNames;
    }

    /** Points alterations from one record to another. */
    method RelinkAll(x: int, other: int)
      modifies `alterations
      ensures alterations == Relinked(map[x := other], old(alterations))
    {
      ghost var was := alterations;
      var i := 0;
      while i < |alterations|
        invariant i <= |alterations| == |was|
        invariant forall k :: 0 <= k < i ==> alterations[k] == Relink(map[x := other], was[k])
        invariant forall k :: i <= k < |was| ==> alterations[k] == was[k]
      {
        var s := alterations[i];
        if s.prior == Some(x) || s.next == Some(x) {
          if s.next == Some(x) { s := s.(next := Some(other)); }
          if s.prior == Some(x) { s := s.(prior := Some(other)); }
          alterations := alterations[i := s];
        }
        i := i + 1;
      }
    }

    /** The rows up to i have been dealt with. */
    ghost predicate MergedUpTo(all: seq<Row>, was: seq<Alteration>, i: nat, kept: nat, records: map<Key, Row>)
      reads this
    {
      && i <= |all| && kept == |Merged(all[..i])| && rows == Merged(all[..i]) + all[i..]
      && alterations == Relinked(MergeMap(all[..i]), was) && Firsts(all[..i], records)
    }

    /** Merges or keeps one row. */
    method MergeRow(all: seq<Row>, i: nat, kept: nat, records: map<Key, Row>, ghost was: seq<Alteration>)
      returns (kept': nat, records': map<Key, Row>)
      requires UniqueIds(all) && i < |all| && MergedUpTo(all, was, i, kept, records)
      modifies `rows, `alterations
      ensures MergedUpTo(all, was, i + 1, kept', records')
    {
      hide MergeMap, Merged, FirstWith, Relinked, Firsts, UniqueIds;
      var x := all[i];
      var key := KeyOf(x);
      ghost var stay, rest := Merged(all[..i]), all[i + 1..];
      RowAt(all, i);
      CutRow(stay, x, rest);
      FirstsOneMore(all[..i], records, x);
      FirstsHas(all[..i], records, key);
      kept', records' := kept, records;
      if key in records {
        var other := records[key];
        UniquePrefix(all, i + 1);
        RelinkedOneMore(all[..i], x, other, was);
        RelinkAll(x.id, other.id);
        rows := rows[..kept] + rows[kept + 1..];
        assert rows == stay + rest;
      } else {
        RelinkedNoMore(all[..i], x);
        records' := records[key := x];
        kept' := kept + 1;
      }
    }

    /** Keeps the first of the records with one key and relinks the alterations of the others. */
    method MergeDuplicates()
      requires UniqueIds(rows)
      modifies `rows, `alterations
      ensures rows == Merged(old(rows)) && alterations == Relinked(MergeMap(old(rows)), old(alterations))
    {
      hide MergeMap, Merged, FirstWith, Relinked, Firsts, UniqueIds;
      var all := rows;
      ghost var was := alterations;
      var records: map<Key, Row>, i, kept := map[], 0, 0;
      MergeStart(was);
      assert all[..0] == [] && all[0..] == all;
      while i < |all|
        invariant MergedUpTo(all, was, i, kept, records)
      {
        kept, records := MergeRow(all, i, kept, records, was);
        i := i + 1;
      }
      assert all[..|all|] == all;
    }

    /** Forgets every version's snapshot. */
    method ForgetSnapshots()
      modifies `versions
      ensures versions.Keys == old(versions).Keys
      ensures forall v :: v in versions ==> versions[v] == old(versions)[v].(snapshot := None)
    {
      var priorVersions := versions;
      var rest := versions.Keys;
      while rest != {}
        invariant rest <= versions.Keys == priorVersions.Keys
        invariant forall v :: v in versions ==>
          versions[v] == if v in rest then priorVersions[v] else priorVersions[v].(snapshot := None)
        decreases |rest|
      {
        Inhabited(rest);
        var x :| x in rest;
        versions := versions[x := versions[x].(snapshot := None)];
        rest := rest - {x};
      }
    }

    /** The passes of the consistency check, one after the other. Every record keeps its contents, or is
        replaced by one with the same; what becomes of the replays is told by Commutes. The cache is not
        emptied: it can still be used, but it is in step with the tables exactly if it holds no record
        that was merged or got another name id. */
    method CleanRecords() returns (ok: bool, ghost m: map<int, int>, ghost renamed: seq<Row>)
      requires UniqueIds(rows)
      modifies `names, `rows, `alterations, `refs, `versions
      ensures !ok ==> names == old(names) && rows == old(rows) && alterations == old(alterations)
      ensures !ok ==> refs == old(refs) && versions == old(versions)
      ensures ok <==> forall i :: 0 <= i < |old(rows)| ==> FindName(old(names), old(rows)[i].nameId).Some?
      ensures ok ==>
        names == Canonical(old(names)) && UniqueIds(rows) && m == MergeMap(renamed) && rows == Merged(renamed)
      ensures ok ==> AllRenamed(old(rows), old(names), renamed, names) && alterations == Relinked(m, old(alterations))
      ensures ok ==> versions.Keys == old(versions).Keys
      ensures ok ==> refs == map[] && forall v :: v in versions ==> versions[v] == old(versions)[v].(snapshot := None)
      ensures ok ==> forall id :: Kept(old(rows), old(names), rows, names, m, id)
      ensures ok ==> Correct()
      ensures ok ==> (forall chain ::
        Commutes(old(versions), old(alterations), Known(old(rows), old(names)), versions, alterations,
                 Known(rows, names), m, chain))
      ensures ok && old(Usable()) ==> Usable()
      ensures ok && old(Coherent()) ==>
        (Coherent() <==> (forall id :: id in cachedRecords ==>
          id !in m && FindRow(renamed, id) == Some(cachedRecords[id].row)))
    {
      hide FindRecord, FindRow, FindName, MergeMap, Merged, Canonical, Renamed, Mapped, Relinked, Known, Commutes;
      hide Kept, AllRenamed, UniqueIds, Serves, InStep, SnapshotsCorrect;
      ghost var was, priorVersions, priorRefs, table := rows, versions, refs, alterations;
      m, renamed := map[], [];
      ok := NormaliseNames();
      if !ok { return; }
      renamed := rows;
      AllNamed(was, old(names), rows, names);
      UniqueRenamed(was, old(names), rows, names);
      MergeDuplicates();
      ForgetSnapshots();
      m := MergeMap(renamed);
      MergedUnique(renamed);
      KeptAll(was, old(names), renamed, names);
      NoSnapshots(versions, alterations, Known(rows, names), refs);
      forall chain
        ensures Commutes(priorVersions, table, Known(was, old(names)), versions, alterations, Known(rows, names), m,
                         chain)
      {
        CleanedCommutes(renamed, names, priorVersions, versions, table, chain);
      }
      if old(Usable()) { CleanedServes(cachedRecords, was, old(names), renamed, names, table, priorRefs); }
      if old(Coherent()) { CleanedInStep(cachedRecords, was, old(names), renamed, names); }
    }

    /** Two rows for one name, the second of them used by a cached record: after the check the cache is not
        in step any more. */
    method StaleCache()
      requires names == [ObjectName(1, "f"), ObjectName(2, "f")] && rows == [Row(1, "x", 2, 0)]
      requires cachedRecords == map[1 := Record(rows[0], "f")]
      modifies `names, `rows, `alterations, `refs, `versions
      ensures old(Coherent()) && !Coherent() && Usable()
    {
      StaleBefore(cachedRecords, rows, names, alterations, refs);
      hide FindRecord, FindRow, FindName, MergeMap, Merged, Canonical, Renamed, Mapped, Relinked, Known, Commutes;
      hide Kept, AllRenamed, UniqueIds, Serves, InStep, SnapshotsCorrect;
      ghost var row := rows[0];
      var ok, m, renamed := CleanRecords();
      StaleAfter(old(names), row, renamed);
    }

    // ----- repair: multiple moves

    /** Finds the records that the list moves more than once; None if a move has no prior record,
        where the program throws. */
    method FindMoves(list: int) returns (moveDeletes: Option<map<int, bool>>)
      ensures moveDeletes.None? <==> exists a :: a in alterations && a.owner == list && a.kind == Move && a.prior.None?
      ensures moveDeletes.Some? ==> forall p ::
        MovedTwice(Owned(alterations, list), p) <==> p in moveDeletes.value && !moveDeletes.value[p]
      ensures moveDeletes.Some? ==> forall a ::
        a in alterations && a.owner == list && a.kind == Move ==> a.prior.value in moveDeletes.value
    {
      var found: map<int, bool>, i := map[], 0;
      TallyStart();
      OwnedNothing(list);
      hide Owned, Tally;
      assert alterations[..0] == [];
      while i < |alterations|
        invariant i <= |alterations| && Tally(Owned(alterations[..i], list), found)
        invariant forall a :: a in alterations[..i] && a.owner == list && a.kind == Move ==> a.prior.Some?
      {
        var s := alterations[i];
        assert alterations[..i + 1] == alterations[..i] + [s];
        OwnedSnoc(alterations[..i], s, list);
        assert s in alterations;
        TallyStep(Owned(alterations[..i], list), s, found);
        if s.owner == list && s.kind == Move {
          if s.prior.None? { return None; }
          found := found[s.prior.value := s.prior.value !in found];
        } else {
          assert Owned(alterations[..i], list) + [] == Owned(alterations[..i], list);
        }
        i := i + 1;
      }
      assert alterations[..|alterations|] == alterations;
      TallyEnd(alterations, list, found);
      moveDeletes := Some(found);
    }

    /** Turns repeated moves into copies. */
    method DemoteMoves(list: int, moveDeletes: map<int, bool>) returns (deletions: set<int>)
      requires forall a ::
        a in alterations && a.owner == list && a.kind == Move ==> a.prior.Some? && a.prior.value in moveDeletes
      requires forall p :: MovedTwice(Owned(alterations, list), p) <==> p in moveDeletes && !moveDeletes[p]
      modifies `alterations
      ensures alterations == DemotedTable(old(alterations), list, deletions)
      ensures forall p :: p in deletions <==> MovedTwice(Owned(old(alterations), list), p)
    {
      hide MovedTwice, Owned;
      ghost var repeated := set p | p in moveDeletes && !moveDeletes[p];
      ghost var was := alterations;
      deletions := {};
      var i := 0;
      while i < |alterations|
        invariant i <= |alterations| == |was| && deletions <= repeated
        invariant forall j ::
          0 <= j < i ==> alterations[j] == if was[j].owner == list then Demote(was[j], repeated) else was[j]
        invariant forall j :: i <= j < |was| ==> alterations[j] == was[j]
        invariant forall j :: 0 <= j < i && was[j].owner == list && was[j].kind == Move ==>
          was[j].prior.value !in repeated || was[j].prior.value in deletions
      {
        var s := alterations[i];
        assert s == was[i] && s in was;
        if s.owner == list && s.kind == Move {
          if moveDeletes[s.prior.value] == false {
            alterations := alterations[i := s.(kind := Copy)];
            deletions := deletions + {s.prior.value};
          }
        }
        i := i + 1;
      }
      forall p | p in repeated ensures p in deletions { DemotedAll(was, list, p, deletions); }
      assert deletions == repeated;
    }

    /** Adds a deletion for each of the records. */
    method InsertDeletions(list: int, deletions: set<int>) returns (ghost ds: seq<Alteration>)
      modifies `alterations, `nextAlteration
      ensures alterations == old(alterations) + ds && Deletions(ds, list, deletions)
      ensures deletions == {} ==> ds == []
    {
      ds := [];
      var rest := deletions;
      while rest != {}
        invariant rest <= deletions && alterations == old(alterations) + ds && Deletions(ds, list, deletions - rest)
        invariant deletions == {} ==> ds == []
        decreases |rest|
      {
        Inhabited(rest);
        var s :| s in rest;
        var alt := Alteration(nextAlteration, list, Delete, Some(s), None);
        nextAlteration := nextAlteration + 1;
        DeletionAdded(ds, list, deletions, rest, s, alt);
        alterations := alterations + [alt];
        ds := ds + [alt];
        rest := rest - {s};
      }
      assert deletions - rest == deletions;
    }

    /** The pass over one version. */
    method FixMoves(list: int) returns (ok: bool)
      modifies `alterations, `nextAlteration
      ensures ok <==> forall a :: a in old(alterations) && a.owner == list && a.kind == Move ==> a.prior.Some?
      ensures ok ==> Passed(old(alterations), alterations, list)
      ensures ok && (forall p :: !MovedTwice(Owned(old(alterations), list), p)) ==>
        Owned(alterations, list) == Owned(old(alterations), list)
      ensures forall other :: other != list ==> Owned(alterations, other) == Owned(old(alterations), other)
      ensures ok ==> BringsNoMore(old(alterations), alterations)
      ensures !ok ==> alterations == old(alterations)
    {
      hide Owned, MovedTwice, Demoted, DemotedTable, Deletions;
      ghost var was := alterations;
      var moveDeletes := FindMoves(list);
      if moveDeletes.None? { return false; }
      var deletions := DemoteMoves(list, moveDeletes.value);
      ghost var demoted := alterations;
      ghost var ds := InsertDeletions(list, deletions);
      OwnedAfter(was, demoted, ds, list, deletions);
      DemotedBrings(was, ds, list, deletions);
      assert FixedWith(Owned(was, list), Owned(alterations, list), list, deletions, ds);
      if deletions == {} {
        NothingDemoted(Owned(was, list));
      } else {
        Inhabited(deletions);
        ghost var p :| p in deletions;
        assert MovedTwice(Owned(was, list), p);
      }
      ok := true;
    }

    /** The pass over all versions, which also forgets the snapshots: every chain that was well formed but
        for repeated moves replays to what its versions meant. If some move has no prior record, the
        transaction is rolled back. */
    method FixAllMoves() returns (ok: bool)
      modifies `alterations, `nextAlteration, `versions
      ensures ok <==> forall v :: v in old(versions) ==> Sourced(old(alterations), old(versions)[v].list)
      ensures !ok ==> alterations == old(alterations) && versions == old(versions)
      ensures ok ==> versions.Keys == old(versions).Keys
      ensures ok ==> forall v :: v in versions ==> versions[v] == old(versions)[v].(snapshot := None)
      ensures ok ==> forall v :: v in versions ==> Passed(old(alterations), alterations, versions[v].list)
      ensures ok ==> forall chain ::
        Mended(old(versions), old(alterations), versions, alterations, Known(rows, names), chain)
      ensures ok && old(Numbered()) ==> Correct()
      ensures ok && old(Usable()) ==> Usable()
    {
      hide Passed, Owned, MovedTwice, BringsNoMore, Serves, Known, SnapshotsCorrect, Mended, FindRecord;
      var priorAlterations, priorVersions := alterations, versions;
      PassStart(versions, alterations);
      var rest := versions.Keys;
      while rest != {}
        invariant PassedBut(versions, priorVersions, rest, priorAlterations, alterations)
        invariant forall v :: v in priorVersions && v !in rest ==> Sourced(priorAlterations, priorVersions[v].list)
        decreases |rest|
      {
        Inhabited(rest);
        var x :| x in rest;
        ghost var now, stored := alterations, versions;
        versions := versions[x := versions[x].(snapshot := None)];
        var fixed := FixMoves(versions[x].list);
        PassedSourced(priorAlterations, now, priorVersions[x].list);
        if !fixed {
          alterations, versions := priorAlterations, priorVersions;
          return false;
        }
        PassStep(stored, priorVersions, rest, x, priorAlterations, now, alterations);
        rest := rest - {x};
      }
      forall chain ensures Mended(priorVersions, priorAlterations, versions, alterations, Known(rows, names), chain) {
        PassMends(priorVersions, priorAlterations, versions, alterations, Known(rows, names), chain);
      }
      NoSnapshots(versions, alterations, Known(rows, names), refs);
      if old(Usable()) { BringsNoMoreServes(cachedRecords, rows, names, priorAlterations, alterations, refs); }
      ok := true;
    }
  }
}
