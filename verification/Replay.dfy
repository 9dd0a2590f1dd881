/** Versions as lists of alterations, and what replaying them along the parent chain means. */
module Replays {
  import opened Optional

  datatype Kind = Add | Update | Move | Copy | Delete | Discard

  /** A row of the Alteration table; `owner` is the alteration list of a version. */
  datatype Alteration = Alteration(id: int, owner: int, kind: Kind, prior: Option<int>, next: Option<int>)

  /** A row of the Record table. uid stands for fingerprint, size and attributes together. */
  datatype Row = Row(id: int, uid: string, nameId: int, time: int)

  datatype ObjectName = ObjectName(id: int, name: string)

  /** A record with its name joined in. */
  datatype Record = Record(row: Row, name: string)

  datatype Version = Version(parent: Option<int>, snapshot: Option<int>, list: int)

  // ----- tables

  function FindName(names: seq<ObjectName>, id: int): (r: Option<string>)
    ensures r.Some? <==> exists n :: n in names && n.id == id
  {
    if names == [] then None
    else if names[|names| - 1].id == id then Some(names[|names| - 1].name)
    else FindName(names[..|names| - 1], id)
  }

  function FindRow(rows: seq<Row>, id: int): (r: Option<Row>)
    ensures r.Some? ==> r.value in rows && r.value.id == id
    ensures r.None? ==> forall row :: row in rows ==> row.id != id
  {
    if rows == [] then None
    else if rows[|rows| - 1].id == id then Some(rows[|rows| - 1])
    else FindRow(rows[..|rows| - 1], id)
  }

  /** The inner join of Record and ObjectName: records without a name are not found. */
  function FindRecord(rows: seq<Row>, names: seq<ObjectName>, id: int): (r: Option<Record>)
    ensures r.Some? ==> r.value.row.id == id
  {
    var row := FindRow(rows, id);
    if row.None? then None
    else
      var name := FindName(names, row.value.nameId);
      if name.None? then None else Some(Record(row.value, name.value))
  }

  /** The records that can be found. */
  function Known(rows: seq<Row>, names: seq<ObjectName>): (ids: set<int>)
    ensures forall id :: id in ids <==> FindRecord(rows, names, id).Some?
  {
    set row | row in rows && FindRecord(rows, names, row.id).Some? :: row.id
  }

  /** The alterations of a list, in stored order. */
  function Owned(table: seq<Alteration>, list: int): (r: seq<Alteration>)
    ensures forall a :: a in r <==> a in table && a.owner == list
  {
    if table == [] then []
    else
      var a := table[|table| - 1];
      Owned(table[..|table| - 1], list) + if a.owner == list then [a] else []
  }

  lemma OwnedNothing(list: int)
    ensures Owned([], list) == []
  {
  }

  lemma OwnedSnoc(table: seq<Alteration>, a: Alteration, list: int)
    ensures Owned(table + [a], list) == Owned(table, list) + if a.owner == list then [a] else []
  {
    assert (table + [a])[..|table|] == table;
  }

  // ----- replay

  predicate Removes(a: Alteration) { a.kind == Move || a.kind == Update || a.kind == Delete }

  predicate Brings(a: Alteration) { a.kind == Add || a.kind == Copy || a.kind == Move || a.kind == Update }

  /** What one alteration does to a set of records; None where the program throws. */
  function Apply(known: set<int>, s: set<int>, a: Alteration): (r: Option<set<int>>)
    ensures r.Some? && s <= known ==> r.value <= known
  {
    match a.kind
    case Add => Added(known, s, a.next)
    case Copy => Added(known, s, a.next)
    case Discard => Some(s)
    case Delete => Removed(s, a.prior)
    case _ =>
      var t := Removed(s, a.prior);
      if t.None? then None else Added(known, t.value, a.next)
  }

  function Added(known: set<int>, s: set<int>, id: Option<int>): Option<set<int>> {
    if id.Some? && id.value in known then Some(s + {id.value}) else None
  }

  function Removed(s: set<int>, id: Option<int>): Option<set<int>> {
    if id.Some? && id.value in s then Some(s - {id.value}) else None
  }

  /** Alterations are applied from the last one to the first. */
  function Replay(known: set<int>, s: set<int>, alterations: seq<Alteration>): (r: Option<set<int>>)
    ensures r.Some? && s <= known ==> r.value <= known
  {
    if alterations == [] then Some(s)
    else
      var t := Replay(known, s, alterations[1..]);
      if t.None? then None else Apply(known, t.value, alterations[0])
  }

  lemma {:induction false} ReplayConcat(known: set<int>, s: set<int>, a: seq<Alteration>, b: seq<Alteration>)
    ensures Replay(known, s, a + b)
         == var t := Replay(known, s, b); if t.None? then None else Replay(known, t.value, a)
  {
    if a == [] {
      assert a + b == b;
    } else {
      ReplayConcat(known, s, a[1..], b);
      assert (a + b)[1..] == a[1..] + b;
    }
  }

  /** By positions: a record is there if it was there before or an alteration brings it, and none
      of those applied afterwards removes it. */
  ghost predicate Present(s: set<int>, alts: seq<Alteration>, id: int) {
    (id in s && Stays(alts, id)) || exists i :: 0 <= i < |alts| && BringsLast(alts, i, id)
  }

  ghost predicate Stays(alts: seq<Alteration>, id: int) {
    forall j :: 0 <= j < |alts| ==> !(Removes(alts[j]) && alts[j].prior == Some(id))
  }

  ghost predicate BringsLast(alts: seq<Alteration>, i: nat, id: int)
    requires i < |alts|
  {
    Brings(alts[i]) && alts[i].next == Some(id) && Stays(alts[..i], id)
  }

  /** An alteration can be applied if the record it removes is there and the one it brings is known. */
  ghost predicate CanApply(known: set<int>, s: set<int>, alts: seq<Alteration>, i: nat)
    requires i < |alts|
  {
    && (Removes(alts[i]) ==> alts[i].prior.Some? && Present(s, alts[i + 1..], alts[i].prior.value))
    && (Brings(alts[i]) ==> alts[i].next.Some? && alts[i].next.value in known)
  }

  lemma StaysStep(a: Alteration, rest: seq<Alteration>, id: int)
    ensures Stays([a] + rest, id) <==> Stays(rest, id) && !(Removes(a) && a.prior == Some(id))
  {
    var alts := [a] + rest;
    assert alts[0] == a && forall j :: 0 <= j < |rest| ==> rest[j] == alts[j + 1];
    if !Stays(alts, id) {
      var j :| 0 <= j < |alts| && Removes(alts[j]) && alts[j].prior == Some(id);
      if 0 < j { assert alts[j] == rest[j - 1]; }
    }
  }

  lemma PresentStep(s: set<int>, a: Alteration, rest: seq<Alteration>, id: int)
    ensures Present(s, [a] + rest, id)
      <==> (Brings(a) && a.next == Some(id)) || (Present(s, rest, id) && !(Removes(a) && a.prior == Some(id)))
  {
    var alts := [a] + rest;
    StaysStep(a, rest, id);
    assert alts[..0] == [] && Stays([], id);
    assert BringsLast(alts, 0, id) <==> Brings(a) && a.next == Some(id);
    forall i | 0 <= i < |rest|
      ensures BringsLast(alts, i + 1, id) <==> BringsLast(rest, i, id) && !(Removes(a) && a.prior == Some(id)) {
      assert alts[..i + 1] == [a] + rest[..i];
      StaysStep(a, rest[..i], id);
    }
    hide Stays, BringsLast;
    if i :| 0 < i < |alts| && BringsLast(alts, i, id) { assert BringsLast(rest, i - 1, id); }
    if i :| 0 <= i < |rest| && BringsLast(rest, i, id) {
      assert BringsLast(alts, i + 1, id) <==> !(Removes(a) && a.prior == Some(id));
    }
  }

  lemma CanApplyStep(known: set<int>, s: set<int>, a: Alteration, rest: seq<Alteration>)
    ensures var alts := [a] + rest;
      (forall i :: 0 <= i < |alts| ==> CanApply(known, s, alts, i))
        <==> (&& (Removes(a) ==> a.prior.Some? && Present(s, rest, a.prior.value))
              && (Brings(a) ==> a.next.Some? && a.next.value in known)
              && forall i :: 0 <= i < |rest| ==> CanApply(known, s, rest, i))
  {
    hide Present;
    var alts := [a] + rest;
    assert alts[1..] == rest;
    assert CanApply(known, s, alts, 0)
      <==> (&& (Removes(a) ==> a.prior.Some? && Present(s, rest, a.prior.value))
            && (Brings(a) ==> a.next.Some? && a.next.value in known));
    forall i | 0 <= i < |rest| ensures CanApply(known, s, alts, i + 1) <==> CanApply(known, s, rest, i) {
      assert alts[i + 1] == rest[i] && alts[i + 2..] == rest[i + 1..];
    }
    hide CanApply;
    if forall i :: 0 <= i < |alts| ==> CanApply(known, s, alts, i) {
      forall i | 0 <= i < |rest| ensures CanApply(known, s, rest, i) {
        assert CanApply(known, s, alts, i + 1);
      }
    } else {
      var i :| 0 <= i < |alts| && !CanApply(known, s, alts, i);
      if 0 < i { assert CanApply(known, s, alts, i - 1 + 1) <==> CanApply(known, s, rest, i - 1); }
    }
  }

  /** What a replay comes to, and when: told by positions, without applying one by one. */
  lemma {:induction false} ReplayTells(known: set<int>, s: set<int>, alts: seq<Alteration>)
    ensures Replay(known, s, alts).Some? <==> forall i :: 0 <= i < |alts| ==> CanApply(known, s, alts, i)
    ensures Replay(known, s, alts).Some? ==> forall id :: id in Replay(known, s, alts).value <==> Present(s, alts, id)
  {
    if alts != [] {
      var a, rest := alts[0], alts[1..];
      ReplayTells(known, s, rest);
      assert alts == [a] + rest;
      CanApplyStep(known, s, a, rest);
      hide Present, CanApply;
      forall id ensures Present(s, alts, id)
          <==> (Brings(a) && a.next == Some(id)) || (Present(s, rest, id) && !(Removes(a) && a.prior == Some(id))) {
        PresentStep(s, a, rest, id);
      }
    }
  }

  lemma Inhabited(s: set<int>)
    requires s != {}
    ensures exists x :: x in s
  {
    if forall x :: x !in s { assert false; }
  }

  // ----- parent chains

  /** From a version to the one without a parent. */
  ghost predicate IsChain(versions: map<int, Version>, chain: seq<int>) {
    && 0 < |chain|
    && (forall i :: 0 <= i < |chain| ==> chain[i] in versions)
    && (forall i :: 0 <= i < |chain| - 1 ==> versions[chain[i]].parent == Some(chain[i + 1]))
    && versions[chain[|chain| - 1]].parent == None
  }

  /** All alterations along a chain, the newest version's first. */
  function ChainAlterations(versions: map<int, Version>, table: seq<Alteration>, chain: seq<int>): seq<Alteration>
    requires forall i :: 0 <= i < |chain| ==> chain[i] in versions
  {
    if chain == [] then []
    else Owned(table, versions[chain[0]].list) + ChainAlterations(versions, table, chain[1..])
  }

  /** The record set of a version: the replay of its whole chain. */
  function FullReplay(versions: map<int, Version>, table: seq<Alteration>, known: set<int>,
                      chain: seq<int>): Option<set<int>>
    requires forall i :: 0 <= i < |chain| ==> chain[i] in versions
  {
    Replay(known, {}, ChainAlterations(versions, table, chain))
  }

  /** The record set of a version in terms of its parent's. */
  lemma FullReplayStep(versions: map<int, Version>, table: seq<Alteration>, known: set<int>, chain: seq<int>)
    requires 0 < |chain| && forall i :: 0 <= i < |chain| ==> chain[i] in versions
    ensures FullReplay(versions, table, known, chain)
         == var t := FullReplay(versions, table, known, chain[1..]);
            if t.None? then None else Replay(known, t.value, Owned(table, versions[chain[0]].list))
  {
    ReplayConcat(known, {}, Owned(table, versions[chain[0]].list), ChainAlterations(versions, table, chain[1..]));
  }

  lemma {:induction false} ChainSplit(versions: map<int, Version>, table: seq<Alteration>, chain: seq<int>, n: nat)
    requires n <= |chain| && forall i :: 0 <= i < |chain| ==> chain[i] in versions
    ensures ChainAlterations(versions, table, chain)
         == ChainAlterations(versions, table, chain[..n]) + ChainAlterations(versions, table, chain[n..])
  {
    if n == 0 {
      assert chain[n..] == chain;
    } else {
      ChainSplit(versions, table, chain[1..], n - 1);
      assert chain[1..][..n - 1] == chain[..n][1..] && chain[1..][n - 1..] == chain[n..];
    }
  }

  /** Stopping the walk at an ancestor whose record set is known gives the same record set. */
  lemma ReplayFromAncestor(versions: map<int, Version>, table: seq<Alteration>, known: set<int>, chain: seq<int>,
                           n: nat)
    requires n <= |chain| && forall i :: 0 <= i < |chain| ==> chain[i] in versions
    ensures FullReplay(versions, table, known, chain)
         == var base := FullReplay(versions, table, known, chain[n..]);
            if base.None? then None else Replay(known, base.value, ChainAlterations(versions, table, chain[..n]))
  {
    ChainSplit(versions, table, chain, n);
    var newer, older := ChainAlterations(versions, table, chain[..n]), ChainAlterations(versions, table, chain[n..]);
    ReplayConcat(known, {}, newer, older);
  }

  lemma {:induction false} ReplayFails(known: set<int>, s: set<int>, alts: seq<Alteration>, n: nat)
    requires n <= |alts| && Replay(known, s, alts[n..]) == None
    ensures Replay(known, s, alts) == None
    decreases n
  {
    if n == 0 {
      assert alts[0..] == alts;
    } else {
      assert alts[n - 1..][1..] == alts[n..];
      ReplayFails(known, s, alts, n - 1);
    }
  }

  lemma NothingReplayed(versions: map<int, Version>, table: seq<Alteration>, known: set<int>, chain: seq<int>)
    requires IsChain(versions, chain)
    ensures FullReplay(versions, table, known, chain[|chain|..]) == Some({})
  {
  }

  lemma NoAlterations(versions: map<int, Version>, table: seq<Alteration>, known: set<int>, s: set<int>,
                      chain: seq<int>)
    ensures ChainAlterations(versions, table, chain[..0]) == []
    ensures Replay(known, s, []) == Some(s)
  {
  }

  lemma InChain(versions: map<int, Version>, chain: seq<int>)
    requires IsChain(versions, chain)
    ensures 0 < |chain| && forall i :: 0 <= i < |chain| ==> chain[i] in versions
  {
  }

  lemma ChainParent(versions: map<int, Version>, chain: seq<int>, i: nat)
    requires IsChain(versions, chain) && i < |chain|
    ensures versions[chain[i]].parent == if i == |chain| - 1 then None else Some(chain[i + 1])
  {
  }

  lemma {:induction false} ChainMember(versions: map<int, Version>, table: seq<Alteration>, chain: seq<int>,
                                       a: Alteration)
    requires (forall i :: 0 <= i < |chain| ==> chain[i] in versions) && a in ChainAlterations(versions, table, chain)
    ensures a in table
  {
    if a !in Owned(table, versions[chain[0]].list) { ChainMember(versions, table, chain[1..], a); }
  }

  /** A replay asks for no other records than those that its alterations bring. */
  lemma {:induction false} ReplayKnown(known: set<int>, other: set<int>, s: set<int>, alts: seq<Alteration>)
    requires forall a :: a in alts && a.next.Some? ==> (a.next.value in known <==> a.next.value in other)
    ensures Replay(known, s, alts) == Replay(other, s, alts)
  {
    if alts != [] { ReplayKnown(known, other, s, alts[1..]); }
  }

  lemma ChainFirst(versions: map<int, Version>, c: seq<int>)
    requires IsChain(versions, c)
    ensures versions[c[0]].parent == if |c| == 1 then None else Some(c[1])
  {
  }

  /** A chain from a version is the only one. */
  lemma {:induction false} ChainUnique(versions: map<int, Version>, a: seq<int>, b: seq<int>)
    requires IsChain(versions, a) && IsChain(versions, b) && a[0] == b[0]
    ensures a == b
  {
    ChainFirst(versions, a);
    ChainFirst(versions, b);
    if |a| > 1 {
      ChainUnique(versions, a[1..], b[1..]);
      assert a == [a[0]] + a[1..] && b == [b[0]] + b[1..];
    }
  }

  /** A chain does not come back to the version it started from. */
  lemma ChainLeaves(versions: map<int, Version>, chain: seq<int>, i: nat)
    requires IsChain(versions, chain) && 0 < i < |chain|
    ensures chain[i] != chain[0]
  {
    ChainSuffix(versions, chain, i);
    if chain[i] == chain[0] { ChainUnique(versions, chain, chain[i..]); }
  }

  // ----- snapshots

  /** GetAlterationsInternal: the alterations of those versions that have no snapshot. */
  function AlterationsSince(table: seq<Alteration>, parents: seq<Version>): seq<Alteration> {
    if parents == [] then []
    else
      (if parents[0].snapshot.None? then Owned(table, parents[0].list) else []) + AlterationsSince(table, parents[1..])
  }

  /** On a walk that ends at the first version with a snapshot, they are those of the versions before. */
  lemma {:induction false} SinceSnapshot(versions: map<int, Version>, table: seq<Alteration>, chain: seq<int>,
                                         parents: seq<Version>, n: nat)
    requires |parents| <= |chain| && forall i ::
      0 <= i < |parents| ==> chain[i] in versions && parents[i] == versions[chain[i]]
    requires n <= |parents| <= n + 1 && forall i :: 0 <= i < n ==> parents[i].snapshot.None?
    requires n < |parents| ==> parents[n].snapshot.Some?
    ensures AlterationsSince(table, parents) == ChainAlterations(versions, table, chain[..n])
  {
    if n > 0 {
      SinceSnapshot(versions, table, chain[1..], parents[1..], n - 1);
      assert chain[1..][..n - 1] == chain[..n][1..];
    }
  }

  function Ids(refs: seq<int>): set<int> { set id | id in refs }

  /** Every snapshot lists the record set of its version. */
  ghost predicate SnapshotsCorrect(versions: map<int, Version>, table: seq<Alteration>, known: set<int>,
                                   refs: map<int, seq<int>>)
  {
    forall chain :: IsChain(versions, chain) && versions[chain[0]].snapshot.Some? ==>
      && versions[chain[0]].snapshot.value in refs
      && FullReplay(versions, table, known, chain) == Some(Ids(refs[versions[chain[0]].snapshot.value]))
  }

  lemma NoSnapshots(versions: map<int, Version>, table: seq<Alteration>, known: set<int>, refs: map<int, seq<int>>)
    requires forall v :: v in versions ==> versions[v].snapshot.None?
    ensures SnapshotsCorrect(versions, table, known, refs)
  {
    forall chain | IsChain(versions, chain) ensures versions[chain[0]].snapshot.None? {
      InChain(versions, chain);
      var v := chain[0];
      assert v in versions;
    }
  }

  /** Chains and replays do not depend on snapshots. */
  lemma {:induction false} SnapshotsDoNotMatter(versions: map<int, Version>, other: map<int, Version>,
                                                table: seq<Alteration>, chain: seq<int>)
    requires versions.Keys == other.Keys
    requires forall v :: v in versions ==> other[v] == versions[v].(snapshot := other[v].snapshot)
    requires forall i :: 0 <= i < |chain| ==> chain[i] in versions
    ensures ChainAlterations(other, table, chain) == ChainAlterations(versions, table, chain)
    ensures IsChain(other, chain) <==> IsChain(versions, chain)
  {
    if chain != [] { SnapshotsDoNotMatter(versions, other, table, chain[1..]); }
  }

  lemma SameReplay(versions: map<int, Version>, other: map<int, Version>, table: seq<Alteration>, known: set<int>,
                   chain: seq<int>)
    requires forall i :: 0 <= i < |chain| ==> chain[i] in versions && chain[i] in other
    requires ChainAlterations(other, table, chain) == ChainAlterations(versions, table, chain)
    ensures FullReplay(other, table, known, chain) == FullReplay(versions, table, known, chain)
  {
  }

  /** Saving the record set of a version as a new snapshot keeps all snapshots correct. */
  lemma SnapshotSaved(versions: map<int, Version>, table: seq<Alteration>, known: set<int>, refs: map<int, seq<int>>,
                      chain: seq<int>, snapshot: int, ids: seq<int>)
    requires SnapshotsCorrect(versions, table, known, refs) && IsChain(versions, chain) && snapshot !in refs
    requires FullReplay(versions, table, known, chain) == Some(Ids(ids))
    ensures var v := chain[0];
      SnapshotsCorrect(versions[v := versions[v].(snapshot := Some(snapshot))], table, known, refs[snapshot := ids])
  {
    var v := chain[0];
    var other := versions[v := versions[v].(snapshot := Some(snapshot))];
    forall c | IsChain(other, c) && other[c[0]].snapshot.Some?
      ensures other[c[0]].snapshot.value in refs[snapshot := ids]
      ensures FullReplay(other, table, known, c) == Some(Ids(refs[snapshot := ids][other[c[0]].snapshot.value]))
    {
      SnapshotsDoNotMatter(versions, other, table, c);
      if c[0] == v { ChainUnique(versions, c, chain); }
    }
  }

  /** The snapshot the walk ends at lists the record set of the ancestor. */
  lemma SnapshotOf(versions: map<int, Version>, table: seq<Alteration>, known: set<int>, refs: map<int, seq<int>>,
                   chain: seq<int>, n: nat)
    requires SnapshotsCorrect(versions, table, known, refs) && IsChain(versions, chain)
    requires n < |chain| && versions[chain[n]].snapshot.Some?
    ensures versions[chain[n]].snapshot.value in refs
    ensures var ids := Ids(refs[versions[chain[n]].snapshot.value]);
      FullReplay(versions, table, known, chain[n..]) == Some(ids) && ids <= known
  {
    ChainSuffix(versions, chain, n);
  }

  lemma ChainSuffix(versions: map<int, Version>, chain: seq<int>, n: nat)
    requires IsChain(versions, chain) && n < |chain|
    ensures IsChain(versions, chain[n..]) && chain[n..][0] == chain[n]
  {
    forall i | 0 <= i < |chain[n..]| - 1 ensures versions[chain[n..][i]].parent == Some(chain[n..][i + 1]) {
      assert versions[chain[n + i]].parent == Some(chain[n + i + 1]);
    }
  }
}
