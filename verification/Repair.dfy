/** Passes that rewrite stored alterations, and what becomes of the replay. */
module Repairs {
  import opened Optional
  import opened Replays

  // ----- well-formed versions

  function Removals(alts: seq<Alteration>): set<int> {
    set a | a in alts && Removes(a) && a.prior.Some? :: a.prior.value
  }

  function Arrivals(alts: seq<Alteration>): set<int> {
    set a | a in alts && Brings(a) && a.next.Some? :: a.next.value
  }

  /** What a version is meant to make of the record set before it. */
  function Outcome(s: set<int>, alts: seq<Alteration>): set<int> { s - Removals(alts) + Arrivals(alts) }

  /** Prior records are in the set, new records are known and not yet in it. */
  ghost predicate WellFormed(known: set<int>, s: set<int>, alts: seq<Alteration>) {
    && (forall a :: a in alts && Removes(a) ==> a.prior.Some? && a.prior.value in s)
    && (forall a :: a in alts && Brings(a) ==> a.next.Some? && a.next.value in known && a.next.value !in s)
  }

  /** No record is removed twice. */
  ghost predicate RemovesOnce(alts: seq<Alteration>) {
    forall i, j :: 0 <= i < j < |alts| && Removes(alts[i]) && Removes(alts[j]) ==> alts[i].prior != alts[j].prior
  }

  /** Only moves share a prior record. */
  ghost predicate OnlyMovesRepeat(alts: seq<Alteration>) {
    forall i, j :: 0 <= i < j < |alts| && Removes(alts[i]) && Removes(alts[j]) && alts[i].prior == alts[j].prior
      ==> alts[i].kind == Move && alts[j].kind == Move
  }

  /** A well-formed version replays exactly when it removes no record twice, and then as it is meant. */
  lemma {:induction false} WellFormedReplay(known: set<int>, s: set<int>, alts: seq<Alteration>)
    requires WellFormed(known, s, alts)
    ensures RemovesOnce(alts) ==> Replay(known, s, alts) == Some(Outcome(s, alts))
    ensures !RemovesOnce(alts) ==> Replay(known, s, alts) == None
  {
    if alts == [] {
      assert Outcome(s, alts) == s;
    } else {
      var a, rest := alts[0], alts[1..];
      assert alts == [a] + rest;
      WellFormedReplay(known, s, rest);
      RemovesOnceStep(a, rest);
      if RemovesOnce(rest) {
        OutcomeStep(known, s, a, rest);
      }
    }
  }

  lemma RemovesOnceStep(a: Alteration, rest: seq<Alteration>)
    requires Removes(a) ==> a.prior.Some?
    requires forall b :: b in rest && Removes(b) ==> b.prior.Some?
    ensures RemovesOnce([a] + rest) <==> RemovesOnce(rest) && (Removes(a) ==> a.prior.value !in Removals(rest))
  {
    var alts := [a] + rest;
    if RemovesOnce(alts) {
      forall i, j | 0 <= i < j < |rest| && Removes(rest[i]) && Removes(rest[j]) ensures rest[i].prior != rest[j].prior {
        assert alts[i + 1] == rest[i] && alts[j + 1] == rest[j];
      }
      forall j | 0 <= j < |rest| && Removes(a) && Removes(rest[j]) ensures rest[j].prior != a.prior {
        assert alts[0] == a && alts[j + 1] == rest[j];
      }
    }
    if RemovesOnce(rest) && (Removes(a) ==> a.prior.value !in Removals(rest)) {
      forall i, j | 0 <= i < j < |alts| && Removes(alts[i]) && Removes(alts[j]) ensures alts[i].prior != alts[j].prior {
        assert alts[j] == rest[j - 1];
        if i == 0 {
          assert rest[j - 1] in rest;
        } else {
          assert alts[i] == rest[i - 1];
        }
      }
    }
  }

  lemma OutcomeStep(known: set<int>, s: set<int>, a: Alteration, rest: seq<Alteration>)
    requires WellFormed(known, s, [a] + rest)
    ensures !Removes(a) || a.prior.value !in Removals(rest)
      ==> Apply(known, Outcome(s, rest), a) == Some(Outcome(s, [a] + rest))
    ensures Removes(a) && a.prior.value in Removals(rest) ==> Apply(known, Outcome(s, rest), a) == None
  {
    var alts := [a] + rest;
    assert a in alts && forall b :: b in rest ==> b in alts;
    assert Removals(alts) == Removals(rest) + if Removes(a) then {a.prior.value} else {};
    assert Arrivals(alts) == Arrivals(rest) + if Brings(a) then {a.next.value} else {};
    var before, after := Outcome(s, rest), Outcome(s, alts);
    assert forall id :: id in Arrivals(rest) ==> id !in s;
    if Removes(a) && a.prior.value !in Removals(rest) {
      var p := a.prior.value;
      assert p in before && before - {p} == s - Removals(alts) + Arrivals(rest);
    }
    if Brings(a) {
      assert s - Removals(alts) + Arrivals(rest) + {a.next.value} == after;
    } else {
      assert Arrivals(rest) == Arrivals(alts);
    }
    if !Removes(a) { assert Removals(alts) == Removals(rest); }
  }

  // ----- multiple moves

  /** The records that a version moves more than once. */
  ghost predicate MovedTwice(alts: seq<Alteration>, p: int) {
    exists i, j :: 0 <= i < j < |alts| && alts[i].kind == Move && alts[j].kind == Move
      && alts[i].prior == Some(p) && alts[j].prior == Some(p)
  }

  /** Moves of these records become copies. */
  function Demoted(alts: seq<Alteration>, repeated: set<int>): (r: seq<Alteration>)
    ensures |r| == |alts|
  {
    seq(|alts|, i requires 0 <= i < |alts| => Demote(alts[i], repeated))
  }

  function Demote(a: Alteration, repeated: set<int>): Alteration {
    if a.kind == Move && a.prior.Some? && a.prior.value in repeated then a.(kind := Copy) else a
  }

  /** One deletion for each of these records. */
  ghost predicate Deletions(ds: seq<Alteration>, list: int, repeated: set<int>) {
    && (forall d :: d in ds ==> d.kind == Delete && d.owner == list && d.next == None)
    && (forall d :: d in ds ==> d.prior.Some? && d.prior.value in repeated)
    && (forall i, j :: 0 <= i < j < |ds| ==> ds[i].prior != ds[j].prior)
    && (forall p :: p in repeated ==> exists d :: d in ds && d.prior == Some(p))
  }

  /** The pass leaves a version's alterations in this form: repeated moves are copies, and each record
      so moved is deleted once, by rows stored last, which is to say applied first. */
  ghost predicate MovesFixed(before: seq<Alteration>, after: seq<Alteration>, list: int) {
    exists repeated: set<int>, ds: seq<Alteration> :: FixedWith(before, after, list, repeated, ds)
  }

  ghost predicate FixedWith(before: seq<Alteration>, after: seq<Alteration>, list: int, repeated: set<int>,
                            ds: seq<Alteration>)
  {
    && (forall p :: p in repeated <==> MovedTwice(before, p))
    && Deletions(ds, list, repeated) && after == Demoted(before, repeated) + ds
  }

  /** After the pass no source is moved twice. */
  lemma FixedMovesOnce(before: seq<Alteration>, after: seq<Alteration>, list: int)
    requires MovesFixed(before, after, list)
    ensures forall p :: !MovedTwice(after, p)
  {
    var repeated: set<int>, ds: seq<Alteration> :| FixedWith(before, after, list, repeated, ds);
    var n := |before|;
    forall k | n <= k < |after| ensures after[k].kind == Delete {
      assert after[k] == ds[k - n] && ds[k - n] in ds;
    }
    forall p, i, j | 0 <= i < j < |after| && after[i].kind == Move && after[j].kind == Move
      ensures !(after[i].prior == Some(p) && after[j].prior == Some(p))
    {
      assert after[i] == Demote(before[i], repeated) && after[j] == Demote(before[j], repeated);
      if before[i].prior == Some(p) && before[j].prior == Some(p) { assert MovedTwice(before, p); }
    }
  }

  /** The pass on the whole table, as far as it changes rows. */
  function DemotedTable(table: seq<Alteration>, list: int, repeated: set<int>): (r: seq<Alteration>)
    ensures |r| == |table|
  {
    seq(|table|, i requires 0 <= i < |table| => if table[i].owner == list then Demote(table[i], repeated) else table[i])
  }

  lemma {:induction false} OwnedDemoted(table: seq<Alteration>, list: int, repeated: set<int>)
    ensures Owned(DemotedTable(table, list, repeated), list) == Demoted(Owned(table, list), repeated)
  {
    hide Owned;
    if table == [] {
      OwnedNothing(list);
      assert DemotedTable(table, list, repeated) == [] && Demoted([], repeated) == [];
    } else {
      var n := |table| - 1;
      OwnedDemoted(table[..n], list, repeated);
      var b := DemotedTable(table, list, repeated)[n];
      assert DemotedTable(table, list, repeated) == DemotedTable(table[..n], list, repeated) + [b];
      assert table == table[..n] + [table[n]];
      OwnedSnoc(table[..n], table[n], list);
      OwnedSnoc(DemotedTable(table[..n], list, repeated), b, list);
      DemotedSnoc(Owned(table[..n], list), table[n], repeated);
    }
  }

  lemma {:induction false} OwnedUntouched(table: seq<Alteration>, list: int, repeated: set<int>, other: int)
    requires other != list
    ensures Owned(DemotedTable(table, list, repeated), other) == Owned(table, other)
  {
    hide Owned;
    if table == [] {
      OwnedNothing(other);
      assert DemotedTable(table, list, repeated) == [];
    } else {
      var n := |table| - 1;
      OwnedUntouched(table[..n], list, repeated, other);
      var b := DemotedTable(table, list, repeated)[n];
      assert DemotedTable(table, list, repeated) == DemotedTable(table[..n], list, repeated) + [b];
      assert table == table[..n] + [table[n]];
      OwnedSnoc(table[..n], table[n], other);
      OwnedSnoc(DemotedTable(table[..n], list, repeated), b, other);
    }
  }

  lemma DemotedSnoc(alts: seq<Alteration>, a: Alteration, repeated: set<int>)
    ensures Demoted(alts + [a], repeated) == Demoted(alts, repeated) + [Demote(a, repeated)]
    ensures Demoted(alts + [], repeated) == Demoted(alts, repeated) + []
  {
    assert alts + [] == alts;
  }

  lemma {:induction false} OwnedConcat(a: seq<Alteration>, b: seq<Alteration>, list: int)
    ensures Owned(a + b, list) == Owned(a, list) + Owned(b, list)
  {
    hide Owned;
    if b == [] {
      OwnedNothing(list);
      assert a + b == a;
    } else {
      var n := |b| - 1;
      OwnedConcat(a, b[..n], list);
      OwnedSnoc(b[..n], b[n], list);
      OwnedSnoc(a + b[..n], b[n], list);
      assert a + b == (a + b[..n]) + [b[n]] && b == b[..n] + [b[n]];
    }
  }

  lemma {:induction false} OwnedAll(b: seq<Alteration>, owner: int, list: int)
    requires forall a :: a in b ==> a.owner == owner
    ensures Owned(b, list) == if list == owner then b else []
  {
    hide Owned;
    if b == [] {
      OwnedNothing(list);
    } else {
      var n := |b| - 1;
      assert b[n] in b && forall a :: a in b[..n] ==> a in b;
      OwnedAll(b[..n], owner, list);
      OwnedSnoc(b[..n], b[n], list);
      assert b == b[..n] + [b[n]];
    }
  }

  lemma DemotedMember(alts: seq<Alteration>, repeated: set<int>, a: Alteration) returns (b: Alteration)
    requires a in Demoted(alts, repeated)
    ensures b in alts && a == Demote(b, repeated)
  {
    var i :| 0 <= i < |alts| && Demoted(alts, repeated)[i] == a;
    b := alts[i];
  }

  /** After the pass no record is removed twice, ... */
  lemma FixedRemovesOnce(known: set<int>, s: set<int>, before: seq<Alteration>, after: seq<Alteration>, list: int)
    requires WellFormed(known, s, before) && OnlyMovesRepeat(before) && MovesFixed(before, after, list)
    ensures RemovesOnce(after)
  {
    var repeated: set<int>, ds: seq<Alteration> :| FixedWith(before, after, list, repeated, ds);
    var n := |before|;
    forall i, j | 0 <= i < j < |after| && Removes(after[i]) && Removes(after[j])
      ensures after[i].prior != after[j].prior
    {
      if j < n {
        assert after[i] == Demote(before[i], repeated) && after[j] == Demote(before[j], repeated);
        assert Removes(before[i]) && Removes(before[j]);
        BothRemove(before, repeated, i, j);
      } else {
        assert after[j] == ds[j - n] && ds[j - n] in ds;
        if i < n {
          assert after[i] == Demote(before[i], repeated);
          StillMoved(before, repeated, i);
        } else {
          assert after[i] == ds[i - n];
        }
      }
    }
  }

  /** Of two rows with the same prior record, the first is no longer a removal. */
  lemma BothRemove(before: seq<Alteration>, repeated: set<int>, i: nat, j: nat)
    requires OnlyMovesRepeat(before) && i < j < |before| && forall p :: p in repeated <==> MovedTwice(before, p)
    requires before[i].prior.Some? && Removes(before[i]) && Removes(before[j])
    ensures before[i].prior == before[j].prior ==> !Removes(Demote(before[i], repeated))
  {
    if before[i].prior == before[j].prior {
      assert MovedTwice(before, before[i].prior.value);
    }
  }

  lemma StillMoved(before: seq<Alteration>, repeated: set<int>, i: nat)
    requires OnlyMovesRepeat(before) && i < |before| && forall p :: p in repeated <==> MovedTwice(before, p)
    requires before[i].prior.Some? && Removes(before[i])
    ensures before[i].prior.value in repeated ==> !Removes(Demote(before[i], repeated))
  {
    var p := before[i].prior.value;
    if p !in repeated { return; }
    assert MovedTwice(before, p);
    var j, k :| 0 <= j < k < |before| && before[j].kind == Move && before[k].kind == Move
      && before[j].prior == Some(p) && before[k].prior == Some(p);
    assert Removes(before[j]) && Removes(before[k]);
    if i != j && i < j { assert before[i].kind == Move; }
    if j < i { assert before[i].kind == Move; }
  }

  /** ... and the version, whether it could be replayed before or not, makes of the record set what
      it was meant to: every moved source gone, every target there. */
  lemma FixedReplay(known: set<int>, s: set<int>, before: seq<Alteration>, after: seq<Alteration>, list: int)
    requires WellFormed(known, s, before) && OnlyMovesRepeat(before) && MovesFixed(before, after, list)
    ensures Replay(known, s, after) == Some(Outcome(s, before))
    ensures Replay(known, s, before).Some? <==> forall p :: !MovedTwice(before, p)
  {
    FixedRemovesOnce(known, s, before, after, list);
    FixedOutcome(known, s, before, after, list);
    WellFormedReplay(known, s, after);
    WellFormedReplay(known, s, before);
    OnceUnlessMoved(known, s, before);
  }

  lemma OnceUnlessMoved(known: set<int>, s: set<int>, alts: seq<Alteration>)
    requires WellFormed(known, s, alts) && OnlyMovesRepeat(alts)
    ensures RemovesOnce(alts) <==> forall p :: !MovedTwice(alts, p)
  {
    if forall p :: !MovedTwice(alts, p) {
      forall i, j | 0 <= i < j < |alts| && Removes(alts[i]) && Removes(alts[j]) ensures alts[i].prior != alts[j].prior {
        assert alts[i] in alts && !MovedTwice(alts, alts[i].prior.value);
      }
    }
  }

  lemma FixedOutcome(known: set<int>, s: set<int>, before: seq<Alteration>, after: seq<Alteration>, list: int)
    requires WellFormed(known, s, before) && OnlyMovesRepeat(before) && MovesFixed(before, after, list)
    ensures WellFormed(known, s, after) && Outcome(s, after) == Outcome(s, before)
  {
    var repeated: set<int>, ds: seq<Alteration> :| FixedWith(before, after, list, repeated, ds);
    forall p | p in repeated ensures p in Removals(before) { MovedIsRemoved(before, p); }
    assert forall p :: p in Removals(before) ==> p in s;
    FixedRemovals(before, after, list, repeated, ds);
    FixedArrivals(before, after, list, repeated, ds);
    forall a | a in after ensures Removes(a) ==> a.prior.Some? && a.prior.value in s
      ensures Brings(a) ==> a.next.Some? && a.next.value in known && a.next.value !in s
    {
      FixedMember(before, after, list, repeated, ds, a);
    }
  }

  lemma MovedIsRemoved(alts: seq<Alteration>, p: int)
    requires MovedTwice(alts, p)
    ensures p in Removals(alts)
  {
    var i, j :| 0 <= i < j < |alts| && alts[i].kind == Move && alts[j].kind == Move
      && alts[i].prior == Some(p) && alts[j].prior == Some(p);
    assert alts[i] in alts;
  }

  /** A row after the pass is one from before, demoted perhaps, or a new deletion. */
  lemma FixedMember(before: seq<Alteration>, after: seq<Alteration>, list: int, repeated: set<int>, ds: seq<Alteration>,
                    a: Alteration)
    requires FixedWith(before, after, list, repeated, ds) && a in after
    ensures a in ds || exists b :: b in before && a == Demote(b, repeated)
  {
    if a !in ds {
      var b := DemotedMember(before, repeated, a);
    }
  }

  lemma FixedRemovals(before: seq<Alteration>, after: seq<Alteration>, list: int, repeated: set<int>,
                      ds: seq<Alteration>)
    requires FixedWith(before, after, list, repeated, ds)
    requires forall p :: p in repeated ==> p in Removals(before)
    ensures Removals(after) == Removals(before)
  {
    forall p | p in Removals(before) ensures p in Removals(after) {
      var b :| b in before && Removes(b) && b.prior == Some(p);
      if p in repeated {
        var d :| d in ds && d.prior == Some(p);
        assert d in after;
      } else {
        var i :| 0 <= i < |before| && before[i] == b;
        assert after[i] == b;
      }
    }
    forall p | p in Removals(after) ensures p in Removals(before) {
      var a :| a in after && Removes(a) && a.prior == Some(p);
      FixedMember(before, after, list, repeated, ds, a);
    }
  }

  lemma FixedArrivals(before: seq<Alteration>, after: seq<Alteration>, list: int, repeated: set<int>,
                      ds: seq<Alteration>)
    requires FixedWith(before, after, list, repeated, ds)
    ensures Arrivals(after) == Arrivals(before)
  {
    forall p | p in Arrivals(before) ensures p in Arrivals(after) {
      var i :| 0 <= i < |before| && Brings(before[i]) && before[i].next == Some(p);
      assert after[i] == Demote(before[i], repeated) && after[i] in after;
    }
    forall p | p in Arrivals(after) ensures p in Arrivals(before) {
      var a :| a in after && Brings(a) && a.next == Some(p);
      FixedMember(before, after, list, repeated, ds, a);
    }
  }

  // ----- the pass row by row

  lemma Indexes(table: seq<Alteration>, a: Alteration)
    requires a in table
    ensures exists j :: 0 <= j < |table| && table[j] == a
  {
  }

  /** The pass over multiple moves has dealt with a list. */
  ghost predicate Passed(before: seq<Alteration>, after: seq<Alteration>, list: int) {
    MovesFixed(Owned(before, list), Owned(after, list), list)
  }

  lemma OwnedAfter(was: seq<Alteration>, demoted: seq<Alteration>, ds: seq<Alteration>, list: int, deletions: set<int>)
    requires demoted == DemotedTable(was, list, deletions) && Deletions(ds, list, deletions)
    ensures Owned(demoted + ds, list) == Demoted(Owned(was, list), deletions) + ds
    ensures forall other :: other != list ==> Owned(demoted + ds, other) == Owned(was, other)
  {
    OwnedDemoted(was, list, deletions);
    OwnedConcat(demoted, ds, list);
    OwnedAll(ds, list, list);
    forall other | other != list ensures Owned(demoted + ds, other) == Owned(was, other) {
      OwnedUntouched(was, list, deletions, other);
      OwnedConcat(demoted, ds, other);
      OwnedAll(ds, list, other);
    }
  }

  /** Every record that the new alterations bring is one that the old ones brought. */
  ghost predicate BringsNoMore(before: seq<Alteration>, after: seq<Alteration>) {
    forall a :: a in after && a.next.Some? ==> exists b :: b in before && b.next == a.next
  }

  lemma BringsNoMoreTrans(a: seq<Alteration>, b: seq<Alteration>, c: seq<Alteration>)
    requires BringsNoMore(a, b) && BringsNoMore(b, c)
    ensures BringsNoMore(a, c)
  {
  }

  lemma DemotedBrings(was: seq<Alteration>, ds: seq<Alteration>, list: int, deletions: set<int>)
    requires Deletions(ds, list, deletions)
    ensures BringsNoMore(was, DemotedTable(was, list, deletions) + ds)
  {
    var demoted := DemotedTable(was, list, deletions);
    forall a | a in demoted + ds && a.next.Some? ensures exists b :: b in was && b.next == a.next {
      if a !in ds {
        var i :| 0 <= i < |demoted| && demoted[i] == a;
        assert was[i] in was && was[i].next == a.next;
      }
    }
  }

  /** Each record moved repeatedly has been met among the rows of the list. */
  lemma DemotedAll(was: seq<Alteration>, list: int, p: int, deletions: set<int>)
    requires MovedTwice(Owned(was, list), p)
    requires forall j ::
      0 <= j < |was| && was[j].owner == list && was[j].kind == Move && was[j].prior == Some(p) ==> p in deletions
    ensures p in deletions
  {
    var owned := Owned(was, list);
    var k, l :| 0 <= k < l < |owned| && owned[k].kind == Move && owned[l].kind == Move
      && owned[k].prior == Some(p) && owned[l].prior == Some(p);
    assert owned[k] in was;
    Indexes(was, owned[k]);
  }

  lemma NothingDemoted(alts: seq<Alteration>)
    ensures Demoted(alts, {}) == alts
  {
  }

  lemma PassedOnce(before: seq<Alteration>, after: seq<Alteration>, list: int)
    ensures Passed(before, after, list) ==> forall p :: !MovedTwice(Owned(after, list), p)
  {
    if Passed(before, after, list) { FixedMovesOnce(Owned(before, list), Owned(after, list), list); }
  }

  lemma PassedSame(before: seq<Alteration>, now: seq<Alteration>, after: seq<Alteration>)
    ensures forall list ::
      Owned(after, list) == Owned(now, list) ==> (Passed(before, after, list) <==> Passed(before, now, list))
    ensures forall list ::
      Owned(now, list) == Owned(before, list) && Passed(now, after, list) ==> Passed(before, after, list)
  {
  }

  /** The pass over all versions has yet to deal with the rest of them. */
  ghost predicate PassedBut(versions: map<int, Version>, prior: map<int, Version>, rest: set<int>,
                            before: seq<Alteration>, after: seq<Alteration>)
  {
    && rest <= versions.Keys == prior.Keys && BringsNoMore(before, after)
    && (forall v :: v in versions ==> versions[v] == if v in rest then prior[v] else prior[v].(snapshot := None))
    && (forall v :: v in versions && v !in rest ==> Passed(before, after, versions[v].list))
    && (forall v :: v in rest ==> var list := versions[v].list;
      Passed(before, after, list) || Owned(after, list) == Owned(before, list))
  }

  lemma PassStart(versions: map<int, Version>, table: seq<Alteration>)
    ensures PassedBut(versions, versions, versions.Keys, table, table)
  {
    hide Passed, Owned;
  }

  /** One more version, whose list another one may share. */
  lemma PassStep(versions: map<int, Version>, prior: map<int, Version>, rest: set<int>, x: int, before: seq<Alteration>,
                 now: seq<Alteration>, after: seq<Alteration>)
    requires PassedBut(versions, prior, rest, before, now) && x in rest && BringsNoMore(now, after)
    requires Passed(now, after, versions[x].list)
    requires (forall p :: !MovedTwice(Owned(now, versions[x].list), p)) ==>
      Owned(after, versions[x].list) == Owned(now, versions[x].list)
    requires forall other :: other != versions[x].list ==> Owned(after, other) == Owned(now, other)
    ensures PassedBut(versions[x := versions[x].(snapshot := None)], prior, rest - {x}, before, after)
  {
    hide Passed, Owned, MovedTwice, BringsNoMore;
    var list := versions[x].list;
    BringsNoMoreTrans(before, now, after);
    PassedOnce(before, now, list);
    PassedSame(before, now, after);
    assert Passed(before, after, list);
  }

  /** Every move of the list has a prior record. */
  ghost predicate Sourced(table: seq<Alteration>, list: int) {
    forall a :: a in table && a.owner == list && a.kind == Move ==> a.prior.Some?
  }

  /** The pass neither adds nor takes away moves without a prior record. */
  lemma PassedSourced(before: seq<Alteration>, after: seq<Alteration>, list: int)
    requires Passed(before, after, list) || Owned(after, list) == Owned(before, list)
    ensures Sourced(before, list) <==> Sourced(after, list)
  {
    var b, a := Owned(before, list), Owned(after, list);
    if Passed(before, after, list) {
      var repeated: set<int>, ds: seq<Alteration> :| FixedWith(b, a, list, repeated, ds);
      forall x | x in b && x.kind == Move && x.prior.None? ensures x in a {
        var i :| 0 <= i < |b| && b[i] == x;
        assert a[i] == Demote(b[i], repeated);
      }
      forall x | x in a && x.kind == Move && x.prior.None? ensures x in b {
        FixedMember(b, a, list, repeated, ds, x);
      }
    }
    assert Sourced(before, list) <==> forall x :: x in b && x.kind == Move ==> x.prior.Some?;
    assert Sourced(after, list) <==> forall x :: x in a && x.kind == Move ==> x.prior.Some?;
  }

  lemma DeletionAdded(ds: seq<Alteration>, list: int, deletions: set<int>, rest: set<int>, s: int, alt: Alteration)
    requires rest <= deletions && s in rest && Deletions(ds, list, deletions - rest)
    requires alt.kind == Delete && alt.owner == list && alt.prior == Some(s) && alt.next == None
    ensures Deletions(ds + [alt], list, deletions - (rest - {s}))
  {
    var es := ds + [alt];
    forall i, j | 0 <= i < j < |es| ensures es[i].prior != es[j].prior {
      if j == |ds| { assert ds[i] in ds; }
    }
    forall p | p in deletions - (rest - {s}) ensures exists d :: d in es && d.prior == Some(p) {
      if p == s {
        assert alt in es;
      } else {
        assert p in deletions - rest;
        var d :| d in ds && d.prior == Some(p);
        assert d in es;
      }
    }
  }

  /** A record that the alterations move. */
  ghost predicate MovedIn(alts: seq<Alteration>, p: int) {
    exists i :: 0 <= i < |alts| && alts[i].kind == Move && alts[i].prior == Some(p)
  }

  /** Records moved once are marked true, records moved more often false. */
  ghost predicate Tally(alts: seq<Alteration>, found: map<int, bool>) {
    && (forall p :: p in found <==> MovedIn(alts, p))
    && (forall p :: MovedTwice(alts, p) <==> p in found && !found[p])
  }

  lemma TallyStart()
    ensures Tally([], map[])
  {
  }

  lemma TallyStep(alts: seq<Alteration>, s: Alteration, found: map<int, bool>)
    requires Tally(alts, found)
    ensures s.kind == Move && s.prior.Some? ==> Tally(alts + [s], found[s.prior.value := s.prior.value !in found])
    ensures s.kind != Move ==> Tally(alts + [s], found)
  {
    hide MovedIn, MovedTwice;
    if s.kind == Move && s.prior.Some? { MovedOneMore(alts, s); }
    if s.kind != Move { MovedNoMore(alts, s); }
  }

  lemma TallyEnd(table: seq<Alteration>, list: int, found: map<int, bool>)
    requires Tally(Owned(table, list), found)
    requires forall a :: a in table && a.owner == list && a.kind == Move ==> a.prior.Some?
    ensures forall p :: MovedTwice(Owned(table, list), p) <==> p in found && !found[p]
    ensures forall a :: a in table && a.owner == list && a.kind == Move ==> a.prior.value in found
  {
    forall a | a in table && a.owner == list && a.kind == Move ensures a.prior.value in found {
      var owned := Owned(table, list);
      var k :| 0 <= k < |owned| && owned[k] == a;
      assert MovedIn(owned, a.prior.value);
    }
  }

  lemma MovedOneMore(alts: seq<Alteration>, s: Alteration)
    requires s.kind == Move && s.prior.Some?
    ensures forall p :: MovedIn(alts + [s], p) <==> MovedIn(alts, p) || s.prior == Some(p)
    ensures forall p :: MovedTwice(alts + [s], p) <==> MovedTwice(alts, p) || (s.prior == Some(p) && MovedIn(alts, p))
  {
    var t, n := alts + [s], |alts|;
    forall p ensures MovedIn(t, p) <==> MovedIn(alts, p) || s.prior == Some(p) {
      if MovedIn(alts, p) {
        var i :| 0 <= i < n && alts[i].kind == Move && alts[i].prior == Some(p);
        assert t[i] == alts[i];
      }
      assert t[n] == s;
    }
    forall p ensures MovedTwice(t, p) <==> MovedTwice(alts, p) || (s.prior == Some(p) && MovedIn(alts, p)) {
      if MovedTwice(alts, p) {
        var i, j :| 0 <= i < j < n && alts[i].kind == Move && alts[j].kind == Move
          && alts[i].prior == Some(p) && alts[j].prior == Some(p);
        assert t[i] == alts[i] && t[j] == alts[j];
      }
      if s.prior == Some(p) && MovedIn(alts, p) {
        var i :| 0 <= i < n && alts[i].kind == Move && alts[i].prior == Some(p);
        assert t[i] == alts[i] && t[n] == s;
      }
    }
  }

  lemma MovedNoMore(alts: seq<Alteration>, s: Alteration)
    requires s.kind != Move
    ensures forall p :: MovedIn(alts + [s], p) <==> MovedIn(alts, p)
    ensures forall p :: MovedTwice(alts + [s], p) <==> MovedTwice(alts, p)
  {
    var t, n := alts + [s], |alts|;
    forall p ensures MovedIn(t, p) <==> MovedIn(alts, p) {
      if MovedIn(alts, p) {
        var i :| 0 <= i < n && alts[i].kind == Move && alts[i].prior == Some(p);
        assert t[i] == alts[i];
      }
    }
    forall p ensures MovedTwice(t, p) <==> MovedTwice(alts, p) {
      if MovedTwice(alts, p) {
        var i, j :| 0 <= i < j < n && alts[i].kind == Move && alts[j].kind == Move
          && alts[i].prior == Some(p) && alts[j].prior == Some(p);
        assert t[i] == alts[i] && t[j] == alts[j];
      }
    }
  }

  // ----- the pass along a chain

  /** What the versions of a chain are meant to add up to. */
  function Intended(versions: map<int, Version>, table: seq<Alteration>, chain: seq<int>): set<int>
    requires forall i :: 0 <= i < |chain| ==> chain[i] in versions
  {
    if chain == [] then {}
    else Outcome(Intended(versions, table, chain[1..]), Owned(table, versions[chain[0]].list))
  }

  /** Every version of the chain is well formed but for repeated moves. */
  ghost predicate ChainWellFormed(versions: map<int, Version>, table: seq<Alteration>, known: set<int>, chain: seq<int>)
    requires forall i :: 0 <= i < |chain| ==> chain[i] in versions
  {
    chain != [] ==>
      && WellFormed(known, Intended(versions, table, chain[1..]), Owned(table, versions[chain[0]].list))
      && OnlyMovesRepeat(Owned(table, versions[chain[0]].list))
      && ChainWellFormed(versions, table, known, chain[1..])
  }

  /** Once the pass has been over all versions, a chain replays to what its versions meant. */
  lemma {:induction false} FixedChainReplays(versions: map<int, Version>, before: seq<Alteration>,
                                             after: seq<Alteration>,
                                             known: set<int>, chain: seq<int>)
    requires forall i :: 0 <= i < |chain| ==> chain[i] in versions
    requires forall v ::
      v in versions ==> MovesFixed(Owned(before, versions[v].list), Owned(after, versions[v].list), versions[v].list)
    requires ChainWellFormed(versions, before, known, chain)
    ensures FullReplay(versions, after, known, chain) == Some(Intended(versions, before, chain))
  {
    if chain == [] {
    } else {
      FixedChainReplays(versions, before, after, known, chain[1..]);
      FullReplayStep(versions, after, known, chain);
      var list := versions[chain[0]].list;
      assert chain[0] in versions;
      FixedReplay(known, Intended(versions, before, chain[1..]), Owned(before, list), Owned(after, list), list);
    }
  }

  /** What the pass makes of the replay of a chain: if it was meant well, it is what was meant. */
  ghost predicate Mended(versions: map<int, Version>, before: seq<Alteration>, versions': map<int, Version>,
                         after: seq<Alteration>, known: set<int>, chain: seq<int>)
    requires versions.Keys == versions'.Keys
  {
    IsChain(versions, chain) && ChainWellFormed(versions, before, known, chain) ==>
      FullReplay(versions', after, known, chain) == Some(Intended(versions, before, chain))
  }

  lemma PassMends(versions: map<int, Version>, before: seq<Alteration>, versions': map<int, Version>,
                  after: seq<Alteration>,
                  known: set<int>, chain: seq<int>)
    requires versions.Keys == versions'.Keys
    requires forall v :: v in versions ==> versions'[v] == versions[v].(snapshot := None)
    requires forall v :: v in versions ==> Passed(before, after, versions[v].list)
    ensures Mended(versions, before, versions', after, known, chain)
  {
    hide MovesFixed, FullReplay, Intended, ChainWellFormed, ChainAlterations;
    if IsChain(versions, chain) && ChainWellFormed(versions, before, known, chain) {
      InChain(versions, chain);
      FixedChainReplays(versions, before, after, known, chain);
      SnapshotsDoNotMatter(versions, versions', after, chain);
      SameReplay(versions, versions', after, known, chain);
    }
  }
}
