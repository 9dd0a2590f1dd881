/** Merging duplicate records, and relinking the alterations that mention them. */
module Duplicates {
  import opened Optional
  import opened Replays

  datatype Key = Key(uid: string, nameId: int, time: int)

  function KeyOf(row: Row): Key { Key(row.uid, row.nameId, row.time) }

  /** The first row with a key. */
  function FirstWith(rows: seq<Row>, key: Key): (r: Option<Row>)
    ensures r.Some? ==> r.value in rows && KeyOf(r.value) == key
    ensures r.None? ==> forall row :: row in rows ==> KeyOf(row) != key
  {
    if rows == [] then None
    else
      var n := |rows| - 1;
      var r := FirstWith(rows[..n], key);
      if r.Some? then r else if KeyOf(rows[n]) == key then Some(rows[n]) else None
  }

  /** Each duplicate with the record that stays in its place. */
  function MergeMap(rows: seq<Row>): (m: map<int, int>)
    ensures forall id :: id in m ==> exists row :: row in rows && row.id == id
  {
    if rows == [] then map[]
    else
      var n := |rows| - 1;
      var first := FirstWith(rows[..n], KeyOf(rows[n]));
      if first.Some? then MergeMap(rows[..n])[rows[n].id := first.value.id] else MergeMap(rows[..n])
  }

  /** The rows that stay. */
  function Merged(rows: seq<Row>): (r: seq<Row>)
    ensures forall row :: row in r ==> row in rows
  {
    if rows == [] then []
    else
      var n := |rows| - 1;
      Merged(rows[..n]) + if FirstWith(rows[..n], KeyOf(rows[n])).Some? then [] else [rows[n]]
  }

  function Mapped(m: map<int, int>, id: int): int { if id in m then m[id] else id }

  function MappedLink(m: map<int, int>, id: Option<int>): Option<int> {
    if id.Some? then Some(Mapped(m, id.value)) else None
  }

  function Relink(m: map<int, int>, a: Alteration): Alteration {
    a.(prior := MappedLink(m, a.prior), next := MappedLink(m, a.next))
  }

  function Relinked(m: map<int, int>, table: seq<Alteration>): (r: seq<Alteration>)
    ensures |r| == |table|
  {
    seq(|table|, i requires 0 <= i < |table| => Relink(m, table[i]))
  }

  function Image(m: map<int, int>, s: set<int>): set<int> { set id | id in s :: Mapped(m, id) }

  // ----- names

  ghost predicate UniqueNames(names: seq<ObjectName>) {
    forall i, j :: 0 <= i < j < |names| ==> names[i].name != names[j].name
  }

  /** A row with another name id, but the same name. */
  ghost predicate Renamed(row: Row, names: seq<ObjectName>, row': Row, names': seq<ObjectName>) {
    row' == row.(nameId := row'.nameId) && FindName(names', row'.nameId) == FindName(names, row.nameId)
  }

  lemma {:induction false} NumberedName(names: seq<ObjectName>, k: nat)
    requires k < |names| && forall i :: 0 <= i < |names| ==> names[i].id == i + 1
    ensures FindName(names, k + 1) == Some(names[k].name)
  {
    if k < |names| - 1 { NumberedName(names[..|names| - 1], k); }
  }

  lemma FindNameSnoc(names: seq<ObjectName>, n: ObjectName, id: int)
    ensures FindName(names + [n], id) == if n.id == id then Some(n.name) else FindName(names, id)
  {
    assert (names + [n])[..|names|] == names;
  }

  /** The index tells for each stored name its id, counted from 1. */
  ghost predicate Indexed(names: seq<ObjectName>, index: map<string, int>) {
    && (forall k :: 0 <= k < |names| ==> names[k].id == k + 1)
    && (forall k :: 0 <= k < |names| ==> names[k].name in index && index[names[k].name] == k + 1)
    && (forall name :: name in index ==> 1 <= index[name] <= |names| && names[index[name] - 1].name == name)
  }

  /** Every name once, in the order of its first occurrence, numbered from 1. */
  function Canonical(names: seq<ObjectName>): (r: seq<ObjectName>)
    ensures forall k :: 0 <= k < |r| ==> r[k].id == k + 1
    ensures UniqueNames(r)
  {
    if names == [] then []
    else
      var n := |names| - 1;
      var r := Canonical(names[..n]);
      if exists k :: 0 <= k < |r| && r[k].name == names[n].name then r else r + [ObjectName(|r| + 1, names[n].name)]
  }

  ghost predicate HasName(names: seq<ObjectName>, name: string) {
    exists k :: 0 <= k < |names| && names[k].name == name
  }

  /** The canonical table has the names that the old one had. */
  lemma {:induction false} CanonicalNames(names: seq<ObjectName>, name: string)
    ensures HasName(Canonical(names), name) <==> HasName(names, name)
  {
    if names != [] {
      var n := |names| - 1;
      var r, t := Canonical(names[..n]), Canonical(names);
      CanonicalNames(names[..n], name);
      HasNameSnoc(names[..n], names[n], name);
      assert names == names[..n] + [names[n]];
      if t != r { HasNameSnoc(r, t[|r|], name); }
    }
  }

  lemma HasNameSnoc(names: seq<ObjectName>, x: ObjectName, name: string)
    ensures HasName(names + [x], name) <==> HasName(names, name) || x.name == name
  {
    var all := names + [x];
    assert all[|names|] == x;
    forall k | 0 <= k < |names| ensures all[k] == names[k] {}
  }

  /** Each old id is mapped to the new id of the same name. */
  ghost predicate MapsNames(prior: seq<ObjectName>, names: seq<ObjectName>, mapping: map<int, int>) {
    && (forall id :: id in mapping <==> FindName(prior, id).Some?)
    && (forall id :: id in mapping ==> 1 <= mapping[id] <= |names|)
    && (forall id :: id in mapping ==> FindName(prior, id) == Some(names[mapping[id] - 1].name))
  }

  lemma MapsOneMore(prior: seq<ObjectName>, x: ObjectName, names: seq<ObjectName>, more: seq<ObjectName>,
                    mapping: map<int, int>, k: int)
    requires MapsNames(prior, names, mapping) && 1 <= k <= |names + more| && (names + more)[k - 1].name == x.name
    ensures MapsNames(prior + [x], names + more, mapping[x.id := k])
  {
    hide FindName;
    var all, mapping' := names + more, mapping[x.id := k];
    forall id ensures FindName(prior + [x], id) == if x.id == id then Some(x.name) else FindName(prior, id) {
      FindNameSnoc(prior, x, id);
    }
    forall id | id in mapping'
      ensures 1 <= mapping'[id] <= |all| && FindName(prior + [x], id) == Some(all[mapping'[id] - 1].name)
    {
      if id != x.id { assert all[mapping[id] - 1] == names[mapping[id] - 1]; }
    }
  }

  /** The tables of the first loop after the names so far. */
  ghost predicate Collected(prior: seq<ObjectName>, table: seq<ObjectName>, index: map<string, int>,
                            mapping: map<int, int>)
  {
    table == Canonical(prior) && Indexed(table, index) && MapsNames(prior, table, mapping)
  }

  lemma NothingCollected()
    ensures Collected([], [], map[], map[])
  {
  }

  lemma OldName(prior: seq<ObjectName>, x: ObjectName, table: seq<ObjectName>, index: map<string, int>,
                mapping: map<int, int>)
    requires Collected(prior, table, index, mapping) && x.name in index
    ensures Collected(prior + [x], table, index, mapping[x.id := index[x.name]])
  {
    hide MapsNames, FindName;
    var k := index[x.name];
    assert table[k - 1].name == x.name && (prior + [x])[..|prior|] == prior && table + [] == table;
    MapsOneMore(prior, x, table, [], mapping, k);
  }

  lemma NewName(prior: seq<ObjectName>, x: ObjectName, table: seq<ObjectName>, index: map<string, int>,
                mapping: map<int, int>)
    requires Collected(prior, table, index, mapping) && x.name !in index
    ensures var id := |table| + 1;
      Collected(prior + [x], table + [ObjectName(id, x.name)], index[x.name := id], mapping[x.id := id])
  {
    hide MapsNames, FindName, Canonical;
    CanonicalNew(prior, x, table, index);
    IndexedNew(table, index, x.name);
    var id := |table| + 1;
    var more := [ObjectName(id, x.name)];
    assert (table + more)[id - 1] == more[0];
    MapsOneMore(prior, x, table, more, mapping, id);
  }

  lemma CanonicalNew(prior: seq<ObjectName>, x: ObjectName, table: seq<ObjectName>, index: map<string, int>)
    requires table == Canonical(prior) && Indexed(table, index) && x.name !in index
    ensures Canonical(prior + [x]) == table + [ObjectName(|table| + 1, x.name)]
  {
    assert (prior + [x])[..|prior|] == prior;
  }

  lemma IndexedNew(names: seq<ObjectName>, index: map<string, int>, name: string)
    requires Indexed(names, index) && name !in index
    ensures Indexed(names + [ObjectName(|names| + 1, name)], index[name := |names| + 1])
  {
  }

  lemma RenamedOne(prior: seq<ObjectName>, table: seq<ObjectName>, mapping: map<int, int>, row: Row)
    requires MapsNames(prior, table, mapping) && forall k :: 0 <= k < |table| ==> table[k].id == k + 1
    ensures row.nameId in mapping <==> FindName(prior, row.nameId).Some?
    ensures row.nameId in mapping ==> Renamed(row, prior, row.(nameId := mapping[row.nameId]), table)
  {
    if row.nameId in mapping { NumberedName(table, mapping[row.nameId] - 1); }
  }

  /** With unique names, rows have one key exactly if they have the same data, name string and time. */
  lemma KeysAreContents(names: seq<ObjectName>, a: Row, b: Row)
    requires UniqueNames(names) && FindName(names, a.nameId).Some? && FindName(names, b.nameId).Some?
    requires forall i, j :: 0 <= i < j < |names| ==> names[i].id != names[j].id
    ensures KeyOf(a) == KeyOf(b)
      <==> a.uid == b.uid && a.time == b.time && FindName(names, a.nameId) == FindName(names, b.nameId)
  {
    NameAt(names, a.nameId);
    NameAt(names, b.nameId);
  }

  lemma {:induction false} NameAt(names: seq<ObjectName>, id: int)
    requires FindName(names, id).Some?
    ensures exists i :: 0 <= i < |names| && names[i].id == id && FindName(names, id) == Some(names[i].name)
  {
    var n := |names| - 1;
    if names[n].id != id {
      NameAt(names[..n], id);
      var i :| 0 <= i < n && names[..n][i].id == id && FindName(names[..n], id) == Some(names[..n][i].name);
      assert names[i].id == id;
    }
  }

  /** Two records with the same data, name and time. */
  ghost predicate SameContents(a: Record, b: Record) {
    a.row.uid == b.row.uid && a.row.time == b.row.time && a.name == b.name
  }

  /** After the names pass every record is found as before, with the same contents. */
  lemma {:induction false} RenamedRecord(rows: seq<Row>, names: seq<ObjectName>, rows': seq<Row>,
                                         names': seq<ObjectName>,
                                         id: int)
    requires |rows| == |rows'| && forall i :: 0 <= i < |rows| ==> Renamed(rows[i], names, rows'[i], names')
    ensures var was := FindRecord(rows, names, id); var now := FindRecord(rows', names', id);
      was.Some? == now.Some? && (was.Some? ==> SameContents(was.value, now.value))
  {
    if rows != [] {
      var n := |rows| - 1;
      if rows[n].id != id { RenamedRecord(rows[..n], names, rows'[..n], names', id); }
    }
  }

  // ----- the rows that stay

  ghost predicate UniqueIds(rows: seq<Row>) {
    forall i, j :: 0 <= i < j < |rows| ==> rows[i].id != rows[j].id
  }

  lemma {:induction false} FirstWithGrows(rows: seq<Row>, n: nat, key: Key)
    requires n <= |rows| && FirstWith(rows[..n], key).Some?
    ensures FirstWith(rows, key) == FirstWith(rows[..n], key)
  {
    if n == |rows| {
      assert rows[..n] == rows;
    } else {
      var k := |rows| - 1;
      assert rows[..k][..n] == rows[..n];
      FirstWithGrows(rows[..k], n, key);
    }
  }

  /** A merged row goes to the first row with its key, every other row to itself. */
  lemma {:induction false} MergeMapFirst(rows: seq<Row>, row: Row)
    requires UniqueIds(rows) && row in rows
    ensures FirstWith(rows, KeyOf(row)).Some? && Mapped(MergeMap(rows), row.id) == FirstWith(rows, KeyOf(row)).value.id
  {
    var n := |rows| - 1;
    var rest := rows[..n];
    assert rows == rest + [rows[n]];
    if row == rows[n] {
      assert forall r :: r in rest ==> r.id != row.id;
    } else {
      MergeMapFirst(rest, row);
      FirstWithGrows(rows, n, KeyOf(row));
      assert row.id != rows[n].id;
    }
  }

  lemma {:induction false} MergedHas(rows: seq<Row>, key: Key)
    requires FirstWith(rows, key).Some?
    ensures FirstWith(rows, key).value in Merged(rows)
  {
    var n := |rows| - 1;
    if FirstWith(rows[..n], key).Some? { MergedHas(rows[..n], key); }
  }

  lemma {:induction false} MergedUnique(rows: seq<Row>)
    requires UniqueIds(rows)
    ensures UniqueIds(Merged(rows))
    ensures forall i, j :: 0 <= i < j < |Merged(rows)| ==> KeyOf(Merged(rows)[i]) != KeyOf(Merged(rows)[j])
  {
    if rows != [] {
      var n := |rows| - 1;
      var rest := rows[..n];
      MergedUnique(rest);
      var m := Merged(rest);
      forall i | 0 <= i < |m|
        ensures m[i].id != rows[n].id
        ensures FirstWith(rest, KeyOf(rows[n])).None? ==> KeyOf(m[i]) != KeyOf(rows[n])
      {
        assert m[i] in rest;
      }
    }
  }

  lemma {:induction false} FindRowUnique(rows: seq<Row>, row: Row)
    requires UniqueIds(rows) && row in rows
    ensures FindRow(rows, row.id) == Some(row)
  {
    var n := |rows| - 1;
    if row != rows[n] {
      assert rows == rows[..n] + [rows[n]];
      FindRowUnique(rows[..n], row);
    }
  }

  /** A record and the one that stands for it afterwards have the same data, name and time. */
  lemma MergedRecord(rows: seq<Row>, names: seq<ObjectName>, id: int)
    requires UniqueIds(rows) && FindRecord(rows, names, id).Some?
    ensures var was := FindRecord(rows, names, id).value;
      var now := FindRecord(Merged(rows), names, Mapped(MergeMap(rows), id));
      now.Some? && KeyOf(now.value.row) == KeyOf(was.row) && now.value.name == was.name
  {
    var row := FindRow(rows, id).value;
    MergeMapFirst(rows, row);
    var first := FirstWith(rows, KeyOf(row)).value;
    MergedHas(rows, KeyOf(row));
    MergedUnique(rows);
    FindRowUnique(Merged(rows), first);
  }

  lemma {:induction false} MergedFirst(rows: seq<Row>, row: Row)
    requires row in Merged(rows)
    ensures FirstWith(rows, KeyOf(row)) == Some(row)
  {
    var n := |rows| - 1;
    if row in Merged(rows[..n]) {
      MergedFirst(rows[..n], row);
      FirstWithGrows(rows, n, KeyOf(row));
    }
  }

  lemma {:induction false} MergeMapMoves(rows: seq<Row>)
    requires UniqueIds(rows)
    ensures forall id :: id in MergeMap(rows) ==> MergeMap(rows)[id] != id
  {
    if rows != [] {
      var n := |rows| - 1;
      MergeMapMoves(rows[..n]);
      assert forall row :: row in rows[..n] ==> row.id != rows[n].id;
    }
  }

  /** A record that was merged is not found any more, all others are found as before. */
  lemma MergedFind(rows: seq<Row>, id: int)
    requires UniqueIds(rows)
    ensures FindRow(Merged(rows), id) == if id in MergeMap(rows) then None else FindRow(rows, id)
  {
    hide MergeMap, Merged, FirstWith;
    var found := FindRow(Merged(rows), id);
    if found.Some? {
      MergedFirst(rows, found.value);
      MergeMapFirst(rows, found.value);
      MergeMapMoves(rows);
      FindRowUnique(rows, found.value);
    } else if id !in MergeMap(rows) && FindRow(rows, id).Some? {
      var row := FindRow(rows, id).value;
      MergeMapFirst(rows, row);
      var first := FirstWith(rows, KeyOf(row)).value;
      FindRowUnique(rows, first);
      MergedHas(rows, KeyOf(row));
    }
  }

  /** No relinked alteration mentions a record that was merged. */
  lemma MergedGone(rows: seq<Row>, id: int, x: int)
    requires UniqueIds(rows) && id in MergeMap(rows)
    ensures Mapped(MergeMap(rows), x) != id
  {
    var m := MergeMap(rows);
    MergeMapMoves(rows);
    if x in m {
      var row :| row in rows && row.id == x;
      MergeMapFirst(rows, row);
      MergeMapFirst(rows, FirstWith(rows, KeyOf(row)).value);
    }
  }

  // ----- relinking step by step

  lemma {:induction false} MergeMapValues(rows: seq<Row>)
    ensures forall id :: id in MergeMap(rows) ==> exists row :: row in rows && row.id == MergeMap(rows)[id]
  {
    if rows != [] {
      var n := |rows| - 1;
      var rest, m := rows[..n], MergeMap(rows);
      MergeMapValues(rest);
      forall id | id in m ensures exists row :: row in rows && row.id == m[id] {
        var first := FirstWith(rest, KeyOf(rows[n]));
        if id in MergeMap(rest) && m[id] == MergeMap(rest)[id] {
          var row :| row in rest && row.id == m[id];
          assert row in rows;
        } else {
          assert first.value in rows && first.value.id == m[id];
        }
      }
    }
  }

  lemma RelinkTwice(m: map<int, int>, x: int, to: int, a: Alteration)
    requires x !in m && forall id :: id in m ==> m[id] != x
    ensures Relink(map[x := to], Relink(m, a)) == Relink(m[x := to], a)
  {
  }

  /** Merging one more duplicate. */
  lemma RelinkedOneMore(rows: seq<Row>, x: Row, first: Row, table: seq<Alteration>)
    requires UniqueIds(rows + [x]) && FirstWith(rows, KeyOf(x)) == Some(first)
    ensures Relinked(map[x.id := first.id], Relinked(MergeMap(rows), table)) == Relinked(MergeMap(rows + [x]), table)
    ensures Merged(rows + [x]) == Merged(rows)
  {
    var all := rows + [x];
    assert all[..|rows|] == rows;
    MergeMapValues(rows);
    forall row | row in rows ensures row.id != x.id {
      var i :| 0 <= i < |rows| && rows[i] == row;
      assert all[i] == row && all[|rows|] == x;
    }
    forall i | 0 <= i < |table|
      ensures Relink(map[x.id := first.id], Relink(MergeMap(rows), table[i])) == Relink(MergeMap(all), table[i])
    {
      RelinkTwice(MergeMap(rows), x.id, first.id, table[i]);
    }
  }

  lemma RelinkedNoMore(rows: seq<Row>, x: Row)
    requires FirstWith(rows, KeyOf(x)) == None
    ensures MergeMap(rows + [x]) == MergeMap(rows) && Merged(rows + [x]) == Merged(rows) + [x]
  {
    assert (rows + [x])[..|rows|] == rows;
  }

  /** The dictionary holds the first row with each key. */
  ghost predicate Firsts(rows: seq<Row>, records: map<Key, Row>) {
    && (forall key :: key in records <==> FirstWith(rows, key).Some?)
    && (forall key :: key in records ==> FirstWith(rows, key) == Some(records[key]))
  }

  lemma FirstsOneMore(rows: seq<Row>, records: map<Key, Row>, x: Row)
    requires Firsts(rows, records)
    ensures Firsts(rows + [x], if KeyOf(x) in records then records else records[KeyOf(x) := x])
  {
    forall key { FirstWithSnoc(rows, x, key); }
  }

  lemma FirstWithSnoc(rows: seq<Row>, x: Row, key: Key)
    ensures FirstWith(rows + [x], key)
         == if FirstWith(rows, key).Some? then FirstWith(rows, key) else if KeyOf(x) == key then Some(x) else None
  {
    assert (rows + [x])[..|rows|] == rows;
  }

  lemma UniqueRenamed(rows: seq<Row>, names: seq<ObjectName>, rows': seq<Row>, names': seq<ObjectName>)
    requires UniqueIds(rows) && |rows| == |rows'| && forall i ::
      0 <= i < |rows| ==> Renamed(rows[i], names, rows'[i], names')
    ensures UniqueIds(rows')
  {
    forall i, j | 0 <= i < j < |rows'| ensures rows'[i].id != rows'[j].id {
      assert Renamed(rows[i], names, rows'[i], names') && Renamed(rows[j], names, rows'[j], names');
    }
  }

  lemma MergeStart(table: seq<Alteration>)
    ensures MergeMap([]) == map[] && Merged([]) == [] && Firsts([], map[])
    ensures Relinked(map[], table) == table
  {
  }

  lemma FirstsHas(rows: seq<Row>, records: map<Key, Row>, key: Key)
    requires Firsts(rows, records)
    ensures FirstWith(rows, key) == if key in records then Some(records[key]) else None
  {
  }

  lemma RowAt(rows: seq<Row>, i: nat)
    requires i < |rows|
    ensures rows[..i + 1] == rows[..i] + [rows[i]] && rows[i..] == [rows[i]] + rows[i + 1..]
  {
  }

  lemma CutRow(a: seq<Row>, x: Row, b: seq<Row>)
    ensures (a + ([x] + b))[..|a|] + (a + ([x] + b))[|a| + 1..] == a + b
    ensures (a + [x]) + b == a + ([x] + b)
  {
  }

  lemma UniquePrefix(rows: seq<Row>, n: nat)
    requires UniqueIds(rows) && n <= |rows|
    ensures UniqueIds(rows[..n])
  {
  }

  // ----- replay

  /** Two records of the set have the same key as far as m tells. */
  ghost predicate Twins(m: map<int, int>, s: set<int>, p: int) {
    exists q :: q in s && q != p && Mapped(m, q) == Mapped(m, p)
  }

  lemma ImageAdd(m: map<int, int>, s: set<int>, id: int)
    ensures Image(m, s + {id}) == Image(m, s) + {Mapped(m, id)}
  {
  }

  lemma ImageRemove(m: map<int, int>, s: set<int>, id: int)
    requires id in s
    ensures !Twins(m, s, id) ==> Image(m, s - {id}) == Image(m, s) - {Mapped(m, id)}
    ensures Twins(m, s, id) ==> Image(m, s - {id}) == Image(m, s) && Mapped(m, id) in Image(m, s)
  {
    var i, t := Image(m, s), Image(m, s - {id});
    if Twins(m, s, id) {
      var q :| q in s && q != id && Mapped(m, q) == Mapped(m, id);
      forall x | x in i ensures x in t {
        var y :| y in s && Mapped(m, y) == x;
        assert Mapped(m, if y == id then q else y) == x;
      }
    }
  }

  /** One alteration, relinked, does to the image what it did to the set: always, unless it removes a
      record with a twin, and then only if what it brings has the same key. */
  lemma RelinkedApply(known: set<int>, known': set<int>, m: map<int, int>, s: set<int>, a: Alteration)
    requires Apply(known, s, a).Some? && forall id :: id in known ==> Mapped(m, id) in known'
    ensures Apply(known', Image(m, s), Relink(m, a)) == Some(Image(m, Apply(known, s, a).value))
      <==> (Removes(a) && Twins(m, s, a.prior.value) ==>
        a.kind != Delete && Mapped(m, a.next.value) == Mapped(m, a.prior.value))
  {
    match a.kind
    case Add | Copy => ImageAdd(m, s, a.next.value);
    case Discard =>
    case Delete => ImageRemove(m, s, a.prior.value);
    case Move | Update =>
      var p, n := a.prior.value, a.next.value;
      ImageRemove(m, s, p);
      ImageAdd(m, s - {p}, n);
      assert Mapped(m, p) in Image(m, s);
      if Twins(m, s, p) {
        assert Image(m, s - {p} + {n}) == Image(m, s) + {Mapped(m, n)};
        if Mapped(m, n) != Mapped(m, p) {
          assert Mapped(m, p) !in Image(m, s) - {Mapped(m, p)} + {Mapped(m, n)};
        } else {
          assert Image(m, s) - {Mapped(m, p)} + {Mapped(m, n)} == Image(m, s) + {Mapped(m, n)};
        }
      }
  }

  lemma MergedKnown(rows: seq<Row>, names: seq<ObjectName>)
    requires UniqueIds(rows)
    ensures forall id :: id in Known(rows, names) ==> Mapped(MergeMap(rows), id) in Known(Merged(rows), names)
  {
    forall id | id in Known(rows, names) ensures Mapped(MergeMap(rows), id) in Known(Merged(rows), names) {
      MergedRecord(rows, names, id);
    }
  }

  /** The alteration, applied to s, loses no key that another record of s still has: it removes no
      record with a twin, unless it brings one with the same key. */
  ghost predicate KeepsKeys(m: map<int, int>, s: set<int>, a: Alteration)
    requires Removes(a) ==> a.prior.Some?
  {
    Removes(a) && Twins(m, s, a.prior.value) ==>
      a.kind != Delete && a.next.Some? && Mapped(m, a.next.value) == Mapped(m, a.prior.value)
  }

  /** No alteration of the list loses a key in the state that it meets. */
  ghost predicate NeverLoses(m: map<int, int>, known: set<int>, s: set<int>, alts: seq<Alteration>)
    requires Replay(known, s, alts).Some?
  {
    alts != [] ==>
      NeverLoses(m, known, s, alts[1..]) && KeepsKeys(m, Replay(known, s, alts[1..]).value, alts[0])
  }

  /** After every alteration the relinked replay holds the image of what the old one holds. */
  ghost predicate Tracks(m: map<int, int>, known: set<int>, known': set<int>, s: set<int>, alts: seq<Alteration>)
    requires Replay(known, s, alts).Some?
  {
    && Replay(known', Image(m, s), Relinked(m, alts)) == Some(Image(m, Replay(known, s, alts).value))
    && (alts != [] ==> Tracks(m, known, known', s, alts[1..]))
  }

  /** The relinked replay keeps track exactly if no alteration loses a key. */
  lemma {:induction false} RelinkedReplay(known: set<int>, known': set<int>, m: map<int, int>, s: set<int>,
                                          alts: seq<Alteration>)
    requires Replay(known, s, alts).Some? && forall id :: id in known ==> Mapped(m, id) in known'
    ensures Tracks(m, known, known', s, alts) <==> NeverLoses(m, known, s, alts)
  {
    hide Image, Twins, Mapped;
    if alts != [] {
      var t := Replay(known, s, alts[1..]).value;
      RelinkedReplay(known, known', m, s, alts[1..]);
      RelinkedApply(known, known', m, t, alts[0]);
      assert Relinked(m, alts)[1..] == Relinked(m, alts[1..]) && Relinked(m, alts)[0] == Relink(m, alts[0]);
    }
  }

  /** The keys that are missing after the relinked replay, each removed with one of several records that
      had it and not brought since; None if the replay meets a record without its key. */
  ghost function Lost(m: map<int, int>, known: set<int>, s: set<int>, alts: seq<Alteration>): Option<set<int>>
    requires Replay(known, s, alts).Some?
  {
    if alts == [] then Some({})
    else
      var lost := Lost(m, known, s, alts[1..]);
      if lost.None? then None else LostWith(m, Replay(known, s, alts[1..]).value, alts[0], lost.value)
  }

  /** What one more alteration does to the missing keys. */
  ghost function LostWith(m: map<int, int>, s: set<int>, a: Alteration, lost: set<int>): Option<set<int>>
    requires Removes(a) ==> a.prior.Some?
  {
    if Removes(a) && Mapped(m, a.prior.value) in lost then None
    else
      var removed := if Removes(a) && Twins(m, s, a.prior.value) then lost + {Mapped(m, a.prior.value)} else lost;
      Some(if Brings(a) && a.next.Some? then removed - {Mapped(m, a.next.value)} else removed)
  }

  lemma LostRemove(m: map<int, int>, s: set<int>, p: int, lost: set<int>)
    requires p in s && lost <= Image(m, s) && Mapped(m, p) !in lost
    ensures var l := if Twins(m, s, p) then lost + {Mapped(m, p)} else lost;
      Image(m, s) - lost - {Mapped(m, p)} == Image(m, s - {p}) - l && l <= Image(m, s - {p})
  {
    hide Image, Twins;
    ImageRemove(m, s, p);
  }

  lemma LostAdd(m: map<int, int>, s: set<int>, n: int, lost: set<int>)
    requires lost <= Image(m, s)
    ensures Image(m, s) - lost + {Mapped(m, n)} == Image(m, s + {n}) - (lost - {Mapped(m, n)})
    ensures lost - {Mapped(m, n)} <= Image(m, s + {n})
  {
    hide Image;
    ImageAdd(m, s, n);
  }

  lemma LostApply(known: set<int>, known': set<int>, m: map<int, int>, s: set<int>, a: Alteration, lost: set<int>)
    requires Apply(known, s, a).Some? && lost <= Image(m, s) && forall id :: id in known ==> Mapped(m, id) in known'
    ensures var l := LostWith(m, s, a, lost); var t := Image(m, Apply(known, s, a).value);
      Apply(known', Image(m, s) - lost, Relink(m, a)) == (if l.None? then None else Some(t - l.value))
      && (l.Some? ==> l.value <= t)
  {
    hide Image, Twins, Mapped;
    if Removes(a) {
      var p := a.prior.value;
      MappedIn(m, s, p);
      if Mapped(m, p) !in lost {
        LostRemove(m, s, p, lost);
        var l := if Twins(m, s, p) then lost + {Mapped(m, p)} else lost;
        if Brings(a) { LostAdd(m, s - {p}, a.next.value, l); }
      }
    } else if Brings(a) {
      LostAdd(m, s, a.next.value, lost);
    }
  }

  lemma MappedIn(m: map<int, int>, s: set<int>, p: int)
    requires p in s
    ensures Mapped(m, p) in Image(m, s)
  {
  }

  /** What the relinked alterations replay to, for any replay that succeeded before. */
  lemma {:induction false} RelinkedOutcome(known: set<int>, known': set<int>, m: map<int, int>, s: set<int>,
                                           alts: seq<Alteration>)
    requires Replay(known, s, alts).Some? && forall id :: id in known ==> Mapped(m, id) in known'
    ensures var lost := Lost(m, known, s, alts); var t := Image(m, Replay(known, s, alts).value);
      Replay(known', Image(m, s), Relinked(m, alts)) == (if lost.None? then None else Some(t - lost.value))
      && (lost.Some? ==> lost.value <= t)
  {
    hide Image, Mapped, LostWith;
    if alts == [] {
      assert Image(m, s) - {} == Image(m, s);
    } else {
      var lost := Lost(m, known, s, alts[1..]);
      RelinkedOutcome(known, known', m, s, alts[1..]);
      if lost.Some? { LostApply(known, known', m, Replay(known, s, alts[1..]).value, alts[0], lost.value); }
      assert Relinked(m, alts)[1..] == Relinked(m, alts[1..]) && Relinked(m, alts)[0] == Relink(m, alts[0]);
    }
  }

  /** So it replays to the image exactly if no key is missing at the end. */
  lemma RelinkedExactly(known: set<int>, known': set<int>, m: map<int, int>, s: set<int>, alts: seq<Alteration>)
    requires Replay(known, s, alts).Some? && forall id :: id in known ==> Mapped(m, id) in known'
    ensures Replay(known', Image(m, s), Relinked(m, alts)) == Some(Image(m, Replay(known, s, alts).value))
      <==> Lost(m, known, s, alts) == Some({})
  {
    hide Image, Lost;
    RelinkedOutcome(known, known', m, s, alts);
    var lost, t := Lost(m, known, s, alts), Image(m, Replay(known, s, alts).value);
    if lost.Some? && lost.value != {} {
      Inhabited(lost.value);
      var k :| k in lost.value;
      assert k in t && k !in t - lost.value;
    }
    if lost == Some({}) {
      var u := t - lost.value;
      assert forall k :: k in t ==> k in u;
      assert u == t;
    }
  }

  /** No two records of the set have the same data, name and time. */
  ghost predicate DistinctKeys(rows: seq<Row>, s: set<int>) {
    forall p, q, x, y :: p in s && q in s && p != q && FindRow(rows, p) == Some(x) && FindRow(rows, q) == Some(y)
      ==> KeyOf(x) != KeyOf(y)
  }

  /** In such a set no record has a twin. */
  lemma DistinctKeysNoTwins(rows: seq<Row>, names: seq<ObjectName>, s: set<int>, p: int)
    requires UniqueIds(rows) && s <= Known(rows, names) && p in s && DistinctKeys(rows, s)
    ensures !Twins(MergeMap(rows), s, p)
  {
    var m := MergeMap(rows);
    forall q | q in s && q != p ensures Mapped(m, q) != Mapped(m, p) {
      assert q in Known(rows, names) && p in Known(rows, names);
      var x, y := FindRow(rows, q).value, FindRow(rows, p).value;
      MergeMapFirst(rows, x);
      MergeMapFirst(rows, y);
      var a, b := FirstWith(rows, KeyOf(x)).value, FirstWith(rows, KeyOf(y)).value;
      FindRowUnique(rows, a);
      FindRowUnique(rows, b);
      assert KeyOf(a) != KeyOf(b);
    }
  }

  /** No state that the replay goes through has two records with one key. */
  ghost predicate NeverTwins(rows: seq<Row>, known: set<int>, s: set<int>, alts: seq<Alteration>) {
    forall n :: 0 <= n <= |alts| ==> var t := Replay(known, s, alts[n..]); t.Some? ==> DistinctKeys(rows, t.value)
  }

  /** A replay that never holds two records with one key loses none. */
  lemma {:induction false} DistinctNeverLoses(rows: seq<Row>, names: seq<ObjectName>, s: set<int>,
                                              alts: seq<Alteration>)
    requires UniqueIds(rows) && s <= Known(rows, names) && Replay(Known(rows, names), s, alts).Some?
    requires NeverTwins(rows, Known(rows, names), s, alts)
    ensures NeverLoses(MergeMap(rows), Known(rows, names), s, alts)
  {
    hide Known, MergeMap, DistinctKeys, UniqueIds, Twins;
    if alts != [] {
      var known, rest := Known(rows, names), alts[1..];
      forall n | 0 <= n <= |rest| && Replay(known, s, rest[n..]).Some?
        ensures DistinctKeys(rows, Replay(known, s, rest[n..]).value)
      {
        assert rest[n..] == alts[n + 1..];
      }
      DistinctNeverLoses(rows, names, s, rest);
      var t := Replay(known, s, rest).value;
      assert alts[1..] == rest;
      if Removes(alts[0]) { DistinctKeysNoTwins(rows, names, t, alts[0].prior.value); }
    }
  }

  lemma {:induction false} RelinkedOwned(m: map<int, int>, table: seq<Alteration>, list: int)
    ensures Owned(Relinked(m, table), list) == Relinked(m, Owned(table, list))
  {
    hide Owned;
    if table == [] {
      OwnedNothing(list);
      assert Relinked(m, table) == [];
    } else {
      var n := |table| - 1;
      RelinkedOwned(m, table[..n], list);
      OwnedSnoc(table[..n], table[n], list);
      OwnedSnoc(Relinked(m, table[..n]), Relink(m, table[n]), list);
      assert table == table[..n] + [table[n]];
      assert Relinked(m, table) == Relinked(m, table[..n]) + [Relink(m, table[n])];
    }
  }

  lemma RelinkedConcat(m: map<int, int>, a: seq<Alteration>, b: seq<Alteration>)
    ensures Relinked(m, a + b) == Relinked(m, a) + Relinked(m, b)
  {
  }

  lemma {:induction false} RelinkedChain(m: map<int, int>, versions: map<int, Version>, table: seq<Alteration>,
                                         chain: seq<int>)
    requires forall i :: 0 <= i < |chain| ==> chain[i] in versions
    ensures ChainAlterations(versions, Relinked(m, table), chain)
      == Relinked(m, ChainAlterations(versions, table, chain))
  {
    if chain != [] {
      RelinkedChain(m, versions, table, chain[1..]);
      RelinkedOwned(m, table, versions[chain[0]].list);
      RelinkedConcat(m, Owned(table, versions[chain[0]].list), ChainAlterations(versions, table, chain[1..]));
    }
  }

  /** Merging duplicates commutes with replaying a version's whole chain exactly if no key is missing at
      the end, and with every replay on the way exactly if no alteration loses a key. */
  lemma MergeCommutes(rows: seq<Row>, names: seq<ObjectName>, versions: map<int, Version>, table: seq<Alteration>,
                      chain: seq<int>)
    requires UniqueIds(rows) && forall i :: 0 <= i < |chain| ==> chain[i] in versions
    requires FullReplay(versions, table, Known(rows, names), chain).Some?
    ensures var m := MergeMap(rows); var alts := ChainAlterations(versions, table, chain);
      Lost(m, Known(rows, names), {}, alts) == Some({}) <==>
        FullReplay(versions, Relinked(m, table), Known(Merged(rows), names), chain)
          == Some(Image(m, FullReplay(versions, table, Known(rows, names), chain).value))
    ensures var m := MergeMap(rows); var alts := ChainAlterations(versions, table, chain);
      (Tracks(m, Known(rows, names), Known(Merged(rows), names), {}, alts)
       <==> NeverLoses(m, Known(rows, names), {}, alts))
  {
    var m, alts := MergeMap(rows), ChainAlterations(versions, table, chain);
    hide MergeMap, Known, Lost, Tracks, NeverLoses;
    MergedKnown(rows, names);
    RelinkedChain(m, versions, table, chain);
    RelinkedReplay(Known(rows, names), Known(Merged(rows), names), m, {}, alts);
    RelinkedExactly(Known(rows, names), Known(Merged(rows), names), m, {}, alts);
    assert Image(m, {}) == {};
  }

  /** What the merging of records makes of the replay of a chain. */
  ghost predicate Commutes(versions: map<int, Version>, before: seq<Alteration>, known: set<int>,
                           versions': map<int, Version>,
                           after: seq<Alteration>, known': set<int>, m: map<int, int>, chain: seq<int>)
    requires versions.Keys == versions'.Keys
  {
    IsChain(versions, chain) && FullReplay(versions, before, known, chain).Some? ==>
      var alts := ChainAlterations(versions, before, chain);
      && (Lost(m, known, {}, alts) == Some({}) <==>
        FullReplay(versions', after, known', chain) == Some(Image(m, FullReplay(versions, before, known, chain).value)))
      && (Tracks(m, known, known', {}, alts) <==> NeverLoses(m, known, {}, alts))
  }

  lemma CleanedCommutes(rows: seq<Row>, names: seq<ObjectName>, versions: map<int, Version>,
                        versions': map<int, Version>,
                        table: seq<Alteration>, chain: seq<int>)
    requires UniqueIds(rows) && versions.Keys == versions'.Keys
    requires forall v :: v in versions ==> versions'[v] == versions[v].(snapshot := versions'[v].snapshot)
    ensures var m := MergeMap(rows);
      Commutes(versions, table, Known(rows, names), versions', Relinked(m, table), Known(Merged(rows), names), m, chain)
  {
    hide MergeMap, Known, Lost, Tracks, NeverLoses, Relinked, Image;
    if IsChain(versions, chain) && FullReplay(versions, table, Known(rows, names), chain).Some? {
      InChain(versions, chain);
      MergeCommutes(rows, names, versions, table, chain);
      SnapshotsDoNotMatter(versions, versions', Relinked(MergeMap(rows), table), chain);
    }
  }

  lemma {:induction false} NeverLosesSuffix(m: map<int, int>, known: set<int>, s: set<int>, alts: seq<Alteration>,
                                            k: nat)
    requires k <= |alts| && Replay(known, s, alts).Some? && NeverLoses(m, known, s, alts)
    ensures Replay(known, s, alts[k..]).Some? && NeverLoses(m, known, s, alts[k..])
  {
    if k == 0 {
      assert alts[0..] == alts;
    } else {
      NeverLosesSuffix(m, known, s, alts[1..], k - 1);
      assert alts[1..][k - 1..] == alts[k..];
    }
  }

  /** If no alteration of a chain loses a key, merging commutes with the replay of every ancestor. */
  lemma AncestorsCommute(rows: seq<Row>, names: seq<ObjectName>, versions: map<int, Version>, table: seq<Alteration>,
                         chain: seq<int>, n: nat)
    requires UniqueIds(rows) && n <= |chain| && forall i :: 0 <= i < |chain| ==> chain[i] in versions
    requires FullReplay(versions, table, Known(rows, names), chain).Some?
    requires NeverLoses(MergeMap(rows), Known(rows, names), {}, ChainAlterations(versions, table, chain))
    ensures var m := MergeMap(rows); var was := FullReplay(versions, table, Known(rows, names), chain[n..]);
      was.Some? && FullReplay(versions, Relinked(m, table), Known(Merged(rows), names), chain[n..])
        == Some(Image(m, was.value))
  {
    var m, known, alts := MergeMap(rows), Known(rows, names), ChainAlterations(versions, table, chain);
    var newer, older := ChainAlterations(versions, table, chain[..n]), ChainAlterations(versions, table, chain[n..]);
    ChainSplit(versions, table, chain, n);
    assert alts[|newer|..] == older;
    NeverLosesSuffix(m, known, {}, alts, |newer|);
    MergedKnown(rows, names);
    RelinkedChain(m, versions, table, chain[n..]);
    RelinkedReplay(known, Known(Merged(rows), names), m, {}, older);
    assert Image(m, {}) == {};
  }

  lemma AddAddDelete(known: set<int>, x: Alteration, y: Alteration, d: Alteration)
    requires x.kind == Add && x.next.Some? && x.next.value in known
    requires y.kind == Add && y.next.Some? && y.next.value in known
    requires d.kind == Delete && d.prior.Some? && d.prior.value in {x.next.value, y.next.value}
    ensures Replay(known, {}, [d, y, x]) == Some({x.next.value, y.next.value} - {d.prior.value})
  {
    var alts := [d, y, x];
    var none: set<int> := {};
    assert alts[1..] == [y, x] && [y, x][1..] == [x] && [x][1..] == [];
    assert none + {x.next.value} == {x.next.value};
    assert Replay(known, none, [x]) == Some({x.next.value});
    assert {x.next.value} + {y.next.value} == {x.next.value, y.next.value};
    assert Replay(known, {}, [y, x]) == Some({x.next.value, y.next.value});
  }

  lemma TwoRows(rows: seq<Row>, names: seq<ObjectName>)
    requires rows == [Row(1, "x", 1, 0), Row(2, "x", 1, 0)] && names == [ObjectName(1, "f")]
    ensures UniqueIds(rows) && MergeMap(rows) == map[2 := 1] && {1, 2} <= Known(rows, names)
  {
    assert rows[..1] == [rows[0]] && rows[..1][..0] == [];
    assert FirstWith(rows[..1], KeyOf(rows[1])) == Some(rows[0]);
    assert FindRecord(rows, names, 1).Some? && FindRecord(rows, names, 2).Some?;
  }

  /** Two records with one key, one of them deleted: the merged table loses both. */
  lemma MergeNeedsDistinct() returns (rows: seq<Row>, names: seq<ObjectName>, alts: seq<Alteration>)
    ensures UniqueIds(rows) && Replay(Known(rows, names), {}, alts) == Some({1}) && Image(MergeMap(rows), {1}) == {1}
    ensures Replay(Known(Merged(rows), names), {}, Relinked(MergeMap(rows), alts)) == Some({})
  {
    hide Known, MergeMap, Merged, Replay, UniqueIds;
    rows, names := [Row(1, "x", 1, 0), Row(2, "x", 1, 0)], [ObjectName(1, "f")];
    var add1, add2 := Alteration(1, 1, Add, None, Some(1)), Alteration(2, 1, Add, None, Some(2));
    var del := Alteration(3, 1, Delete, Some(2), None);
    alts := [del, add2, add1];
    TwoRows(rows, names);
    MergedKnown(rows, names);
    var m, known, known' := MergeMap(rows), Known(rows, names), Known(Merged(rows), names);
    assert 1 in known && 2 in known && Mapped(m, 1) == 1 && Mapped(m, 2) == 1;
    AddAddDelete(known, add1, add2, del);
    AddAddDelete(known', Relink(m, add1), Relink(m, add2), Relink(m, del));
    assert Relinked(m, alts) == [Relink(m, del), Relink(m, add2), Relink(m, add1)];
    assert {1, 2} - {2} == {1} && {1, 1} - {1} == {};
  }
}
