/** Directory trees as flat lists: two producers that emit them, and the consumer that walks them by
    index arithmetic, part of it in tasks. */
module FlatTrees {
  /** What a directory scan finds. */
  datatype Node =
    | File(name: string, size: nat, time: int, attribs: nat)
    | Dir(name: string, time: int, attribs: nat, children: seq<Node>)

  /** FlatFSEntry; a length of -1 marks a directory. */
  datatype FlatEntry = FlatEntry(fullName: string, childCount: int, attributes: int, fileTime: int, length: int)

  /** The administration folder is listed but not descended into. */
  function Kids(d: Node): seq<Node>
    requires d.Dir?
  {
    if d.name == ".versionr" then [] else d.children
  }

  /** Preorder, each directory followed by its descendants and carrying their exact number. */
  function Flat(path: string, nodes: seq<Node>): seq<FlatEntry>
    decreases nodes
  {
    if nodes == [] then [] else FlatNode(path, nodes[0]) + Flat(path, nodes[1..])
  }

  function FlatNode(path: string, node: Node): seq<FlatEntry>
    decreases node
  {
    match node
    case File(name, size, time, attribs) => [FlatEntry(path + name, 0, attribs, time, size)]
    case Dir(name, time, attribs, children) =>
      var below := if name == ".versionr" then [] else Flat(path + name + "/", children);
      [FlatEntry(path + name + "/", |below|, attribs, time, -1)] + below
  }

  lemma FlatDir(path: string, d: Node)
    requires d.Dir?
    ensures var below := Flat(path + d.name + "/", Kids(d));
      FlatNode(path, d) == [FlatEntry(path + d.name + "/", |below|, d.attribs, d.time, -1)] + below
  {
  }

  /** The number of nodes listed. */
  function Size(nodes: seq<Node>): nat
    decreases nodes
  {
    if nodes == [] then 0 else SizeNode(nodes[0]) + Size(nodes[1..])
  }

  function SizeNode(node: Node): nat
    decreases node
  {
    match node
    case File(_, _, _, _) => 1
    case Dir(name, _, _, children) => 1 + if name == ".versionr" then 0 else Size(children)
  }

  /** Every node has one entry, and a directory's count is that of its descendants. */
  lemma {:induction false} FlatSize(path: string, nodes: seq<Node>)
    ensures |Flat(path, nodes)| == Size(nodes)
    decreases nodes
  {
    if nodes != [] {
      FlatNodeSize(path, nodes[0]);
      FlatSize(path, nodes[1..]);
    }
  }

  lemma {:induction false} FlatNodeSize(path: string, node: Node)
    ensures |FlatNode(path, node)| == SizeNode(node)
    ensures node.Dir? ==> FlatNode(path, node)[0].childCount == SizeNode(node) - 1
    decreases node
  {
    if node.Dir? && node.name != ".versionr" { FlatSize(path + node.name + "/", node.children); }
  }

  // ----- the Posix producer

  /** 1970-01-01 in ticks of 100 ns since 1601-01-01 */
  const EPOCH_TICKS: int := 116_444_736_000_000_000
  const TICKS_PER_SECOND: int := 10_000_000

  /** scanrec skips every name that begins with two dots, and ".". */
  predicate PosixSkips(name: string) { name != "" && name[0] == '.' && (|name| == 1 || name[1] == '.') }

  /** The tree as scanrec reports it: without attributes, times converted. */
  function PosixView(nodes: seq<Node>): seq<Node>
    decreases nodes
  {
    if nodes == [] then []
    else (if PosixSkips(nodes[0].name) then [] else [PosixNode(nodes[0])]) + PosixView(nodes[1..])
  }

  /** Of the names reported, none is a dot or begins with two; all others are. */
  lemma {:induction false} PosixKeeps(nodes: seq<Node>, node: Node)
    ensures node in PosixView(nodes) <==> exists n ::
      n in nodes && node == PosixNode(n) && n.name != "." && !(|n.name| >= 2 && n.name[..2] == "..")
  {
    if nodes != [] {
      var n, rest := nodes[0], nodes[1..];
      PosixKeeps(rest, node);
      SkipsDots(n.name);
      assert forall m :: m in nodes <==> m == n || m in rest;
    }
  }

  lemma SkipsDots(name: string)
    ensures PosixSkips(name) <==> name == "." || (|name| >= 2 && name[..2] == "..")
  {
    if |name| >= 2 { assert name[..2] == [name[0], name[1]]; }
  }

  /** Nodes none of which is skipped are all reported, in order. */
  lemma {:induction false} PosixInOrder(nodes: seq<Node>)
    requires forall n :: n in nodes ==> n.name != "." && !(|n.name| >= 2 && n.name[..2] == "..")
    ensures |PosixView(nodes)| == |nodes|
    ensures forall i :: 0 <= i < |nodes| ==> PosixView(nodes)[i] == PosixNode(nodes[i])
  {
    if nodes != [] {
      SkipsDots(nodes[0].name);
      assert nodes[0] in nodes;
      PosixInOrder(nodes[1..]);
    }
  }

  function PosixNode(node: Node): (r: Node)
    ensures r.name == node.name
    decreases node
  {
    match node
    case File(name, size, time, attribs) => File(name, size, EPOCH_TICKS + time * TICKS_PER_SECOND, 0)
    case Dir(name, time, attribs, children) => Dir(name, EPOCH_TICKS + time * TICKS_PER_SECOND, 0, PosixView(children))
  }

  class EntryList {
    var entries: seq<FlatEntry>

    constructor ()
      ensures entries == []
    {
      entries := [];
    }

    /** The callback: size -1 opens a directory, size -2 closes the one opened attribs entries ago. */
    method Handle(name: string, size: int, timestamp: int, attribs: int)
      requires size == -2 ==> 0 <= attribs < |entries|
      modifies this
      ensures entries ==
        if size == -2 then
          var at := |old(entries)| - attribs - 1;
          old(entries)[at := old(entries)[at].(childCount := attribs)]
        else
          var time := EPOCH_TICKS + timestamp * TICKS_PER_SECOND;
          old(entries) + [FlatEntry(if size == -1 then name + "/" else name, 0, 0, time, size)]
    {
      if size == -1 {
        entries := entries + [FlatEntry(name + "/", 0, 0, EPOCH_TICKS + timestamp * TICKS_PER_SECOND, -1)];
      } else if size == -2 {
        var fs := entries[|entries| - attribs - 1];
        fs := fs.(childCount := attribs);
        entries := entries[|entries| - attribs - 1 := fs];
      } else {
        entries := entries + [FlatEntry(name, 0, 0, EPOCH_TICKS + timestamp * TICKS_PER_SECOND, size)];
      }
    }

    /** scanrec: reports a directory through the callback and counts what it reports. */
    method ScanRec(dir: seq<Node>, path: string) returns (count: nat)
      modifies this
      ensures entries == old(entries) + Flat(path + "/", PosixView(dir))
      ensures count == |Flat(path + "/", PosixView(dir))|
      decreases dir
    {
      hide Flat, FlatNode, PosixView, PosixNode;
      count := 0;
      ghost var all := Flat(path + "/", PosixView(dir));
      assert dir[0..] == dir;
      var i := 0;
      while i < |dir|
        invariant i <= |dir|
        invariant entries + Flat(path + "/", PosixView(dir[i..])) == old(entries) + all
        invariant count + |Flat(path + "/", PosixView(dir[i..]))| == |all|
      {
        var node := dir[i];
        ghost var before, rest := entries, Flat(path + "/", PosixView(dir[i + 1..]));
        PosixStep(path + "/", dir[i..]);
        assert dir[i..][1..] == dir[i + 1..];
        i := i + 1;
        if PosixSkips(node.name) {
          assert [] + rest == rest;
          continue;
        }
        var n := ScanOne(node, path);
        count := count + n;
        AppendTwice(before, FlatNode(path + "/", PosixNode(node)), rest);
      }
      assert dir[|dir|..] == [];
      FlatNothing(path + "/");
    }

    /** One directory entry. */
    method ScanOne(node: Node, path: string) returns (count: nat)
      modifies this
      ensures entries == old(entries) + FlatNode(path + "/", PosixNode(node))
      ensures count == |FlatNode(path + "/", PosixNode(node))|
      decreases node
    {
      hide Flat, FlatNode, PosixView, PosixNode;
      var fn := path + "/" + node.name;
      match node
      case Dir(name, time, _, children) =>
        ghost var before := entries;
        Handle(fn, -1, time, 0);
        ghost var added := entries[|before|];
        var ccount := 0;
        if name != ".versionr" {
          ccount := ScanRec(children, fn);
        }
        ghost var below := entries[|before| + 1..];
        Handle(fn, -2, time, ccount);
        count := 1 + ccount;
        PosixDir(path + "/", node);
        Patched(before, added, below, added.(childCount := ccount));
      case File(name, size, time, _) =>
        Handle(fn, size, time, 0);
        count := 1;
        PosixFile(path + "/", node);
    }

    // ----- the portable producer

    /** GetEntriesRecursive: adds a directory's entry first and patches its count in afterwards. */
    method GetEntriesRecursive(fn: string, root: seq<Node>) returns (count: nat)
      modifies this
      ensures entries == old(entries) + Flat(fn, ListView(root))
      ensures count == |Flat(fn, ListView(root))|
      decreases root
    {
      hide Flat, FlatNode, ListView, ListNode;
      count := 0;
      ghost var all := Flat(fn, ListView(root));
      assert root[0..] == root;
      var i := 0;
      while i < |root|
        invariant i <= |root|
        invariant entries + Flat(fn, ListView(root[i..])) == old(entries) + all
        invariant count + |Flat(fn, ListView(root[i..]))| == |all|
      {
        var x := root[i];
        ghost var before, rest := entries, Flat(fn, ListView(root[i + 1..]));
        ListStep(fn, root[i..]);
        assert root[i..][1..] == root[i + 1..];
        i := i + 1;
        if x.Dir? && (x.name == "." || x.name == "..") {
          assert [] + rest == rest;
          continue;
        }
        var n := AddEntry(fn, x);
        count := count + n;
        AppendTwice(before, FlatNode(fn, ListNode(x)), rest);
      }
      assert root[|root|..] == [];
      FlatNothing(fn);
    }

    method AddEntry(fn: string, x: Node) returns (count: nat)
      modifies this
      ensures entries == old(entries) + FlatNode(fn, ListNode(x))
      ensures count == |FlatNode(fn, ListNode(x))|
      decreases x
    {
      hide Flat, FlatNode, ListView, ListNode;
      match x
      case Dir(name, time, attribs, children) =>
        ghost var before := entries;
        var fse := FlatEntry(fn + name + "/", 0, attribs, time, -1);
        ghost var added := fse;
        var loc := |entries|;
        entries := entries + [fse];
        var cc := 0;
        if name != ".versionr" {
          cc := GetEntriesRecursive(fse.fullName, children);
        }
        ghost var below := entries[|before| + 1..];
        fse := fse.(childCount := cc);
        entries := entries[loc := fse];
        count := 1 + cc;
        ListDir(fn, x);
        Patched(before, added, below, fse);
      case File(name, size, time, attribs) =>
        entries := entries + [FlatEntry(fn + name, 0, attribs, time, size)];
        count := 1;
        ListFile(fn, x);
    }
  }

  /** Patching the entry that was added first. */
  lemma Patched(before: seq<FlatEntry>, added: FlatEntry, below: seq<FlatEntry>, patched: FlatEntry)
    ensures ((before + [added]) + below)[|before| := patched] == before + ([patched] + below)
  {
  }

  lemma PosixDir(path: string, d: Node)
    requires d.Dir?
    ensures var below := if d.name == ".versionr" then [] else Flat(path + d.name + "/", PosixView(d.children));
      FlatNode(path, PosixNode(d))
        == [FlatEntry(path + d.name + "/", |below|, 0, EPOCH_TICKS + d.time * TICKS_PER_SECOND, -1)] + below
  {
  }

  lemma PosixFile(path: string, f: Node)
    requires f.File?
    ensures FlatNode(path, PosixNode(f))
      == [FlatEntry(path + f.name, 0, 0, EPOCH_TICKS + f.time * TICKS_PER_SECOND, f.size)]
  {
  }

  lemma ListDir(path: string, d: Node)
    requires d.Dir?
    ensures var below := if d.name == ".versionr" then [] else Flat(path + d.name + "/", ListView(d.children));
      FlatNode(path, ListNode(d)) == [FlatEntry(path + d.name + "/", |below|, d.attribs, d.time, -1)] + below
  {
  }

  lemma ListFile(path: string, f: Node)
    requires f.File?
    ensures FlatNode(path, ListNode(f)) == [FlatEntry(path + f.name, 0, f.attribs, f.time, f.size)]
  {
  }

  lemma AppendTwice(a: seq<FlatEntry>, b: seq<FlatEntry>, c: seq<FlatEntry>)
    ensures (a + b) + c == a + (b + c)
  {
  }

  lemma FlatNothing(path: string)
    ensures Flat(path, PosixView([])) == [] && Flat(path, ListView([])) == []
  {
  }

  lemma PosixStep(path: string, dir: seq<Node>)
    requires dir != []
    ensures Flat(path, PosixView(dir))
         == (if PosixSkips(dir[0].name) then [] else FlatNode(path, PosixNode(dir[0])))
            + Flat(path, PosixView(dir[1..]))
  {
    var rest := PosixView(dir[1..]);
    if PosixSkips(dir[0].name) {
      assert PosixView(dir) == rest;
      assert [] + Flat(path, rest) == Flat(path, rest);
    } else {
      assert PosixView(dir) == [PosixNode(dir[0])] + rest;
      assert PosixView(dir)[1..] == rest;
    }
  }

  predicate ListSkips(node: Node) { node.Dir? && (node.name == "." || node.name == "..") }

  /** The tree as GetEntriesRecursive reports it. */
  function ListView(nodes: seq<Node>): seq<Node>
    decreases nodes
  {
    if nodes == [] then []
    else (if ListSkips(nodes[0]) then [] else [ListNode(nodes[0])]) + ListView(nodes[1..])
  }

  function ListNode(node: Node): (r: Node)
    ensures r.name == node.name
    decreases node
  {
    if node.File? then node else node.(children := ListView(node.children))
  }

  /** The portable producer leaves out directories named with one dot or two, and nothing else. */
  lemma {:induction false} ListKeeps(nodes: seq<Node>, node: Node)
    ensures node in ListView(nodes) <==>
      exists n :: n in nodes && node == ListNode(n) && !(n.Dir? && (n.name == "." || n.name == ".."))
  {
    if nodes != [] {
      ListKeeps(nodes[1..], node);
      assert forall m :: m in nodes <==> m == nodes[0] || m in nodes[1..];
    }
  }

  lemma ListStep(path: string, dir: seq<Node>)
    requires dir != []
    ensures Flat(path, ListView(dir))
         == (if ListSkips(dir[0]) then [] else FlatNode(path, ListNode(dir[0]))) + Flat(path, ListView(dir[1..]))
  {
    var rest := ListView(dir[1..]);
    if ListSkips(dir[0]) {
      assert ListView(dir) == rest;
      assert [] + Flat(path, rest) == Flat(path, rest);
    } else {
      assert ListView(dir) == [ListNode(dir[0])] + rest;
      assert ListView(dir)[1..] == rest;
    }
  }
}
