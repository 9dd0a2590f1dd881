/** The recursion over a directory tree that a scan amounts to, and which nodes have an entry in it. */
module TreeWalks {
  import opened Optional
  import opened FlatTrees

  /** What the rules say of a directory. */
  datatype DirRule = DirRule(ignoreDirectory: bool, ignoreContents: bool, hide_: bool)

  /** The area's decisions, whatever they are; rflen is where the path inside the area begins. */
  datatype Rules = Rules(dir: string -> DirRule, file: string -> bool, link: string -> bool, rflen: nat)

  datatype Entry = Entry(parent: Option<Entry>, canonicalName: string, fullName: string, localName: string,
                         time: int, length: int, ignored: bool, attribs: int)

  /** FileAttributes.ReparsePoint */
  predicate Reparse(attribs: int) { attribs / 1024 % 2 == 1 }

  function NewEntry(rules: Rules, parent: Option<Entry>, local: string, full: string, name: string, time: int,
                    length: int, ignored: bool, attribs: int): Entry
  {
    Entry(parent, if name == ".vrmeta" then name else local, full, name, time, if rules.link(full) then 0 else length,
          ignored, attribs)
  }

  // ----- the recursion over the tree

  function Inside(rules: Rules, full: string): string
    requires rules.rflen <= |full|
  {
    full[rules.rflen..]
  }

  function DirEntry(rules: Rules, parent: Option<Entry>, path: string, d: Node): Entry
    requires d.Dir? && rules.rflen <= |path|
  {
    var full := path + d.name + "/";
    Entry(parent, Inside(rules, full), full, if parent.None? then Inside(rules, full) else d.name + "/", d.time, 0,
      rules.dir(Inside(rules, full)).ignoreDirectory, d.attribs)
  }

  function FileEntry(rules: Rules, parent: Option<Entry>, path: string, f: Node, ignored: bool): Entry
    requires f.File? && rules.rflen <= |path|
  {
    var full := path + f.name;
    NewEntry(rules, parent, Inside(rules, full), full, if parent.None? then Inside(rules, full) else f.name, f.time,
             f.size, ignored, f.attribs)
  }

  /** The files directly in an ignored directory. */
  function IgnoredFiles(rules: Rules, parent: Entry, path: string, nodes: seq<Node>): multiset<Entry>
    requires rules.rflen <= |path|
    decreases nodes
  {
    if nodes == [] then multiset{}
    else
      (if nodes[0].File? then multiset{FileEntry(rules, Some(parent), path, nodes[0], true)} else multiset{})
      + IgnoredFiles(rules, parent, path, nodes[1..])
  }

  /** Everything the scan of a directory yields. */
  function Walk(rules: Rules, parent: Option<Entry>, ignoreFiles: bool, path: string, nodes: seq<Node>): multiset<Entry>
    requires rules.rflen <= |path|
    decreases nodes
  {
    if nodes == [] then multiset{}
    else WalkNode(rules, parent, ignoreFiles, path, nodes[0]) + Walk(rules, parent, ignoreFiles, path, nodes[1..])
  }

  function WalkNode(rules: Rules, parent: Option<Entry>, ignoreFiles: bool, path: string, node: Node): multiset<Entry>
    requires rules.rflen <= |path|
    decreases node
  {
    match node
    case File(name, size, time, attribs) =>
      if ignoreFiles then multiset{}
      else multiset{FileEntry(rules, parent, path, node, rules.file(Inside(rules, path + name)))}
    case Dir(name, time, attribs, children) =>
      var full := path + name + "/";
      var rule := rules.dir(Inside(rules, full));
      var entry := DirEntry(rules, parent, path, node);
      if Inside(rules, full) == ".versionr/" && parent.None? then multiset{}
      else if rule.hide_ || Reparse(attribs) then multiset{}
      else if name == ".versionr" then multiset{entry}
      else if rule.ignoreDirectory then multiset{entry} + IgnoredFiles(rules, entry, full, children)
      else multiset{entry} + Walk(rules, Some(entry), rule.ignoreContents, full, children)
  }

  /** What the scan of a directory yields besides its own entry. */
  function Below(rules: Rules, entry: Entry, rule: DirRule, kids: seq<Node>): multiset<Entry>
    requires rules.rflen <= |entry.fullName|
  {
    if rule.ignoreDirectory then IgnoredFiles(rules, entry, entry.fullName, kids)
    else Walk(rules, Some(entry), rule.ignoreContents, entry.fullName, kids)
  }

  // ----- places in a tree

  /** The node is in the last of the directories, each of which is in the one before. */
  ghost predicate At(nodes: seq<Node>, dirs: seq<Node>, node: Node)
    decreases |dirs|
  {
    if dirs == [] then node in nodes else dirs[0] in nodes && dirs[0].Dir? && At(dirs[0].children, dirs[1..], node)
  }

  /** The path of the last of the directories. */
  function PathTo(path: string, dirs: seq<Node>): (r: string)
    ensures |path| <= |r|
    decreases |dirs|
  {
    if dirs == [] then path else PathTo(path + dirs[0].name + "/", dirs[1..])
  }

  function RuleAt(rules: Rules, path: string, d: Node): DirRule
    requires rules.rflen <= |path|
  {
    rules.dir(Inside(rules, path + d.name + "/"))
  }

  /** The directory has an entry, as far as it depends on itself. */
  ghost predicate Shown(rules: Rules, top: bool, path: string, d: Node)
    requires rules.rflen <= |path| && d.Dir?
  {
    && !RuleAt(rules, path, d).hide_ && !Reparse(d.attribs)
    && !(top && Inside(rules, path + d.name + "/") == ".versionr/")
  }

  /** The scan gets into the last of the directories: all of them are shown, none is an administration
      folder, and none but the last is ignored. */
  ghost predicate Entered(rules: Rules, top: bool, path: string, dirs: seq<Node>)
    requires rules.rflen <= |path|
  {
    forall k :: 0 <= k < |dirs| ==>
      && dirs[k].Dir? && Shown(rules, top && k == 0, PathTo(path, dirs[..k]), dirs[k])
      && dirs[k].name != ".versionr"
      && (k < |dirs| - 1 ==> !RuleAt(rules, PathTo(path, dirs[..k]), dirs[k]).ignoreDirectory)
  }

  /** The rule of the last of the directories. */
  function LastRule(rules: Rules, path: string, dirs: seq<Node>): DirRule
    requires rules.rflen <= |path| && dirs != []
  {
    RuleAt(rules, PathTo(path, dirs[..|dirs| - 1]), dirs[|dirs| - 1])
  }

  /** The nodes that have an entry. Of an ignored directory these are the files; of one whose contents are
      ignored, the directories. */
  ghost predicate Listed(rules: Rules, top: bool, ignoreFiles: bool, path: string, dirs: seq<Node>, node: Node)
    requires rules.rflen <= |path|
  {
    && Entered(rules, top, path, dirs)
    && match node
       case Dir(_, _, _, _) =>
         && Shown(rules, top && dirs == [], PathTo(path, dirs), node)
         && (dirs != [] ==> !LastRule(rules, path, dirs).ignoreDirectory)
       case File(_, _, _, _) =>
         if dirs == [] then !ignoreFiles
         else LastRule(rules, path, dirs).ignoreDirectory || !LastRule(rules, path, dirs).ignoreContents
  }

  /** Whether the entry of a file says that it is ignored. */
  function Flagged(rules: Rules, path: string, dirs: seq<Node>, f: Node): bool
    requires rules.rflen <= |path|
  {
    (dirs != [] && LastRule(rules, path, dirs).ignoreDirectory)
    || rules.file(Inside(rules, PathTo(path, dirs) + f.name))
  }

  /** The entry of the last of the directories. */
  function ParentOf(rules: Rules, parent: Option<Entry>, path: string, dirs: seq<Node>): Option<Entry>
    requires rules.rflen <= |path| && forall k :: 0 <= k < |dirs| ==> dirs[k].Dir?
    decreases |dirs|
  {
    if dirs == [] then parent
    else ParentOf(rules, Some(DirEntry(rules, parent, path, dirs[0])), path + dirs[0].name + "/", dirs[1..])
  }

  /** The entry of a node. */
  function EntryOf(rules: Rules, parent: Option<Entry>, path: string, dirs: seq<Node>, node: Node): Entry
    requires rules.rflen <= |path| && forall k :: 0 <= k < |dirs| ==> dirs[k].Dir?
  {
    var p, at := ParentOf(rules, parent, path, dirs), PathTo(path, dirs);
    if node.Dir? then DirEntry(rules, p, at, node) else FileEntry(rules, p, at, node, Flagged(rules, path, dirs, node))
  }

  // ----- one directory more

  lemma PathStep(path: string, dirs: seq<Node>, k: nat)
    requires 1 <= k <= |dirs|
    ensures PathTo(path, dirs[..k]) == PathTo(path + dirs[0].name + "/", dirs[1..][..k - 1])
  {
    assert dirs[..k][1..] == dirs[1..][..k - 1];
  }

  lemma EnteredStep(rules: Rules, top: bool, path: string, dirs: seq<Node>)
    requires rules.rflen <= |path| && dirs != [] && dirs[0].Dir?
    ensures Entered(rules, top, path, dirs) <==>
      (Shown(rules, top, path, dirs[0]) && dirs[0].name != ".versionr"
       && (|dirs| > 1 ==> !RuleAt(rules, path, dirs[0]).ignoreDirectory)
       && Entered(rules, false, path + dirs[0].name + "/", dirs[1..]))
  {
    hide Shown, RuleAt;
    var below, rest := path + dirs[0].name + "/", dirs[1..];
    assert PathTo(path, dirs[..0]) == path;
    forall k | 0 <= k < |rest|
      ensures rest[k] == dirs[k + 1] && PathTo(below, rest[..k]) == PathTo(path, dirs[..k + 1])
    {
      PathStep(path, dirs, k + 1);
    }
    if Entered(rules, top, path, dirs) {
      forall k | 0 <= k < |rest|
        ensures rest[k].Dir? && Shown(rules, false, PathTo(below, rest[..k]), rest[k]) && rest[k].name != ".versionr"
        ensures k < |rest| - 1 ==> !RuleAt(rules, PathTo(below, rest[..k]), rest[k]).ignoreDirectory
      {
        assert dirs[k + 1].Dir?;
      }
    }
    if Shown(rules, top, path, dirs[0]) && dirs[0].name != ".versionr"
      && (|dirs| > 1 ==> !RuleAt(rules, path, dirs[0]).ignoreDirectory) && Entered(rules, false, below, rest) {
      forall k | 0 <= k < |dirs|
        ensures dirs[k].Dir? && Shown(rules, top && k == 0, PathTo(path, dirs[..k]), dirs[k])
        ensures dirs[k].name != ".versionr"
        ensures k < |dirs| - 1 ==> !RuleAt(rules, PathTo(path, dirs[..k]), dirs[k]).ignoreDirectory
      {
        if k > 0 { assert rest[k - 1].Dir?; }
      }
    }
  }

  lemma LastRuleStep(rules: Rules, path: string, dirs: seq<Node>)
    requires rules.rflen <= |path| && dirs != []
    ensures LastRule(rules, path, dirs) ==
      if |dirs| == 1 then RuleAt(rules, path, dirs[0]) else LastRule(rules, path + dirs[0].name + "/", dirs[1..])
  {
    if |dirs| > 1 { PathStep(path, dirs, |dirs| - 1); }
  }

  /** What a directory lists below itself. */
  lemma ListedStep(rules: Rules, top: bool, ignoreFiles: bool, path: string, dirs: seq<Node>, node: Node)
    requires rules.rflen <= |path| && dirs != [] && dirs[0].Dir?
    ensures var d, rule := dirs[0], RuleAt(rules, path, dirs[0]);
      Listed(rules, top, ignoreFiles, path, dirs, node) <==>
        (Shown(rules, top, path, d) && d.name != ".versionr"
         && if rule.ignoreDirectory then |dirs| == 1 && node.File?
            else Listed(rules, false, rule.ignoreContents, path + d.name + "/", dirs[1..], node))
  {
    hide Shown, RuleAt, LastRule, Entered;
    EnteredStep(rules, top, path, dirs);
    LastRuleStep(rules, path, dirs);
    EnteredNothing(rules, path + dirs[0].name + "/");
    assert PathTo(path, dirs) == PathTo(path + dirs[0].name + "/", dirs[1..]);
    assert |dirs| == 1 <==> dirs[1..] == [];
  }

  lemma EnteredNothing(rules: Rules, path: string)
    requires rules.rflen <= |path|
    ensures Entered(rules, false, path, [])
  {
  }

  lemma EntryStep(rules: Rules, parent: Option<Entry>, path: string, dirs: seq<Node>, node: Node)
    requires rules.rflen <= |path| && dirs != [] && forall k :: 0 <= k < |dirs| ==> dirs[k].Dir?
    ensures var p, below := Some(DirEntry(rules, parent, path, dirs[0])), path + dirs[0].name + "/";
      EntryOf(rules, parent, path, dirs, node) ==
        if |dirs| == 1 && RuleAt(rules, path, dirs[0]).ignoreDirectory && node.File? then
          FileEntry(rules, p, below, node, true)
        else EntryOf(rules, p, below, dirs[1..], node)
  {
    hide RuleAt, LastRule;
    LastRuleStep(rules, path, dirs);
    var p, below := Some(DirEntry(rules, parent, path, dirs[0])), path + dirs[0].name + "/";
    assert PathTo(path, dirs) == PathTo(below, dirs[1..]);
    assert ParentOf(rules, parent, path, dirs) == ParentOf(rules, p, below, dirs[1..]);
    assert |dirs| == 1 <==> dirs[1..] == [];
    if |dirs| == 1 {
      assert PathTo(below, dirs[1..]) == below && ParentOf(rules, p, below, dirs[1..]) == p;
    }
    if node.File? {
      assert Flagged(rules, path, dirs, node) ==
        ((|dirs| == 1 && RuleAt(rules, path, dirs[0]).ignoreDirectory) || Flagged(rules, below, dirs[1..], node));
    }
  }

  // ----- the scan lists exactly these nodes

  lemma {:induction false} WalkMember(rules: Rules, parent: Option<Entry>, ignoreFiles: bool, path: string,
                                      nodes: seq<Node>, node: Node)
    requires rules.rflen <= |path| && node in nodes
    ensures WalkNode(rules, parent, ignoreFiles, path, node) <= Walk(rules, parent, ignoreFiles, path, nodes)
  {
    hide WalkNode;
    if node != nodes[0] { WalkMember(rules, parent, ignoreFiles, path, nodes[1..], node); }
  }

  lemma {:induction false} IgnoredMember(rules: Rules, parent: Entry, path: string, nodes: seq<Node>, f: Node)
    requires rules.rflen <= |path| && f in nodes && f.File?
    ensures FileEntry(rules, Some(parent), path, f, true) in IgnoredFiles(rules, parent, path, nodes)
  {
    if f != nodes[0] { IgnoredMember(rules, parent, path, nodes[1..], f); }
  }

  lemma {:induction false} WalkHas(rules: Rules, parent: Option<Entry>, ignoreFiles: bool, path: string,
                                   nodes: seq<Node>, dirs: seq<Node>, node: Node)
    requires rules.rflen <= |path| && At(nodes, dirs, node)
    requires Listed(rules, parent.None?, ignoreFiles, path, dirs, node)
    ensures forall k :: 0 <= k < |dirs| ==> dirs[k].Dir?
    ensures EntryOf(rules, parent, path, dirs, node) in Walk(rules, parent, ignoreFiles, path, nodes)
    decreases |dirs|
  {
    hide Walk, IgnoredFiles, Entered, Listed, EntryOf, Reparse;
    if dirs == [] {
      ListedHere(rules, parent, ignoreFiles, path, node);
      WalkMember(rules, parent, ignoreFiles, path, nodes, node);
    } else {
      var d, rule := dirs[0], RuleAt(rules, path, dirs[0]);
      ListedDirs(rules, parent.None?, ignoreFiles, path, dirs, node);
      ListedStep(rules, parent.None?, ignoreFiles, path, dirs, node);
      EntryStep(rules, parent, path, dirs, node);
      var entry, below := DirEntry(rules, parent, path, d), path + d.name + "/";
      if rule.ignoreDirectory {
        assert dirs[1..] == [];
        IgnoredMember(rules, entry, below, d.children, node);
      } else {
        WalkHas(rules, Some(entry), rule.ignoreContents, below, d.children, dirs[1..], node);
      }
      WalkMember(rules, parent, ignoreFiles, path, nodes, d);
    }
  }

  lemma ListedDirs(rules: Rules, top: bool, ignoreFiles: bool, path: string, dirs: seq<Node>, node: Node)
    requires rules.rflen <= |path| && Listed(rules, top, ignoreFiles, path, dirs, node)
    ensures forall k :: 0 <= k < |dirs| ==> dirs[k].Dir?
  {
  }

  lemma ListedHere(rules: Rules, parent: Option<Entry>, ignoreFiles: bool, path: string, node: Node)
    requires rules.rflen <= |path|
    ensures Listed(rules, parent.None?, ignoreFiles, path, [], node) <==>
      EntryOf(rules, parent, path, [], node) in WalkNode(rules, parent, ignoreFiles, path, node)
  {
  }

  /** The node at the top that a place is at or below. */
  function First(dirs: seq<Node>, node: Node): Node { if dirs == [] then node else dirs[0] }

  lemma {:induction false} IgnoredFound(rules: Rules, parent: Entry, path: string, nodes: seq<Node>, e: Entry)
    returns (f: Node)
    requires rules.rflen <= |path| && e in IgnoredFiles(rules, parent, path, nodes)
    ensures f in nodes && f.File? && e == FileEntry(rules, Some(parent), path, f, true)
  {
    if nodes[0].File? && e == FileEntry(rules, Some(parent), path, nodes[0], true) {
      f := nodes[0];
    } else {
      f := IgnoredFound(rules, parent, path, nodes[1..], e);
    }
  }

  lemma {:induction false} WalkFound(rules: Rules, parent: Option<Entry>, ignoreFiles: bool, path: string,
                                     nodes: seq<Node>, e: Entry)
    returns (dirs: seq<Node>, node: Node)
    requires rules.rflen <= |path| && e in Walk(rules, parent, ignoreFiles, path, nodes)
    ensures At(nodes, dirs, node) && Listed(rules, parent.None?, ignoreFiles, path, dirs, node)
    ensures (forall k :: 0 <= k < |dirs| ==> dirs[k].Dir?) && e == EntryOf(rules, parent, path, dirs, node)
    decreases nodes, 1
  {
    hide WalkNode, Listed, EntryOf;
    if e in WalkNode(rules, parent, ignoreFiles, path, nodes[0]) {
      dirs, node := NodeFound(rules, parent, ignoreFiles, path, nodes, nodes[0], e);
    } else {
      dirs, node := WalkFound(rules, parent, ignoreFiles, path, nodes[1..], e);
    }
  }

  lemma {:induction false} NodeFound(rules: Rules, parent: Option<Entry>, ignoreFiles: bool, path: string,
                                     nodes: seq<Node>, n: Node, e: Entry)
    returns (dirs: seq<Node>, node: Node)
    requires rules.rflen <= |path| && n in nodes && e in WalkNode(rules, parent, ignoreFiles, path, n)
    ensures At(nodes, dirs, node) && Listed(rules, parent.None?, ignoreFiles, path, dirs, node)
    ensures (forall k :: 0 <= k < |dirs| ==> dirs[k].Dir?) && e == EntryOf(rules, parent, path, dirs, node)
    ensures First(dirs, node) == n
    decreases n, 0
  {
    hide Walk, IgnoredFiles, Listed, EntryOf, Reparse, Entered;
    ListedHere(rules, parent, ignoreFiles, path, n);
    if n.File? || e == DirEntry(rules, parent, path, n) {
      dirs, node := [], n;
      EntryHere(rules, parent, path, n);
    } else {
      var entry, below, rule := DirEntry(rules, parent, path, n), path + n.name + "/", RuleAt(rules, path, n);
      var inner: seq<Node>;
      if rule.ignoreDirectory {
        node := IgnoredFound(rules, entry, below, n.children, e);
        inner := [];
      } else {
        inner, node := WalkFound(rules, Some(entry), rule.ignoreContents, below, n.children, e);
      }
      dirs := [n] + inner;
      assert dirs[1..] == inner;
      ListedStep(rules, parent.None?, ignoreFiles, path, dirs, node);
      EntryStep(rules, parent, path, dirs, node);
    }
  }

  lemma EntryHere(rules: Rules, parent: Option<Entry>, path: string, node: Node)
    requires rules.rflen <= |path|
    ensures EntryOf(rules, parent, path, [], node) ==
      if node.Dir? then DirEntry(rules, parent, path, node)
      else FileEntry(rules, parent, path, node, rules.file(Inside(rules, path + node.name)))
  {
  }

  /** Some listed node has this entry. */
  ghost predicate Finds(rules: Rules, parent: Option<Entry>, ignoreFiles: bool, path: string, nodes: seq<Node>,
                        e: Entry)
    requires rules.rflen <= |path|
  {
    exists dirs, node :: EntryFor(rules, parent, ignoreFiles, path, nodes, dirs, node, e)
  }

  ghost predicate EntryFor(rules: Rules, parent: Option<Entry>, ignoreFiles: bool, path: string, nodes: seq<Node>,
                           dirs: seq<Node>, node: Node, e: Entry)
    requires rules.rflen <= |path|
  {
    && At(nodes, dirs, node) && Listed(rules, parent.None?, ignoreFiles, path, dirs, node)
    && (forall k :: 0 <= k < |dirs| ==> dirs[k].Dir?) && e == EntryOf(rules, parent, path, dirs, node)
  }

  /** What the scan finds, for any rules: the entries of the listed nodes, and no others. */
  lemma WalkFinds(rules: Rules, parent: Option<Entry>, ignoreFiles: bool, path: string, nodes: seq<Node>, e: Entry)
    requires rules.rflen <= |path|
    ensures e in Walk(rules, parent, ignoreFiles, path, nodes) <==> Finds(rules, parent, ignoreFiles, path, nodes, e)
  {
    hide Walk, At, Listed, EntryOf;
    if e in Walk(rules, parent, ignoreFiles, path, nodes) {
      var dirs, node := WalkFound(rules, parent, ignoreFiles, path, nodes, e);
      assert EntryFor(rules, parent, ignoreFiles, path, nodes, dirs, node, e);
    }
    if Finds(rules, parent, ignoreFiles, path, nodes, e) {
      var dirs, node :| EntryFor(rules, parent, ignoreFiles, path, nodes, dirs, node, e);
      WalkHas(rules, parent, ignoreFiles, path, nodes, dirs, node);
    }
  }

  /** What an entry says: path, name, time, size and attributes of its node, whether it is ignored, and the
      entry of the directory that the node is in. */
  lemma EntrySays(rules: Rules, parent: Option<Entry>, path: string, dirs: seq<Node>, node: Node)
    requires rules.rflen <= |path| && forall k :: 0 <= k < |dirs| ==> dirs[k].Dir?
    ensures var e, at := EntryOf(rules, parent, path, dirs, node), PathTo(path, dirs);
      && e.fullName == at + node.name + (if node.Dir? then "/" else "")
      && e.time == node.time && e.attribs == node.attribs
      && e.length == (if node.Dir? || rules.link(e.fullName) then 0 else node.size)
      && e.canonicalName == (if node.File? && e.localName == ".vrmeta" then ".vrmeta" else e.fullName[rules.rflen..])
      && (e.parent.Some? ==> e.localName == node.name + (if node.Dir? then "/" else ""))
      && e.ignored == (if node.Dir? then RuleAt(rules, at, node).ignoreDirectory else Flagged(rules, path, dirs, node))
    ensures var e := EntryOf(rules, parent, path, dirs, node); var n := |dirs| - 1;
      e.parent == if dirs == [] then parent else Some(EntryOf(rules, parent, path, dirs[..n], dirs[n]))
  {
    if dirs != [] { ParentIs(rules, parent, path, dirs); }
  }

  lemma {:induction false} ParentIs(rules: Rules, parent: Option<Entry>, path: string, dirs: seq<Node>)
    requires rules.rflen <= |path| && dirs != [] && forall k :: 0 <= k < |dirs| ==> dirs[k].Dir?
    ensures var n := |dirs| - 1;
      && ParentOf(rules, parent, path, dirs) == Some(EntryOf(rules, parent, path, dirs[..n], dirs[n]))
      && PathTo(path, dirs) == PathTo(path, dirs[..n]) + dirs[n].name + "/"
    decreases |dirs|
  {
    hide DirEntry, FileEntry, Flagged;
    var n, rest := |dirs| - 1, dirs[1..];
    if n > 0 {
      ParentIs(rules, Some(DirEntry(rules, parent, path, dirs[0])), path + dirs[0].name + "/", rest);
      assert dirs[..n][1..] == rest[..n - 1];
    } else {
      assert rest == [] && dirs[..0] == [];
    }
  }

  /** At the top of the area the administration folder has no descendants in the list, so that the
      program's check of that cannot fail. */
  lemma AdministrationFolder(rules: Rules, path: string, name: string)
    requires rules.rflen <= |path| && (path[rules.rflen..] == "" || path[|path| - 1] == '/')
    requires Inside(rules, path + name + "/") == ".versionr/"
    ensures name == ".versionr"
  {
    var before := path[rules.rflen..];
    var all := before + (name + "/");
    assert path + name + "/" == path[..rules.rflen] + all;
    assert Inside(rules, path + name + "/") == all;
    assert forall k :: 0 <= k < |before| ==> all[k] == before[k] == path[rules.rflen + k];
    assert forall k :: 0 <= k < 9 ==> ".versionr/"[k] != '/';
    assert |before| < |all|;
    if before != "" { assert false; }
    assert (name + "/")[..|name + "/"| - 1] == name;
    assert ".versionr/"[..9] == ".versionr";
  }

  // ----- one entry for each of them

  /** Names are distinct within every directory, and hold no slash. */
  ghost predicate Tidy(nodes: seq<Node>)
    decreases nodes
  {
    && (forall m, n :: m in nodes && n in nodes && m.name == n.name ==> m == n)
    && (forall i, j :: 0 <= i < j < |nodes| ==> nodes[i] != nodes[j])
    && (forall n :: n in nodes ==> '/' !in n.name)
    && (forall n :: n in nodes && n.Dir? ==> Tidy(n.children))
  }

  function Depth(e: Option<Entry>): nat { if e.None? then 0 else 1 + Depth(e.value.parent) }

  lemma {:induction false} DepthOf(rules: Rules, parent: Option<Entry>, path: string, dirs: seq<Node>, node: Node)
    requires rules.rflen <= |path| && forall k :: 0 <= k < |dirs| ==> dirs[k].Dir?
    ensures Depth(Some(EntryOf(rules, parent, path, dirs, node))) == Depth(parent) + |dirs| + 1
    decreases |dirs|
  {
    var n := |dirs| - 1;
    hide EntryOf;
    EntrySays(rules, parent, path, dirs, node);
    if dirs != [] { DepthOf(rules, parent, path, dirs[..n], dirs[n]); }
  }

  lemma {:induction false} AtSnoc(nodes: seq<Node>, dirs: seq<Node>, node: Node)
    requires At(nodes, dirs, node) && dirs != []
    ensures var n := |dirs| - 1;
      At(nodes, dirs[..n], dirs[n]) && dirs[n].Dir? && node in dirs[n].children
    ensures Tidy(nodes) ==> Tidy(dirs[|dirs| - 1].children)
    decreases |dirs|
  {
    var n := |dirs| - 1;
    if n > 0 {
      AtSnoc(dirs[0].children, dirs[1..], node);
      assert dirs[..n][1..] == dirs[1..][..n - 1];
    }
  }

  /** The full name of an entry within its directory tells the node. */
  lemma SameName(nodes: seq<Node>, m: Node, n: Node)
    requires Tidy(nodes) && m in nodes && n in nodes
    requires m.name + (if m.Dir? then "/" else "") == n.name + (if n.Dir? then "/" else "")
    ensures m == n
  {
    var a, b := m.name + (if m.Dir? then "/" else ""), n.name + (if n.Dir? then "/" else "");
    assert forall i :: 0 <= i < |m.name| ==> a[i] == m.name[i];
    assert forall i :: 0 <= i < |n.name| ==> b[i] == n.name[i];
    assert m.Dir? ==> a[|a| - 1] == '/';
    assert n.Dir? ==> b[|b| - 1] == '/';
    assert m.name == a[..|m.name|] && n.name == b[..|n.name|];
  }

  /** Different places have different entries. */
  lemma {:induction false} EntryTells(rules: Rules, parent: Option<Entry>, path: string, nodes: seq<Node>,
                                      dirs: seq<Node>, node: Node, dirs': seq<Node>, node': Node)
    requires rules.rflen <= |path| && Tidy(nodes) && At(nodes, dirs, node) && At(nodes, dirs', node')
    requires (forall k :: 0 <= k < |dirs| ==> dirs[k].Dir?) && (forall k :: 0 <= k < |dirs'| ==> dirs'[k].Dir?)
    requires EntryOf(rules, parent, path, dirs, node) == EntryOf(rules, parent, path, dirs', node')
    ensures dirs == dirs' && node == node'
    decreases |dirs|
  {
    hide EntryOf, Tidy, RuleAt, Flagged;
    DepthOf(rules, parent, path, dirs, node);
    DepthOf(rules, parent, path, dirs', node');
    EntrySays(rules, parent, path, dirs, node);
    EntrySays(rules, parent, path, dirs', node');
    var n := |dirs| - 1;
    if dirs == [] {
      SameTail(path, node, node');
      SameName(nodes, node, node');
    } else {
      AtSnoc(nodes, dirs, node);
      AtSnoc(nodes, dirs', node');
      EntryTells(rules, parent, path, nodes, dirs[..n], dirs[n], dirs'[..n], dirs'[n]);
      assert dirs == dirs[..n] + [dirs[n]] && dirs' == dirs'[..n] + [dirs'[n]];
      SameTail(PathTo(path, dirs), node, node');
      SameName(dirs[n].children, node, node');
    }
  }

  lemma SameTail(at: string, m: Node, n: Node)
    requires at + m.name + (if m.Dir? then "/" else "") == at + n.name + (if n.Dir? then "/" else "")
    ensures m.name + (if m.Dir? then "/" else "") == n.name + (if n.Dir? then "/" else "")
  {
    var a, b := m.name + (if m.Dir? then "/" else ""), n.name + (if n.Dir? then "/" else "");
    assert at + m.name + (if m.Dir? then "/" else "") == at + a;
    assert at + n.name + (if n.Dir? then "/" else "") == at + b;
    assert (at + a)[|at|..] == a && (at + b)[|at|..] == b;
  }

  /** So a node of a tidy tree has its entry in the scan exactly if it is listed. */
  lemma ListedExactly(rules: Rules, parent: Option<Entry>, ignoreFiles: bool, path: string, nodes: seq<Node>,
                      dirs: seq<Node>, node: Node)
    requires rules.rflen <= |path| && Tidy(nodes) && At(nodes, dirs, node)
    requires forall k :: 0 <= k < |dirs| ==> dirs[k].Dir?
    ensures EntryOf(rules, parent, path, dirs, node) in Walk(rules, parent, ignoreFiles, path, nodes)
      <==> Listed(rules, parent.None?, ignoreFiles, path, dirs, node)
  {
    hide Walk, At, Listed, EntryOf, Tidy;
    var e := EntryOf(rules, parent, path, dirs, node);
    if e in Walk(rules, parent, ignoreFiles, path, nodes) {
      var dirs', node' := WalkFound(rules, parent, ignoreFiles, path, nodes, e);
      EntryTells(rules, parent, path, nodes, dirs, node, dirs', node');
    }
    if Listed(rules, parent.None?, ignoreFiles, path, dirs, node) {
      WalkHas(rules, parent, ignoreFiles, path, nodes, dirs, node);
    }
  }

  lemma TidyRest(nodes: seq<Node>)
    requires Tidy(nodes) && nodes != []
    ensures Tidy(nodes[1..]) && nodes[0] !in nodes[1..]
  {
    var rest := nodes[1..];
    forall i | 0 <= i < |rest| ensures rest[i] != nodes[0] { assert rest[i] == nodes[i + 1]; }
    forall i, j | 0 <= i < j < |rest| ensures rest[i] != rest[j] {
      assert rest[i] == nodes[i + 1] && rest[j] == nodes[j + 1];
    }
  }

  lemma AtFirst(nodes: seq<Node>, dirs: seq<Node>, node: Node)
    requires At(nodes, dirs, node)
    ensures First(dirs, node) in nodes
  {
  }

  lemma AtMore(n: Node, rest: seq<Node>, dirs: seq<Node>, node: Node)
    requires At(rest, dirs, node)
    ensures At([n] + rest, dirs, node)
  {
  }

  /** In a tidy tree no node has more than one entry. */
  lemma {:induction false} WalkOnce(rules: Rules, parent: Option<Entry>, ignoreFiles: bool, path: string,
                                    nodes: seq<Node>, e: Entry)
    requires rules.rflen <= |path| && Tidy(nodes)
    ensures Walk(rules, parent, ignoreFiles, path, nodes)[e] <= 1
    decreases nodes, 1
  {
    hide WalkNode, At, Listed, EntryOf, Tidy;
    if nodes != [] {
      var n, rest := nodes[0], nodes[1..];
      TidyRest(nodes);
      TidyChildren(nodes, n);
      NodeOnce(rules, parent, ignoreFiles, path, n, e);
      WalkOnce(rules, parent, ignoreFiles, path, rest, e);
      if e in WalkNode(rules, parent, ignoreFiles, path, n) && e in Walk(rules, parent, ignoreFiles, path, rest) {
        var dirs, node := NodeFound(rules, parent, ignoreFiles, path, nodes, n, e);
        var dirs', node' := WalkFound(rules, parent, ignoreFiles, path, rest, e);
        AtFirst(rest, dirs', node');
        AtMore(n, rest, dirs', node');
        assert nodes == [n] + rest;
        EntryTells(rules, parent, path, nodes, dirs, node, dirs', node');
        assert false;
      }
    }
  }

  lemma TidyChildren(nodes: seq<Node>, n: Node)
    requires Tidy(nodes) && n in nodes
    ensures n.Dir? ==> Tidy(n.children)
  {
  }

  lemma {:induction false} NodeOnce(rules: Rules, parent: Option<Entry>, ignoreFiles: bool, path: string, n: Node,
                                    e: Entry)
    requires rules.rflen <= |path| && (n.Dir? ==> Tidy(n.children))
    ensures WalkNode(rules, parent, ignoreFiles, path, n)[e] <= 1
    decreases n, 0
  {
    hide Walk, IgnoredFiles, Tidy, Reparse, EntryOf, At, Listed;
    if n.Dir? {
      var entry, below, rule := DirEntry(rules, parent, path, n), path + n.name + "/", RuleAt(rules, path, n);
      assert Depth(Some(e)) == 1 + Depth(e.parent);
      WalkOnce(rules, Some(entry), rule.ignoreContents, below, n.children, e);
      IgnoredOnce(rules, entry, below, n.children, e);
      if e == entry && e in Walk(rules, Some(entry), rule.ignoreContents, below, n.children) {
        var dirs, node := WalkFound(rules, Some(entry), rule.ignoreContents, below, n.children, e);
        DepthOf(rules, Some(entry), below, dirs, node);
        assert false;
      }
      if e == entry && e in IgnoredFiles(rules, entry, below, n.children) {
        var f := IgnoredFound(rules, entry, below, n.children, e);
        assert false;
      }
    }
  }

  lemma {:induction false} IgnoredOnce(rules: Rules, parent: Entry, path: string, nodes: seq<Node>, e: Entry)
    requires rules.rflen <= |path| && Tidy(nodes)
    ensures IgnoredFiles(rules, parent, path, nodes)[e] <= 1
  {
    hide Tidy;
    if nodes != [] {
      var n, rest := nodes[0], nodes[1..];
      TidyRest(nodes);
      IgnoredOnce(rules, parent, path, rest, e);
      if n.File? && e == FileEntry(rules, Some(parent), path, n, true) && e in IgnoredFiles(rules, parent, path, rest) {
        var f := IgnoredFound(rules, parent, path, rest, e);
        SameTail(path, f, n);
        SameName(nodes, f, n);
        assert false;
      }
    }
  }

  // ----- how many entries

  ghost predicate QuietRules(rules: Rules) { forall full :: rules.dir(full) == DirRule(false, false, false) }

  /** No links and no administration folders. */
  ghost predicate Plain(nodes: seq<Node>)
    decreases nodes
  {
    nodes != [] ==> PlainNode(nodes[0]) && Plain(nodes[1..])
  }

  ghost predicate PlainNode(node: Node)
    decreases node
  {
    match node
    case File(_, _, _, _) => true
    case Dir(name, _, attribs, children) => name != ".versionr" && !Reparse(attribs) && Plain(children)
  }

  /** With rules that hide and ignore nothing, every node has one entry. */
  lemma {:induction false} EveryNode(rules: Rules, parent: Option<Entry>, path: string, nodes: seq<Node>)
    requires rules.rflen <= |path| && QuietRules(rules) && Plain(nodes)
    requires parent.None? ==> path[rules.rflen..] == "" || path[|path| - 1] == '/'
    ensures |Walk(rules, parent, false, path, nodes)| == Size(nodes)
    decreases nodes, 1
  {
    if nodes != [] {
      NodeCounted(rules, parent, path, nodes[0]);
      EveryNode(rules, parent, path, nodes[1..]);
    }
  }

  lemma {:induction false} NodeCounted(rules: Rules, parent: Option<Entry>, path: string, node: Node)
    requires rules.rflen <= |path| && QuietRules(rules) && PlainNode(node)
    requires parent.None? ==> path[rules.rflen..] == "" || path[|path| - 1] == '/'
    ensures |WalkNode(rules, parent, false, path, node)| == SizeNode(node)
    decreases node, 0
  {
    hide Walk, IgnoredFiles, Reparse, Size;
    if node.Dir? {
      var full := path + node.name + "/";
      assert rules.dir(Inside(rules, full)) == DirRule(false, false, false);
      if parent.None? && Inside(rules, full) == ".versionr/" { AdministrationFolder(rules, path, node.name); }
      EveryNode(rules, Some(DirEntry(rules, parent, path, node)), full, node.children);
    }
  }

  /** Each file of an ignored directory has one entry. */
  lemma {:induction false} EveryIgnored(rules: Rules, parent: Entry, path: string, files: seq<Node>)
    requires rules.rflen <= |path| && forall f :: f in files ==> f.File?
    ensures |IgnoredFiles(rules, parent, path, files)| == |files|
  {
    if files != [] {
      assert files[0] in files;
      EveryIgnored(rules, parent, path, files[1..]);
    }
  }
}
