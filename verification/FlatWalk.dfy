/** The consumer of flat lists: entries and their parents, with ignore rules, in tasks. */
module FlatWalks {
  import opened Optional
  import opened FlatTrees
  import opened TreeWalks

  // ----- tasks

  /** A part of the list still to be processed. */
  datatype Task = Task(start: nat, end: nat, parent: Option<Entry>, ignoreFiles: bool)

  /** The part of the tree that a task covers. */
  datatype Part = Part(path: string, nodes: seq<Node>)

  /** The list holds the flat form of the nodes between start and end. */
  ghost predicate Covers(rules: Rules, results: seq<FlatEntry>, start: nat, end: nat, parent: Option<Entry>,
                         part: Part)
  {
    && start <= end <= |results| && results[start..end] == Flat(part.path, part.nodes)
    && rules.rflen <= |part.path| && (parent.Some? ==> parent.value.fullName == part.path)
    && (parent.None? ==> part.path[rules.rflen..] == "" || part.path[|part.path| - 1] == '/')
  }

  datatype Job = Job(task: Task, part: Part)

  ghost predicate JobCovers(rules: Rules, results: seq<FlatEntry>, job: Job) {
    Covers(rules, results, job.task.start, job.task.end, job.task.parent, job.part)
  }

  ghost predicate Covered(rules: Rules, results: seq<FlatEntry>, jobs: seq<Job>) {
    forall k :: 0 <= k < |jobs| ==> JobCovers(rules, results, jobs[k])
  }

  /** What a task is going to find. */
  function JobFinds(rules: Rules, job: Job): multiset<Entry> {
    if rules.rflen <= |job.part.path| then
      Walk(rules, job.task.parent, job.task.ignoreFiles, job.part.path, job.part.nodes)
    else multiset{}
  }

  function Due(rules: Rules, jobs: seq<Job>): multiset<Entry> {
    if jobs == [] then multiset{} else Due(rules, jobs[..|jobs| - 1]) + JobFinds(rules, jobs[|jobs| - 1])
  }

  function Work(jobs: seq<Job>): int {
    if jobs == [] then 0 else Work(jobs[..|jobs| - 1]) + (jobs[|jobs| - 1].task.end - jobs[|jobs| - 1].task.start) + 1
  }

  // ----- reading the flat form

  /** The first entry of a part of the list belongs to its first node. */
  lemma FlatFirst(results: seq<FlatEntry>, i: nat, end: nat, path: string, nodes: seq<Node>)
    requires i < end <= |results| && results[i..end] == Flat(path, nodes)
    ensures nodes != [] && HeadOf(path, nodes[0], results[i])
    ensures 1 <= |FlatNode(path, nodes[0])| <= end - i
    ensures results[i..i + |FlatNode(path, nodes[0])|] == FlatNode(path, nodes[0])
    ensures results[i + |FlatNode(path, nodes[0])|..end] == Flat(path, nodes[1..])
  {
    var a, b := FlatNode(path, nodes[0]), Flat(path, nodes[1..]);
    assert results[i..end] == a + b;
    assert results[i] == results[i..end][0] == a[0];
    assert results[i..i + |a|] == results[i..end][..|a|] == a;
    assert results[i + |a|..end] == results[i..end][|a|..] == b;
  }

  /** What the entry of a node says. */
  ghost predicate HeadOf(path: string, node: Node, r: FlatEntry) {
    match node
    case File(name, size, time, attribs) =>
      r == FlatEntry(path + name, 0, attribs, time, size) && |FlatNode(path, node)| == 1
    case Dir(name, time, attribs, children) =>
      && r == FlatEntry(path + name + "/", |Flat(path + name + "/", Kids(node))|, attribs, time, -1)
      && |FlatNode(path, node)| == 1 + r.childCount
  }

  /** The descendants of a directory follow its entry. */
  lemma FlatBelow(results: seq<FlatEntry>, i: nat, path: string, d: Node)
    requires d.Dir? && i + |FlatNode(path, d)| <= |results| && results[i..i + |FlatNode(path, d)|] == FlatNode(path, d)
    ensures results[i + 1..i + |FlatNode(path, d)|] == Flat(path + d.name + "/", Kids(d))
  {
    FlatDir(path, d);
    assert results[i + 1..i + |FlatNode(path, d)|] == results[i..i + |FlatNode(path, d)|][1..];
  }

  lemma FlatEnd(path: string, nodes: seq<Node>)
    requires Flat(path, nodes) == []
    ensures nodes == []
  {
    if nodes != [] { FlatNodeSome(path, nodes[0]); }
  }

  lemma FlatNodeSome(path: string, node: Node)
    ensures FlatNode(path, node) != []
  {
  }

  lemma WalkFirst(rules: Rules, parent: Option<Entry>, ignoreFiles: bool, path: string, nodes: seq<Node>)
    requires rules.rflen <= |path| && nodes != []
    ensures Walk(rules, parent, ignoreFiles, path, nodes)
         == WalkNode(rules, parent, ignoreFiles, path, nodes[0]) + Walk(rules, parent, ignoreFiles, path, nodes[1..])
  {
  }

  lemma DueSnoc(rules: Rules, jobs: seq<Job>, job: Job)
    ensures Due(rules, jobs + [job]) == Due(rules, jobs) + JobFinds(rules, job)
    ensures Work(jobs + [job]) == Work(jobs) + job.task.end - job.task.start + 1
  {
    assert (jobs + [job])[..|jobs|] == jobs;
  }

  lemma Without<T>(s: seq<T>, k: nat)
    requires k < |s|
    ensures var n := |s| - 1;
      s[..k] + s[k + 1..] == if k == n then s[..n] else (s[..n][..k] + s[..n][k + 1..]) + [s[n]]
  {
  }

  /** Taking one task out takes out what it will find, and its share of the work. */
  lemma {:induction false} DueWithout(rules: Rules, jobs: seq<Job>, k: nat)
    requires k < |jobs|
    ensures Due(rules, jobs) == Due(rules, jobs[..k] + jobs[k + 1..]) + JobFinds(rules, jobs[k])
    ensures Work(jobs) == Work(jobs[..k] + jobs[k + 1..]) + jobs[k].task.end - jobs[k].task.start + 1
    decreases |jobs|
  {
    hide JobFinds, Due, Work;
    var n := |jobs| - 1;
    var init := jobs[..n];
    Without(jobs, k);
    assert jobs == init + [jobs[n]];
    DueSnoc(rules, init, jobs[n]);
    if k < n {
      DueWithout(rules, init, k);
      DueSnoc(rules, init[..k] + init[k + 1..], jobs[n]);
    }
  }

  class Scan {
    const rules: Rules
    const results: seq<FlatEntry>
    var e2: multiset<Entry>
    /** Tasks that have been started and not yet run. */
    var pending: seq<Task>
    ghost var jobs: seq<Job>

    constructor (rules_: Rules, results_: seq<FlatEntry>)
      ensures rules == rules_ && results == results_ && Valid() && Total() == multiset{} && pending == []
    {
      rules, results := rules_, results_;
      e2, pending, jobs := multiset{}, [], [];
    }

    ghost predicate Valid()
      reads this
    {
      && Covered(rules, results, jobs)
      && |pending| == |jobs| && forall k :: 0 <= k < |pending| ==> pending[k] == jobs[k].task
    }

    /** What has been found, and what the tasks will find. */
    ghost function Total(): multiset<Entry>
      requires Valid()
      reads this
    {
      e2 + Due(rules, jobs)
    }

    method Add(entry: Entry)
      requires Valid()
      modifies `e2
      ensures Valid() && Total() == old(Total()) + multiset{entry}
    {
      e2 := e2 + multiset{entry};
    }

    /** ProcessListFast: the entries from start to end, whose parent is parentEntry. */
    method ProcessListFast(start: nat, end: nat, parentEntry: Option<Entry>, ignoreFiles: bool, ghost part: Part)
      requires Valid() && Covers(rules, results, start, end, parentEntry, part)
      modifies this
      ensures Valid() && Total() == old(Total()) + Walk(rules, parentEntry, ignoreFiles, part.path, part.nodes)
      ensures Work(jobs) <= old(Work(jobs)) + end - start
      decreases end - start, 1
    {
      hide Flat, FlatNode, Walk, WalkNode, Due, Covered, Work;
      ghost var path, nodes := part.path, part.nodes;
      var i: nat := start;
      while i < end
        invariant start <= i <= end && results[i..end] == Flat(path, nodes)
        invariant Valid() && Total() + Walk(rules, parentEntry, ignoreFiles, path, nodes)
          == old(Total()) + Walk(rules, parentEntry, ignoreFiles, path, part.nodes)
        invariant Work(jobs) <= old(Work(jobs)) + i - start
        decreases end - i
      {
        var r := results[i];
        FlatFirst(results, i, end, path, nodes);
        ghost var node := nodes[0];
        WalkFirst(rules, parentEntry, ignoreFiles, path, nodes);
        if r.length == -1 {
          i := ProcessDirectory(i, parentEntry, ignoreFiles, path, node);
        } else {
          ProcessFile(r, parentEntry, ignoreFiles, path, node);
        }
        nodes := nodes[1..];
        i := i + 1;
      }
      FlatEnd(path, nodes);
      WalkNothing(rules, parentEntry, ignoreFiles, path);
    }

    /** A file. */
    method ProcessFile(r: FlatEntry, parentEntry: Option<Entry>, ignoreFiles: bool, ghost path: string,
                       ghost node: Node)
      requires Valid() && node.File? && HeadOf(path, node, r) && rules.rflen <= |path|
      requires parentEntry.Some? ==> parentEntry.value.fullName == path
      modifies `e2
      ensures Valid() && Total() == old(Total()) + WalkNode(rules, parentEntry, ignoreFiles, path, node)
    {
      if !ignoreFiles {
        var fn := r.fullName[rules.rflen..];
        var ignored := rules.file(fn);
        var localName := if parentEntry.None? then fn else r.fullName[|parentEntry.value.fullName|..];
        Add(NewEntry(rules, parentEntry, fn, r.fullName, localName, r.fileTime, r.length, ignored, r.attributes));
      }
    }

    /** A directory, with all its descendants; answers the index of the last of them. */
    method ProcessDirectory(i: nat, parentEntry: Option<Entry>, ignoreFiles: bool, ghost path: string, ghost node: Node)
      returns (next: nat)
      requires Valid() && node.Dir? && i + |FlatNode(path, node)| <= |results| && HeadOf(path, node, results[i])
      requires results[i..i + |FlatNode(path, node)|] == FlatNode(path, node) && rules.rflen <= |path|
      requires parentEntry.Some? ==> parentEntry.value.fullName == path
      requires parentEntry.None? ==> path[rules.rflen..] == "" || path[|path| - 1] == '/'
      modifies this
      ensures Valid() && next == i + results[i].childCount
      ensures Total() == old(Total()) + WalkNode(rules, parentEntry, ignoreFiles, path, node)
      ensures Work(jobs) <= old(Work(jobs)) + 1 + results[i].childCount
      decreases 1 + results[i].childCount, 0
    {
      hide Flat, FlatNode, Walk, WalkNode, Due, Covered, Work, IgnoredFiles, Below, Reparse;
      var r := results[i];
      next := i + r.childCount;
      FlatBelow(results, i, path, node);
      WalkDir(rules, parentEntry, ignoreFiles, path, node);
      var slashedSubdirectory := r.fullName[rules.rflen..];
      if slashedSubdirectory == ".versionr/" {
        if parentEntry.None? {
          AdministrationFolder(rules, path, node.name);
          NoKids(r.fullName);
          assert r.childCount == 0;
          return;
        }
      }
      var rule := rules.dir(slashedSubdirectory);
      if rule.hide_ { return; }
      var localName := if parentEntry.None? then slashedSubdirectory else r.fullName[|parentEntry.value.fullName|..];
      var parent := Entry(parentEntry, slashedSubdirectory, r.fullName, localName, r.fileTime, 0, rule.ignoreDirectory,
                          r.attributes);
      if Reparse(r.attributes) { return; }
      assert parent == DirEntry(rules, parentEntry, path, node);
      AddTwice(Total(), parent, Below(rules, parent, rule, Kids(node)));
      Add(parent);
      ProcessBelow(i + 1, i + 1 + r.childCount, parent, rule, Kids(node));
    }

    /** What is in a directory that has an entry. */
    method ProcessBelow(s: nat, e: nat, parent: Entry, rule: DirRule, ghost kids: seq<Node>)
      requires Valid() && s <= e <= |results| && rules.rflen <= |parent.fullName|
      requires results[s..e] == Flat(parent.fullName, kids)
      modifies this
      ensures Valid() && Total() == old(Total()) + Below(rules, parent, rule, kids)
      ensures Work(jobs) <= old(Work(jobs)) + 1 + e - s
      decreases e - s, 2
    {
      hide Flat, FlatNode, Walk, Due, Covered, Work, IgnoredFiles;
      if rule.ignoreDirectory {
        MarkIgnored(s, e, parent, kids);
      } else {
        ghost var part := Part(parent.fullName, kids);
        if e - s > 16 {
          StartTask(Task(s, e, Some(parent), rule.ignoreContents), part);
        } else {
          ProcessListFast(s, e, Some(parent), rule.ignoreContents, part);
        }
      }
    }

    /** Leaves a part of the list to a task. */
    method StartTask(task: Task, ghost part: Part)
      requires Valid() && Covers(rules, results, task.start, task.end, task.parent, part)
      modifies `pending, `jobs
      ensures Valid() && Total() == old(Total()) + Walk(rules, task.parent, task.ignoreFiles, part.path, part.nodes)
      ensures Work(jobs) == old(Work(jobs)) + task.end - task.start + 1
    {
      hide Walk, Due, Work;
      DueSnoc(rules, jobs, Job(task, part));
      pending := pending + [task];
      jobs := jobs + [Job(task, part)];
    }

    /** The files directly in an ignored directory; the directories in it are stepped over. */
    method MarkIgnored(start: nat, end: nat, parent: Entry, ghost kids: seq<Node>)
      requires Valid() && start <= end <= |results| && results[start..end] == Flat(parent.fullName, kids)
      requires rules.rflen <= |parent.fullName|
      modifies `e2
      ensures Valid() && Total() == old(Total()) + IgnoredFiles(rules, parent, parent.fullName, kids)
    {
      hide Flat, FlatNode, Due, Covered;
      ghost var rest := kids;
      var x := start;
      while x < end
        invariant start <= x <= end && results[x..end] == Flat(parent.fullName, rest)
        invariant Valid() && Total() + IgnoredFiles(rules, parent, parent.fullName, rest)
          == old(Total()) + IgnoredFiles(rules, parent, parent.fullName, kids)
        decreases end - x
      {
        FlatFirst(results, x, end, parent.fullName, rest);
        if results[x].length != -1 {
          var f := results[x];
          var fn := f.fullName[rules.rflen..];
          var ignoredFile := NewEntry(rules, Some(parent), fn, f.fullName, f.fullName[|parent.fullName|..], f.fileTime,
                                      f.length, true, f.attributes);
          assert ignoredFile == FileEntry(rules, Some(parent), parent.fullName, rest[0], true);
          Add(ignoredFile);
        } else {
          x := x + results[x].childCount;
        }
        rest := rest[1..];
        x := x + 1;
      }
      FlatEnd(parent.fullName, rest);
    }

    /** Runs the tasks that have been started, and those that they start, in any order. */
    method RunTasks()
      requires Valid()
      modifies this
      ensures Valid() && pending == [] && e2 == old(Total())
    {
      hide Walk, Due, Work;
      while pending != []
        invariant Valid() && Total() == old(Total())
        decreases Work(jobs)
      {
        var k :| 0 <= k < |pending|;
        var task := pending[k];
        ghost var part := jobs[k].part;
        assert JobCovers(rules, results, jobs[k]);
        DueWithout(rules, jobs, k);
        pending := pending[..k] + pending[k + 1..];
        jobs := jobs[..k] + jobs[k + 1..];
        WorkPositive(rules, results, jobs);
        ProcessListFast(task.start, task.end, task.parent, task.ignoreFiles, part);
      }
      NothingDue(rules);
    }
  }

  lemma WalkNothing(rules: Rules, parent: Option<Entry>, ignoreFiles: bool, path: string)
    requires rules.rflen <= |path|
    ensures Walk(rules, parent, ignoreFiles, path, []) == multiset{}
  {
  }

  lemma NoKids(path: string)
    ensures Flat(path, []) == []
  {
  }

  lemma AddTwice(a: multiset<Entry>, entry: Entry, b: multiset<Entry>)
    ensures a + multiset{entry} + b == a + (multiset{entry} + b)
  {
  }

  lemma WalkDir(rules: Rules, parent: Option<Entry>, ignoreFiles: bool, path: string, d: Node)
    requires d.Dir? && rules.rflen <= |path|
    ensures var local := Inside(rules, path + d.name + "/"); var rule := rules.dir(local);
      var entry := DirEntry(rules, parent, path, d); var all := WalkNode(rules, parent, ignoreFiles, path, d);
      && ((local == ".versionr/" && parent.None?) || rule.hide_ || Reparse(d.attribs) ==> all == multiset{})
      && (!((local == ".versionr/" && parent.None?) || rule.hide_ || Reparse(d.attribs)) ==>
          all == multiset{entry} + Below(rules, entry, rule, Kids(d)))
  {
  }

  lemma {:induction false} WorkPositive(rules: Rules, results: seq<FlatEntry>, jobs: seq<Job>)
    requires Covered(rules, results, jobs)
    ensures 0 <= Work(jobs)
  {
    if jobs != [] {
      var n := |jobs| - 1;
      assert JobCovers(rules, results, jobs[n]);
      WorkPositive(rules, results, jobs[..n]);
    }
  }

  lemma NothingDue(rules: Rules)
    ensures Due(rules, []) == multiset{}
  {
  }

  // ----- the whole scan

  /** GetEntryList: the scan of a directory inside the area, or of the whole area, by the native
      producer. The tasks may run in any order; what they find is the recursion over the tree. */
  method GetEntryList(rules: Rules, fn: string, dir: seq<Node>, time: int, attribs: nat)
    returns (entries: multiset<Entry>)
    requires rules.rflen <= |fn| && fn != "" && fn[|fn| - 1] == '/' && fn[rules.rflen..] != ".versionr/"
    ensures var whole := fn[rules.rflen..] == "";
      var path := if whole then fn else fn[..rules.rflen];
      var nodes := if whole then PosixView(dir) else [Dir(fn[rules.rflen..|fn| - 1], time, attribs, PosixView(dir))];
      && entries == Walk(rules, None, false, path, nodes)
      && forall e :: e in entries <==> Finds(rules, None, false, path, nodes, e)
  {
    hide Walk, Finds;
    var list := new EntryList();
    var root := fn[..|fn| - 1];
    assert root + "/" == fn;
    var count := list.ScanRec(dir, root);
    var flatEntries := list.entries;
    assert flatEntries == Flat(fn, PosixView(dir));
    ghost var part := Part(fn, PosixView(dir));
    if fn[rules.rflen..] != "" {
      flatEntries := [FlatEntry(fn, |flatEntries|, attribs, time, -1)] + flatEntries;
      part := Part(fn[..rules.rflen], [Dir(fn[rules.rflen..|fn| - 1], time, attribs, PosixView(dir))]);
      RootEntry(fn, rules.rflen, dir, time, attribs);
    }
    var scan := new Scan(rules, flatEntries);
    assert flatEntries[0..|flatEntries|] == flatEntries;
    scan.ProcessListFast(0, |flatEntries|, None, false, part);
    scan.RunTasks();
    entries := scan.e2;
    forall e ensures e in entries <==> Finds(rules, None, false, part.path, part.nodes, e) {
      WalkFinds(rules, None, false, part.path, part.nodes, e);
    }
  }

  lemma RootEntry(fn: string, n: nat, dir: seq<Node>, time: int, attribs: nat)
    requires n < |fn| && fn[|fn| - 1] == '/' && fn[n..] != ".versionr/"
    ensures Flat(fn[..n], [Dir(fn[n..|fn| - 1], time, attribs, PosixView(dir))])
         == [FlatEntry(fn, |Flat(fn, PosixView(dir))|, attribs, time, -1)] + Flat(fn, PosixView(dir))
  {
    var name := fn[n..|fn| - 1];
    var d := Dir(name, time, attribs, PosixView(dir));
    assert fn[..n] + name + "/" == fn;
    assert fn[n..] == name + "/" && ".versionr/" == ".versionr" + "/";
    FlatDir(fn[..n], d);
    assert [d][1..] == [];
    assert Flat(fn[..n], [d]) == FlatNode(fn[..n], d) + Flat(fn[..n], []);
  }
}
