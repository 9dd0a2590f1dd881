/** Symbol counts and the sort that both ends of the codec derive their tables from. */
module HuffStat {
  type int16 = x: int | -0x8000 <= x < 0x8000

  /** 256 literals, 16 match lengths, "recalculate tables" and "end of block" */
  const SYMBOLS: nat := 274

  /** A symbol i and its count n. */
  datatype Item = Item(i: int16, n: int16)

  /** `operator<`: higher counts first, among equal counts higher symbols first. */
  predicate Before(a: Item, b: Item) {
    var cmp := b.n - a.n;
    (if cmp != 0 then cmp else b.i - a.i) < 0
  }

  ghost predicate IsSorted(s: seq<Item>) {
    forall p, q :: 0 <= p < q < |s| ==> !Before(s[q], s[p])
  }

  function Insert(x: Item, s: seq<Item>): seq<Item> {
    if s != [] && Before(s[0], x) then [s[0]] + Insert(x, s[1..]) else [x] + s
  }

  /** The reference sort. */
  function SortItems(s: seq<Item>): seq<Item> {
    if s == [] then [] else Insert(s[0], SortItems(s[1..]))
  }

  lemma {:induction false} InsertPermutes(x: Item, s: seq<Item>)
    ensures multiset(Insert(x, s)) == multiset(s) + multiset{x}
  {
    if s != [] && Before(s[0], x) {
      InsertPermutes(x, s[1..]);
      assert s == [s[0]] + s[1..];
    }
  }

  lemma {:induction false} InsertSorts(x: Item, s: seq<Item>)
    requires IsSorted(s)
    ensures IsSorted(Insert(x, s))
  {
    if s != [] && Before(s[0], x) {
      var r := Insert(x, s[1..]);
      InsertSorts(x, s[1..]);
      InsertPermutes(x, s[1..]);
      forall q | 0 <= q < |r| ensures !Before(r[q], s[0]) {
        assert r[q] in multiset(r);
        assert r[q] == x || r[q] in s[1..];
      }
    }
  }

  /** Falling counts, and among equal counts falling symbols. */
  ghost predicate Falling(s: seq<Item>) {
    forall p, q :: 0 <= p < q < |s| ==> s[p].n > s[q].n || (s[p].n == s[q].n && s[p].i >= s[q].i)
  }

  lemma {:induction false} SortItemsSorts(s: seq<Item>)
    ensures IsSorted(SortItems(s)) && multiset(SortItems(s)) == multiset(s)
    ensures Falling(SortItems(s))
  {
    if s == [] {
    } else {
      SortItemsSorts(s[1..]);
      InsertSorts(s[0], SortItems(s[1..]));
      InsertPermutes(s[0], SortItems(s[1..]));
      assert s == [s[0]] + s[1..];
    }
  }

  /** The order is total, so there is only one sorted arrangement. */
  lemma {:induction false} SortedUnique(s: seq<Item>, t: seq<Item>)
    requires IsSorted(s) && IsSorted(t) && multiset(s) == multiset(t)
    ensures s == t
  {
    hide IsSorted, Before;
    assert |multiset(s)| == |s| && |multiset(t)| == |t|;
    if s == [] {
    } else {
      SameFirst(s, t);
      TailMultiset(s);
      TailMultiset(t);
      SortedTail(s);
      SortedTail(t);
      SortedUnique(s[1..], t[1..]);
      assert s == [s[0]] + s[1..] && t == [t[0]] + t[1..];
    }
  }

  lemma SortedTail(s: seq<Item>)
    requires IsSorted(s) && s != []
    ensures IsSorted(s[1..])
  {
  }

  lemma SameFirst(s: seq<Item>, t: seq<Item>)
    requires IsSorted(s) && IsSorted(t) && multiset(s) == multiset(t) && s != [] && t != []
    ensures s[0] == t[0]
  {
    FirstOfSorted(s, t);
    FirstOfSorted(t, s);
  }

  lemma FirstOfSorted(s: seq<Item>, t: seq<Item>)
    requires IsSorted(s) && multiset(s) == multiset(t) && s != [] && t != []
    ensures s[0] == t[0] || !Before(t[0], s[0])
  {
    assert t[0] in multiset(t);
    assert t[0] in s;
  }

  lemma TailMultiset(s: seq<Item>)
    requires s != []
    ensures multiset(s[1..]) == multiset(s) - multiset{s[0]}
  {
    assert s == [s[0]] + s[1..];
  }

  // ----- shell sort

  predicate GapSorted(s: seq<Item>, h: nat, n: nat) {
    forall p :: 0 <= p && p + h < n && p + h < |s| ==> !Before(s[p + h], s[p])
  }

  lemma {:induction false} GapOneSorted(s: seq<Item>, p: nat, q: nat)
    requires GapSorted(s, 1, |s|) && p < q < |s|
    ensures !Before(s[q], s[p])
    decreases q
  {
    assert !Before(s[q - 1 + 1], s[q - 1]);
    if p < q - 1 { GapOneSorted(s, p, q - 1); }
  }

  lemma SwapMultiset(s: seq<Item>, p: nat, q: nat)
    requires p < q < |s|
    ensures multiset(s[p := s[q]][q := s[p]]) == multiset(s)
  {
    assert s == s[..p] + [s[p]] + s[p + 1..q] + [s[q]] + s[q + 1..];
    assert s[p := s[q]][q := s[p]] == s[..p] + [s[q]] + s[p + 1..q] + [s[p]] + s[q + 1..];
  }

  /** Every chain of stride h is sorted up to i, but for the hole at j. */
  ghost predicate GapSortedAround(s: seq<Item>, h: nat, i: nat, j: nat, v: Item)
    requires i < |s| && j <= i
  {
    && (forall p :: 0 <= p && p + h <= i && p + h != j && p != j ==> !Before(s[p + h], s[p]))
    && (j + h <= i ==> Before(v, s[j + h]))
    && (j + h <= i && h <= j ==> !Before(s[j + h], s[j - h]))
  }

  lemma MoveHole(s: seq<Item>, h: nat, i: nat, j: nat, v: Item)
    requires 0 < h <= j <= i < |s| && GapSortedAround(s, h, i, j, v) && Before(v, s[j - h])
    ensures GapSortedAround(s[j := s[j - h]], h, i, j - h, v)
  {
    var t := s[j := s[j - h]];
    forall p | 0 <= p && p + h <= i && p + h != j - h && p != j - h ensures !Before(t[p + h], t[p]) {
      if p != j && p + h != j { assert !Before(s[p + h], s[p]); }
    }
    if h <= j - h { assert !Before(s[j - h], s[j - h - h]); }
  }

  lemma CloseHole(s: seq<Item>, h: nat, i: nat, j: nat, v: Item)
    requires 0 < h && j <= i < |s| && GapSortedAround(s, h, i, j, v)
    requires h <= j ==> !Before(v, s[j - h])
    ensures GapSorted(s[j := v], h, i + 1)
  {
    var t := s[j := v];
    forall p | 0 <= p && p + h < i + 1 ensures !Before(t[p + h], t[p]) {
      if p != j && p + h != j { assert !Before(s[p + h], s[p]); }
    }
  }

  lemma MoveHolePermutes(s: seq<Item>, j: nat, k: nat, v: Item)
    requires k < j < |s|
    ensures multiset(s[j := s[k]][k := v]) == multiset(s[j := v])
  {
    var t := s[j := v];
    SwapMultiset(t, k, j);
    assert s[j := s[k]][k := v] == t[k := t[j]][j := t[k]];
  }

  /** Moves a[i] down its chain of stride h. */
  method SinkInto(a: array<Item>, h: nat, i: nat)
    requires 0 < h <= i < a.Length && GapSorted(a[..], h, i)
    modifies a
    ensures multiset(a[..]) == multiset(old(a[..]))
    ensures GapSorted(a[..], h, i + 1)
  {
    var v := a[i];
    var j := i;
    ghost var s := a[..];
    assert s[j := v] == s;
    while j >= h && Before(v, a[j - h])
      invariant 0 <= j <= i < a.Length
      invariant s == a[..] && multiset(s[j := v]) == multiset(old(a[..]))
      invariant GapSortedAround(s, h, i, j, v)
    {
      MoveHole(s, h, i, j, v);
      MoveHolePermutes(s, j, j - h, v);
      a[j] := a[j - h];
      s := s[j := s[j - h]];
      assert a[..] == s;
      j := j - h;
    }
    CloseHole(s, h, i, j, v);
    a[j] := v;
    assert a[..] == s[j := v];
  }

  method ShellSort(a: array<Item>)
    requires 13 <= a.Length / 9 < 40
    modifies a
    ensures a[..] == SortItems(old(a[..]))
    ensures Falling(a[..]) && multiset(a[..]) == multiset(old(a[..]))
  {
    var h := 40;
    while h > 0
      invariant h in {40, 13, 4, 1, 0}
      invariant multiset(a[..]) == multiset(old(a[..]))
      invariant h == 0 ==> GapSorted(a[..], 1, a.Length)
    {
      var i := h;
      while i < a.Length
        invariant h <= i <= a.Length
        invariant multiset(a[..]) == multiset(old(a[..]))
        invariant GapSorted(a[..], h, i)
      {
        SinkInto(a, h, i);
        i := i + 1;
      }
      h := h / 3;
    }
    forall p: nat, q: nat | p < q < a.Length ensures !Before(a[..][q], a[..][p]) {
      GapOneSorted(a[..], p, q);
    }
    SortItemsSorts(old(a[..]));
    SortedUnique(a[..], SortItems(old(a[..])));
  }

  // ----- sorted counts

  function Items(stat: seq<int16>): (s: seq<Item>)
    requires |stat| == SYMBOLS
    ensures |s| == SYMBOLS
  {
    seq(SYMBOLS, i requires 0 <= i < |stat| => Item(i, stat[i]))
  }

  function Sorted(stat: seq<int16>): (s: seq<Item>)
    requires |stat| == SYMBOLS
    ensures |s| == SYMBOLS
  {
    SortItemsSorts(Items(stat));
    assert |multiset(SortItems(Items(stat)))| == |multiset(Items(stat))|;
    SortItems(Items(stat))
  }

  function Order(s: seq<Item>): (order: seq<int>)
    ensures |order| == |s|
  {
    seq(|s|, p requires 0 <= p < |s| => s[p].i)
  }

  /** Lists every symbol exactly once. */
  ghost predicate IsPermutation(order: seq<int>) {
    && |order| == SYMBOLS
    && (forall p :: 0 <= p < |order| ==> 0 <= order[p] < SYMBOLS)
    && (forall p, q :: 0 <= p < q < |order| ==> order[p] != order[q])
    && (forall sym :: 0 <= sym < SYMBOLS ==> sym in order)
  }

  /** HUFFRECALCSTAT: counts age by halving. */
  function Halved(stat: seq<int16>): (r: seq<int16>)
    ensures |r| == |stat|
  {
    seq(|stat|, i requires 0 <= i < |stat| => stat[i] / 2)
  }

  function Sum(s: seq<int16>): int {
    if s == [] then 0 else Sum(s[..|s| - 1]) + s[|s| - 1]
  }

  /** Copies the counts out, halves them in place and sorts the copy. The total is that of the
      counts before they are halved. */
  method MakeSortedTmp(stat: array<int16>) returns (s: array<Item>, total: int)
    requires stat.Length == SYMBOLS
    modifies stat
    ensures fresh(s)
    ensures s[..] == Sorted(old(stat[..])) && Falling(s[..])
    ensures total == Sum(old(stat[..]))
    ensures stat[..] == Halved(old(stat[..])) && forall i :: 0 <= i < SYMBOLS ==> stat[i] == old(stat[i]) / 2
  {
    s := new Item[SYMBOLS](_ => Item(0, 0));
    total := 0;
    ghost var was := stat[..];
    var j := 0;
    while j < SYMBOLS
      invariant 0 <= j <= SYMBOLS
      invariant total == Sum(was[..j])
      invariant forall k :: 0 <= k < j ==> s[k] == Item(k, was[k]) && stat[k] == was[k] / 2
      invariant forall k :: j <= k < SYMBOLS ==> stat[k] == was[k]
    {
      s[j] := Item(j, stat[j]);
      total := total + stat[j];
      stat[j] := stat[j] / 2;
      assert was[..j + 1][..j] == was[..j];
      j := j + 1;
    }
    assert was[..SYMBOLS] == was;
    assert s[..] == Items(was);
    assert stat[..] == Halved(was);
    ShellSort(s);
  }

  /** Sorting keeps every symbol, once, with its own count. */
  lemma SortedPermutes(stat: seq<int16>)
    requires |stat| == SYMBOLS
    ensures IsPermutation(Order(Sorted(stat)))
    ensures forall p :: 0 <= p < SYMBOLS ==>
      0 <= Sorted(stat)[p].i < SYMBOLS && Sorted(stat)[p].n == stat[Sorted(stat)[p].i]
  {
    var s, t := Sorted(stat), Items(stat);
    SortItemsSorts(t);
    forall p | 0 <= p < SYMBOLS ensures 0 <= s[p].i < SYMBOLS && s[p].n == stat[s[p].i] {
      assert s[p] in multiset(t);
    }
    forall p, q | 0 <= p < q < SYMBOLS ensures s[p].i != s[q].i {
      if s[p].i == s[q].i {
        TwiceInMultiset(s, p, q);
        OnceInItems(stat, s[p]);
      }
    }
    forall sym | 0 <= sym < SYMBOLS ensures sym in Order(s) {
      assert t[sym] in multiset(s);
      var p :| 0 <= p < |s| && s[p] == t[sym];
      assert Order(s)[p] == sym;
    }
  }

  /** The more frequent symbol comes first; of two with one count, the higher one. */
  lemma SortedFalls(stat: seq<int16>, p: nat, q: nat)
    requires |stat| == SYMBOLS && p < q < SYMBOLS
    ensures var a, b := Sorted(stat)[p].i, Sorted(stat)[q].i;
      && 0 <= a < SYMBOLS && 0 <= b < SYMBOLS
      && (stat[a] > stat[b] || (stat[a] == stat[b] && a > b))
  {
    SortedPermutes(stat);
    SortItemsSorts(Items(stat));
    assert Order(Sorted(stat))[p] != Order(Sorted(stat))[q];
  }

  lemma TwiceInMultiset(s: seq<Item>, p: nat, q: nat)
    requires p < q < |s| && s[p] == s[q]
    ensures multiset(s)[s[p]] >= 2
  {
    assert s == s[..p] + [s[p]] + s[p + 1..q] + [s[q]] + s[q + 1..];
  }

  lemma OnceInItems(stat: seq<int16>, x: Item)
    requires |stat| == SYMBOLS
    ensures multiset(Items(stat))[x] <= 1
  {
    var t := Items(stat);
    if x in t {
      var p :| 0 <= p < |t| && t[p] == x;
      assert t == t[..p] + [t[p]] + t[p + 1..];
      assert x !in t[..p] && x !in t[p + 1..];
    }
  }
}
