/** The encoder's statistics: symbol counts, symbol table and the countdown to the next
    recalculation, updated in place. */
module EncoderStats {
  import opened Bits
  import opened HuffStat
  import opened GroupCode
  import opened Tables

  function Counts(s: seq<Item>): (c: seq<int16>)
    ensures |c| == |s|
  {
    seq(|s|, p requires 0 <= p < |s| => s[p].n)
  }

  /** The group widths that both sides use after recalculating from these counts. */
  function Widths(stat: seq<int16>): (ws: seq<nat>)
    requires |stat| == SYMBOLS
  {
    GroupWidths(Counts(Sorted(stat)), Sum(stat))
  }

  lemma WidthsComplete(stat: seq<int16>)
    requires |stat| == SYMBOLS
    ensures Complete(Widths(stat))
  {
    GroupWidthsComplete(Counts(Sorted(stat)), Sum(stat));
  }

  /** The code table after recalculating from these counts. */
  ghost function Recoded(stat: seq<int16>): (table: seq<Symbol>)
    requires |stat| == SYMBOLS
    ensures |table| == SYMBOLS
  {
    SortedPermutes(stat);
    WidthsComplete(stat);
    CodeTable(Order(Sorted(stat)), Widths(stat))
  }

  /** A symbol of a later slot has no shorter code. */
  lemma {:induction false} CodesGrow(p: nat, q: nat, ws: seq<nat>, j: nat)
    requires Complete(ws) && j <= |ws| && p <= q && q + SlotSum(ws[..j]) < SlotSum(ws)
    ensures CodeAt(p, ws, j).nBits <= CodeAt(q, ws, j).nBits
    decreases |ws| - j
  {
    assert ws[..|ws|] == ws;
    if j < |ws| {
      assert ws[..j + 1][..j] == ws[..j];
      if p < Pow2(ws[j]) {
        var g, k := CodeAtSplits(q, ws, j);
      } else {
        CodesGrow(p - Pow2(ws[j]), q - Pow2(ws[j]), ws, j + 1);
      }
    }
  }

  /** The law of the code: a symbol that is more frequent than another has no longer code, and neither has
      the higher one of two that are equally frequent. */
  lemma FrequentShorter(stat: seq<int16>, a: nat, b: nat)
    requires |stat| == SYMBOLS && a < SYMBOLS && b < SYMBOLS
    requires stat[a] > stat[b] || (stat[a] == stat[b] && a > b)
    ensures Recoded(stat)[a].nBits <= Recoded(stat)[b].nBits
  {
    hide Sorted, Widths, SlotSum, CodeAt;
    SortedPermutes(stat);
    WidthsComplete(stat);
    var order, ws := Order(Sorted(stat)), Widths(stat);
    var p, q := IndexOf(order, a), IndexOf(order, b);
    assert Sorted(stat)[p].i == a && Sorted(stat)[q].i == b;
    if q < p { SortedFalls(stat, q, p); }
    assert p < q;
    assert ws[..0] == [];
    NoSlots();
    CodesGrow(p, q, ws, 0);
  }

  lemma NoSlots()
    ensures SlotSum([]) == 0
  {
  }

  lemma {:induction false} SumRangeMono(c: seq<int16>, a: nat, b: nat, d: nat)
    requires a <= b <= d <= |c| && forall k :: 0 <= k < |c| ==> 0 <= c[k]
    ensures SumRange(c, a, b) <= SumRange(c, a, d)
    decreases d
  {
    if b < d { SumRangeMono(c, a, b, d - 1); }
  }

  lemma LeftCovers(c: seq<int16>, pos: nat, i: nat)
    requires |c| == SYMBOLS && pos + i <= SYMBOLS && forall k :: 0 <= k < |c| ==> 0 <= c[k]
    ensures Mass(c, pos, i) <= SumRange(c, pos, SYMBOLS)
  {
    SumRangeMono(c, pos, pos + i, SYMBOLS);
    assert SumRange(c, pos, pos) == 0;
  }

  // ----- what the widths are chosen for

  /** The counts that a group of width j would take from pos on. */
  function Share(c: seq<int16>, pos: nat, j: nat): int
    requires |c| == SYMBOLS
  {
    SumRange(c, pos, if Over(pos, j) then SYMBOLS else pos + Pow2(j))
  }

  lemma ShareMono(c: seq<int16>, pos: nat, j: nat, k: nat)
    requires |c| == SYMBOLS && j <= k && !Over(pos, j) && forall i :: 0 <= i < |c| ==> 0 <= c[i]
    ensures Share(c, pos, j) <= Share(c, pos, k)
  {
    hide SumRange;
    Pow2Mono(j, k);
    SumRangeMono(c, pos, pos + Pow2(j), if Over(pos, k) then SYMBOLS else pos + Pow2(k));
  }

  /** Widths are tried up to the first that takes more than the fair share, or all that is left. Of those
      tried none comes closer to the fair share than the one picked. */
  lemma {:induction false} NearestWidth(c: seq<int16>, pos: nat, avg: int, nBits: nat) returns (k: nat)
    requires |c| == SYMBOLS && nBits <= MAX_WIDTH && forall i :: 0 <= i < |c| ==> 0 <= c[i]
    requires forall j :: 0 <= j < nBits ==> !Over(pos, j) && Share(c, pos, j) <= avg
    requires 0 < nBits ==> pos + Reached(nBits) <= SYMBOLS
    ensures nBits <= k <= MAX_WIDTH && (Over(pos, k) || k == MAX_WIDTH || Share(c, pos, k) > avg)
    ensures forall j :: 0 <= j < k ==> !Over(pos, j) && Share(c, pos, j) <= avg
    ensures var r := PickWidth(c, pos, avg, nBits);
      && r.width <= k && r.n == Share(c, pos, r.width)
      && forall j :: 0 <= j <= k ==> Abs(r.n - avg) <= Abs(Share(c, pos, j) - avg)
    decreases MAX_WIDTH - nBits
  {
    hide SumRange, Pow2;
    if 0 < nBits {
      ReachedNext(nBits - 1);
      assert Mass(c, pos, Reached(nBits)) == Share(c, pos, nBits - 1) by { MassShare(c, pos, nBits - 1); }
    }
    if Over(pos, nBits) || nBits >= MAX_WIDTH || Share(c, pos, nBits) > avg {
      k := nBits;
      forall j | 0 <= j < k ensures Share(c, pos, j) <= Share(c, pos, k - 1) <= avg {
        ShareMono(c, pos, j, k - 1);
      }
    } else {
      ReachedNext(nBits);
      MassShare(c, pos, nBits);
      k := NearestWidth(c, pos, avg, nBits + 1);
    }
  }

  lemma MassShare(c: seq<int16>, pos: nat, j: nat)
    requires |c| == SYMBOLS && !Over(pos, j)
    ensures pos + Pow2(j) <= SYMBOLS && Mass(c, pos, Pow2(j)) == Share(c, pos, j)
  {
  }

  /** A split of the last two groups that the search may consider. */
  ghost predicate Admissible(pos: nat, j: nat) { j < MAX_WIDTH && !Over(pos, j) && Rest(pos, j) <= MAX_WIDTH }

  /** The search goes on until a split costs no less than one before, or none is left. Of the splits
      considered none is cheaper than the one chosen. */
  lemma {:induction false} CheapestSplit(c: seq<int16>, pos: nat, nBits: nat, best: int, w: nat, w15: nat)
    returns (k: nat)
    requires |c| == SYMBOLS && nBits <= MAX_WIDTH
    requires forall j :: 0 <= j < nBits ==> !Over(pos, j)
    requires best == UNBEATEN || (w < nBits && Admissible(pos, w) && best == Cost(c, pos, w) && w15 == Rest(pos, w))
    requires forall j :: 0 <= j < nBits && Admissible(pos, j) ==> best <= Cost(c, pos, j)
    ensures nBits <= k <= MAX_WIDTH && forall j :: 0 <= j < k ==> !Over(pos, j)
    ensures var r := LastGroups(c, pos, nBits, best, w, w15);
      (best < UNBEATEN || exists j :: nBits <= j < k && Admissible(pos, j)) ==>
        && Admissible(pos, r.0) && r.1 == Rest(pos, r.0) && r.0 < MAX_WIDTH
        && (forall j :: 0 <= j <= k && Admissible(pos, j) ==> Cost(c, pos, r.0) <= Cost(c, pos, j))
        && (Over(pos, k) || k == MAX_WIDTH || (Admissible(pos, k) && Cost(c, pos, r.0) <= Cost(c, pos, k)))
    decreases MAX_WIDTH - nBits
  {
    hide SumRange, Pow2, Log2Up, Rest, Times;
    if Over(pos, nBits) || nBits == MAX_WIDTH {
      k := nBits;
    } else {
      var n := Cost(c, pos, nBits);
      if Rest(pos, nBits) > MAX_WIDTH {
        k := CheapestSplit(c, pos, nBits + 1, best, w, w15);
      } else if n < best {
        k := CheapestSplit(c, pos, nBits + 1, n, nBits, Rest(pos, nBits));
      } else {
        k := nBits;
      }
    }
  }

  lemma WidthInReach(pos: nat, nBits: nat)
    requires nBits <= MAX_WIDTH && !Over(pos, nBits)
    ensures nBits < MAX_WIDTH
  {
    PowersUpTo8(nBits);
  }

  /** The turns of the loop over the widths of group 14: a better split, ... */
  lemma LastGroupsBetter(c: seq<int16>, pos: nat, nBits: nat, best: int, w: nat, w15: nat)
    requires |c| == SYMBOLS && nBits < MAX_WIDTH && !Over(pos, nBits)
    requires Rest(pos, nBits) <= MAX_WIDTH && Cost(c, pos, nBits) < best
    ensures LastGroups(c, pos, nBits, best, w, w15)
         == LastGroups(c, pos, nBits + 1, Cost(c, pos, nBits), nBits, Rest(pos, nBits))
  {
  }

  /** ... a worse one, ... */
  lemma LastGroupsWorse(c: seq<int16>, pos: nat, nBits: nat, best: int, w: nat, w15: nat)
    requires |c| == SYMBOLS && nBits < MAX_WIDTH && !Over(pos, nBits)
    requires Rest(pos, nBits) <= MAX_WIDTH && Cost(c, pos, nBits) >= best
    ensures LastGroups(c, pos, nBits, best, w, w15) == (w, w15)
  {
  }

  /** ... and one whose rest is too large. */
  lemma LastGroupsSkip(c: seq<int16>, pos: nat, nBits: nat, best: int, w: nat, w15: nat)
    requires |c| == SYMBOLS && nBits < MAX_WIDTH && !Over(pos, nBits) && Rest(pos, nBits) > MAX_WIDTH
    ensures LastGroups(c, pos, nBits, best, w, w15) == LastGroups(c, pos, nBits + 1, best, w, w15)
  {
  }

  /** It ends when the items run out. */
  lemma LastGroupsEnd(c: seq<int16>, pos: nat, nBits: nat, best: int, w: nat, w15: nat)
    requires |c| == SYMBOLS && nBits <= MAX_WIDTH && Over(pos, nBits)
    ensures LastGroups(c, pos, nBits, best, w, w15) == (w, w15)
  {
  }

  lemma NothingCounted(c: seq<int16>, pos: nat)
    requires |c| == SYMBOLS
    ensures Mass(c, pos, 0) == 0
  {
  }

  lemma RestIs(pos: nat, nBits: nat)
    ensures Log2Up(SYMBOLS - (pos + Pow2(nBits)), 0) == Rest(pos, nBits)
  {
  }

  lemma ReachedNext(nBits: nat)
    ensures Reached(nBits + 1) == Pow2(nBits) && Reached(nBits) <= Pow2(nBits)
  {
  }

  /** One width tried, with n items counted before and nn after. */
  lemma PickWidthStep(c: seq<int16>, pos: nat, avg: int, nBits: nat, i: nat, n: int, nn: int)
    requires |c| == SYMBOLS && nBits <= MAX_WIDTH && (0 < nBits ==> pos + Reached(nBits) <= SYMBOLS)
    requires !Over(pos, nBits) ==> i == Pow2(nBits)
    requires Over(pos, nBits) ==> i == if Reached(nBits) < SYMBOLS - pos then SYMBOLS - pos else Reached(nBits)
    requires n == Mass(c, pos, Reached(nBits)) && (i == 0 || pos + i <= SYMBOLS) && nn == Mass(c, pos, i)
    ensures PickWidth(c, pos, avg, nBits) ==
      if Over(pos, nBits) || nBits >= MAX_WIDTH || nn > avg then
        if nBits == 0 || Abs(n - avg) > Abs(nn - avg) then Pick(nBits, nn) else Pick(nBits - 1, n)
      else PickWidth(c, pos, avg, nBits + 1)
  {
    if pos <= SYMBOLS { assert SumRange(c, pos, pos) == 0; }
  }

  /** One turn of the loop over the first 14 groups. */
  lemma FirstGroupsStep(c: seq<int16>, total: int, group: nat, nTotal: int, at: Layout, avg: int, p: Pick)
    requires |c| == SYMBOLS && group < 14 && avg == TruncDiv(total - nTotal, 16 - group)
    requires p == PickWidth(c, at.pos, avg, 0)
    ensures p.width <= MAX_WIDTH
    ensures FirstGroups(c, total, group, nTotal, at)
         == var next := Layout(InsertWidth(at.widths, p.width), at.pos + Pow2(p.width));
            FirstGroups(c, total, group + 1, nTotal + p.n, next)
  {
    hide PickWidth, InsertWidth, Pow2, TruncDiv;
    PickWidthBounds(c, at.pos, avg, 0);
  }

  lemma FirstGroupsEnd(c: seq<int16>, total: int, nTotal: int, at: Layout)
    requires |c| == SYMBOLS
    ensures FirstGroups(c, total, 14, nTotal, at) == at
  {
  }

  lemma InsertStep(ws: seq<nat>, w: nat, j: nat)
    requires 0 < j <= |ws| && w < ws[j - 1]
    ensures InsertWidth(ws[..j], w) + ws[j..] == InsertWidth(ws[..j - 1], w) + ws[j - 1..]
  {
    assert ws[..j][..j - 1] == ws[..j - 1];
    assert [ws[j - 1]] + ws[j..] == ws[j - 1..];
  }

  /** Slot k of group j is written after the slots before it. */
  ghost predicate Assigned(table: seq<Symbol>, order: seq<int>, ws: seq<nat>, p: nat) {
    && |table| == SYMBOLS && IsPermutation(order) && |ws| == GROUPS && p <= SYMBOLS
    && forall q :: 0 <= q < p ==> table[order[q]] == CodeAt(q, ws, 0)
  }

  lemma AssignedAll(table: seq<Symbol>, order: seq<int>, ws: seq<nat>)
    requires Assigned(table, order, ws, SYMBOLS)
    ensures table == CodeTable(order, ws)
  {
    forall sym | 0 <= sym < SYMBOLS ensures table[sym] == CodeTable(order, ws)[sym] {
      var q := IndexOf(order, sym);
      assert table[order[q]] == CodeAt(q, ws, 0);
    }
  }

  lemma AssignedOne(table: seq<Symbol>, order: seq<int>, ws: seq<nat>, p: nat, j: nat, k: nat)
    requires Assigned(table, order, ws, p) && p < SYMBOLS && j < GROUPS
    requires k < Pow2(ws[j]) && p == SlotSum(ws[..j]) + k
    ensures Assigned(table[order[p] := GroupSymbol(j, ws[j], k)], order, ws, p + 1)
  {
    assert ws[..0] == [];
    CodeAtSlot(p, ws, 0, j, k);
  }

  class EncoderStat {
    const stat: array<int16>
    const symbolTable: array<Symbol>
    var nextStat: int

    ghost predicate Valid()
      reads this
    {
      stat.Length == SYMBOLS && symbolTable.Length == SYMBOLS
    }

    constructor ()
      ensures Valid() && fresh(stat) && fresh(symbolTable)
      ensures stat[..] == seq<int16>(SYMBOLS, i => 0) && symbolTable[..] == InitialTable() && nextStat == RECALC
    {
      nextStat := RECALC;
      stat := new int16[SYMBOLS](_ => 0);
      symbolTable := new Symbol[SYMBOLS](i requires 0 <= i < SYMBOLS => InitialCode(i));
    }

    method Reset()
      requires Valid()
      modifies this, stat, symbolTable
      ensures Valid()
      ensures stat[..] == seq<int16>(SYMBOLS, i => 0) && symbolTable[..] == InitialTable() && nextStat == RECALC
    {
      nextStat := RECALC;
      forall i | 0 <= i < SYMBOLS { symbolTable[i] := InitialCode(i); }
      forall i | 0 <= i < SYMBOLS { stat[i] := 0; }
    }

    /** Bubbles the width into its place among the first `group` ones. */
    static method AddGroup(groups: array<nat>, group: nat, nBits: nat)
      requires group < groups.Length && nBits <= MAX_WIDTH
      modifies groups
      ensures groups[..group + 1] == InsertWidth(old(groups[..group]), nBits)
    {
      ghost var ws := groups[..group];
      var j := group;
      while j > 0 && nBits < groups[j - 1]
        invariant 0 <= j <= group
        invariant groups[..j] == ws[..j] && groups[j + 1..group + 1] == ws[j..]
        invariant InsertWidth(ws, nBits) == InsertWidth(ws[..j], nBits) + ws[j..]
      {
        InsertStep(ws, nBits, j);
        groups[j] := groups[j - 1];
        j := j - 1;
      }
      groups[j] := nBits;
      assert groups[..group + 1] == groups[..j] + [nBits] + groups[j + 1..group + 1];
    }

    /** Adds the counts of the items up to nItems to those of the first i. */
    static method CountItems(s: seq<Item>, pos: nat, first: nat, sum: int, nItems: int) returns (i: nat, nn: int)
      requires |s| == SYMBOLS && (first == 0 || pos + first <= SYMBOLS) && pos + nItems <= SYMBOLS
      requires sum == Mass(Counts(s), pos, first)
      ensures i == if first < nItems then nItems else first
      ensures nn == Mass(Counts(s), pos, i)
    {
      i, nn := first, sum;
      while i < nItems
        invariant first <= i && (i <= nItems || i == first)
        invariant nn == Mass(Counts(s), pos, i)
      {
        assert SumRange(Counts(s), pos, pos) == 0;
        nn := nn + s[pos + i].n;
        i := i + 1;
      }
    }

    /** The loop over candidate widths for the group that starts at pos. */
    static method ChooseWidth(s: seq<Item>, pos: nat, avgGroup: int) returns (nBits: nat, n: int)
      requires |s| == SYMBOLS
      ensures Pick(nBits, n) == PickWidth(Counts(s), pos, avgGroup, 0)
    {
      hide PickWidth, SumRange, Counts, Pow2;
      ghost var c := Counts(s);
      var i, nn := 0, 0;
      n, nBits := 0, 0;
      while true
        invariant nBits <= MAX_WIDTH && i == Reached(nBits) && (0 < nBits ==> pos + i <= SYMBOLS)
        invariant n == nn == Mass(c, pos, i)
        invariant PickWidth(c, pos, avgGroup, nBits) == PickWidth(c, pos, avgGroup, 0)
        decreases MAX_WIDTH - nBits
      {
        var over := false;
        var nItems := Pow2(nBits);
        if pos + i + nItems > SYMBOLS {
          nItems := SYMBOLS - pos;
          over := true;
        }
        ReachedNext(nBits);
        i, nn := CountItems(s, pos, i, nn, nItems);
        PickWidthStep(c, pos, avgGroup, nBits, i, n, nn);
        if over || nBits >= 8 || nn > avgGroup {
          if nBits == 0 || Abs(n - avgGroup) > Abs(nn - avgGroup) {
            n := nn;
          } else {
            nBits := nBits - 1;
          }
          return;
        } else {
          n := nn;
        }
        nBits := nBits + 1;
      }
    }

    /** The least width with nItems slots. */
    static method WidthFor(nItems: int) returns (nBits: nat)
      ensures nBits == Log2Up(nItems, 0)
    {
      nBits := 0;
      while Pow2(nBits) < nItems
        invariant Log2Up(nItems, nBits) == Log2Up(nItems, 0)
        decreases nItems - Pow2(nBits)
      {
        nBits := nBits + 1;
      }
    }

    static method SumFrom(s: seq<Item>, a: nat, b: nat) returns (sum: int)
      requires |s| == SYMBOLS && b <= SYMBOLS
      ensures sum == SumRange(Counts(s), a, b)
    {
      ghost var c := Counts(s);
      sum := 0;
      var j := a;
      while j < b
        invariant a <= j && (a <= b ==> j <= b)
        invariant sum == if j <= b then SumRange(c, a, j) else 0
      {
        sum := sum + s[j].n;
        j := j + 1;
      }
    }

    /** The index bits of the split that gives group 14 the i == 2^nBits items from pos on. */
    static method SplitCost(ghost c: seq<int16>, ghost pos: nat, ghost i: nat, nn: int, left: int, nBits: nat,
                            nBits15: nat)
      returns (n: int)
      requires |c| == SYMBOLS && nBits <= MAX_WIDTH && i == Pow2(nBits) && pos + i <= SYMBOLS
      requires nn == Mass(c, pos, i) && left == SumRange(c, pos, SYMBOLS) && nBits15 == Rest(pos, nBits)
      ensures n == Cost(c, pos, nBits)
    {
      TimesIsProduct(nn, nBits);
      TimesIsProduct(left - nn, nBits15);
      n := nn * nBits + (left - nn) * nBits15;
    }

    /** Tries one width of group 14, whose items have been counted, against the best so far. */
    static method TrySplit(ghost c: seq<int16>, ghost pos: nat, ghost i: nat, nn: int, left: int, nBits: nat,
                           nBits15: nat,
                           best: int, w: nat, w15: nat)
      returns (done: bool, best': int, w': nat, w15': nat)
      requires |c| == SYMBOLS && nBits < MAX_WIDTH && i == Pow2(nBits) && !Over(pos, nBits) && pos + i <= SYMBOLS
      requires nn == Mass(c, pos, i) && left == SumRange(c, pos, SYMBOLS) && nBits15 == Rest(pos, nBits)
      ensures !done ==> LastGroups(c, pos, nBits, best, w, w15) == LastGroups(c, pos, nBits + 1, best', w', w15')
      ensures done ==> LastGroups(c, pos, nBits, best, w, w15) == (w', w15')
    {
      hide LastGroups, SumRange, Pow2, Cost, Mass, Rest, Over;
      done, best', w', w15' := false, best, w, w15;
      if nBits <= 8 && nBits15 <= 8 {
        var n := SplitCost(c, pos, i, nn, left, nBits, nBits15);
        if n < best {
          LastGroupsBetter(c, pos, nBits, best, w, w15);
          best', w', w15' := n, nBits, nBits15;
        } else {
          LastGroupsWorse(c, pos, nBits, best, w, w15);
          done := true;
        }
      } else {
        LastGroupsSkip(c, pos, nBits, best, w, w15);
      }
    }

    /** One turn of the loop over the widths of group 14, which has not run past the last item. */
    static method LastTurn(s: seq<Item>, pos: nat, nBits: nat, i0: nat, nn0: int, left: int, best: int, w: nat,
                           w15: nat)
      returns (done: bool, i: nat, nn: int, best': int, w': nat, w15': nat)
      requires |s| == SYMBOLS && forall p :: 0 <= p < SYMBOLS ==> 0 <= s[p].n
      requires nBits <= MAX_WIDTH && i0 == Reached(nBits) && (0 < nBits ==> pos + i0 <= SYMBOLS) && !Over(pos, nBits)
      requires nn0 == Mass(Counts(s), pos, i0) && left == SumRange(Counts(s), pos, SYMBOLS)
      ensures nBits < MAX_WIDTH && i == Pow2(nBits) && pos + i <= SYMBOLS && nn == Mass(Counts(s), pos, i)
      ensures done ==> LastGroups(Counts(s), pos, nBits, best, w, w15) == (w', w15')
      ensures !done ==>
        LastGroups(Counts(s), pos, nBits, best, w, w15) == LastGroups(Counts(s), pos, nBits + 1, best', w', w15')
    {
      hide LastGroups, SumRange, Pow2, Mass, Rest, Log2Up;
      ghost var c := Counts(s);
      assert forall k :: 0 <= k < |c| ==> 0 <= c[k];
      hide Counts;
      ReachedNext(nBits);
      RestIs(pos, nBits);
      WidthInReach(pos, nBits);
      var nItems := Pow2(nBits);
      i, nn := CountItems(s, pos, i0, nn0, nItems);
      var nBits15 := WidthFor(SYMBOLS - (pos + i));
      LeftCovers(c, pos, i);
      assert left >= nn;
      done, best', w', w15' := TrySplit(c, pos, i, nn, left, nBits, nBits15, best, w, w15);
    }

    /** The loop over the widths of group 14. */
    static method ChooseLast(s: seq<Item>, pos: nat) returns (bestNBits: nat, bestNBits15: nat)
      requires |s| == SYMBOLS && forall p :: 0 <= p < SYMBOLS ==> 0 <= s[p].n
      ensures (bestNBits, bestNBits15) == LastGroups(Counts(s), pos, 0, UNBEATEN, 0, 0)
    {
      ghost var c := Counts(s);
      NothingCounted(c, pos);
      hide LastGroups, SumRange, Counts, Pow2, Mass;
      bestNBits, bestNBits15 := 0, 0;
      var best, i, nn, nBits, done := UNBEATEN, 0, 0, 0, false;
      var left := SumFrom(s, pos, SYMBOLS);
      while true
        invariant nBits <= MAX_WIDTH && i == Reached(nBits) && (0 < nBits ==> pos + i <= SYMBOLS)
        invariant nn == Mass(c, pos, i)
        invariant LastGroups(c, pos, nBits, best, bestNBits, bestNBits15) == LastGroups(c, pos, 0, UNBEATEN, 0, 0)
        decreases MAX_WIDTH - nBits
      {
        if pos + i + Pow2(nBits) > SYMBOLS {
          LastGroupsEnd(c, pos, nBits, best, bestNBits, bestNBits15);
          return;
        }
        done, i, nn, best, bestNBits, bestNBits15 := LastTurn(s, pos, nBits, i, nn, left, best, bestNBits, bestNBits15);
        if done { return; }
        ReachedNext(nBits);
        nBits := nBits + 1;
      }
    }

    /** Gives every symbol the code of its slot. */
    method AssignCodes(s: seq<Item>, groups: array<nat>)
      requires Valid() && |s| == SYMBOLS && groups.Length == GROUPS
      requires IsPermutation(Order(s)) && Complete(groups[..])
      modifies symbolTable
      ensures symbolTable[..] == CodeTable(Order(s), groups[..])
    {
      ghost var order, ws := Order(s), groups[..];
      var pos := 0;
      var j := 0;
      while j < GROUPS
        invariant j <= GROUPS && pos == SlotSum(ws[..j])
        invariant Assigned(symbolTable[..], order, ws, if pos < SYMBOLS then pos else SYMBOLS)
      {
        var nBits := groups[j];
        var nItems := Pow2(nBits);
        var maxK := if nItems < SYMBOLS - pos then nItems else SYMBOLS - pos;
        var k := 0;
        while k < maxK
          invariant k <= maxK || k == 0
          invariant Assigned(symbolTable[..], order, ws, if pos + k < SYMBOLS then pos + k else SYMBOLS)
        {
          var symbol := s[pos + k].i;
          assert symbol == order[pos + k];
          AssignedOne(symbolTable[..], order, ws, pos + k, j, k);
          ghost var table := symbolTable[..][symbol := GroupSymbol(j, nBits, k)];
          symbolTable[symbol] := Symbol(nBits + 4, Or(Shl(j, nBits), k));
          assert symbolTable[..] == table;
          k := k + 1;
        }
        assert ws[..j + 1][..j] == ws[..j];
        pos := pos + nItems;
        j := j + 1;
      }
      assert ws[..GROUPS] == ws;
      AssignedAll(symbolTable[..], order, ws);
    }

    /** Fills in the first 14 group widths. */
    static method ChooseFirst(s: seq<Item>, total: int, groups: array<nat>) returns (pos: nat)
      requires |s| == SYMBOLS && groups.Length == GROUPS
      modifies groups
      ensures Layout(groups[..14], pos) == FirstGroups(Counts(s), total, 0, 0, Layout([], 0))
    {
      hide Pow2, InsertWidth, FirstGroups, TruncDiv, Counts;
      ghost var c := Counts(s);
      ghost var answer := FirstGroups(c, total, 0, 0, Layout([], 0));
      ghost var at := Layout([], 0);
      var nTotal, group: nat := 0, 0;
      pos := 0;
      while group < 14
        invariant group <= 14
        invariant groups[..group] == at.widths && pos == at.pos
        invariant FirstGroups(c, total, group, nTotal, at) == answer
      {
        var avgGroup := TruncDiv(total - nTotal, 16 - group);
        var nBits, n := ChooseWidth(s, pos, avgGroup);
        FirstGroupsStep(c, total, group, nTotal, at, avgGroup, Pick(nBits, n));
        AddGroup(groups, group, nBits);
        at := Layout(InsertWidth(at.widths, nBits), at.pos + Pow2(nBits));
        nTotal := nTotal + n;
        pos := pos + Pow2(nBits);
        group := group + 1;
      }
      FirstGroupsEnd(c, total, nTotal, at);
    }

    /** Fills in the 16 group widths. */
    static method ChooseGroups(s: seq<Item>, total: int, groups: array<nat>)
      requires |s| == SYMBOLS && groups.Length == GROUPS
      requires forall p :: 0 <= p < SYMBOLS ==> 0 <= s[p].n
      modifies groups
      ensures groups[..] == GroupWidths(Counts(s), total)
    {
      var pos := ChooseFirst(s, total, groups);
      FirstGroupsGood(Counts(s), total, 0, 0, Layout([], 0));
      LastTwo(Counts(s), Layout(groups[..14], pos));
      var bestNBits, bestNBits15 := ChooseLast(s, pos);
      AddGroup(groups, 14, bestNBits);
      AddGroup(groups, 15, bestNBits15);
      assert groups[..] == groups[..16];
    }

    /** Recalculates widths and codes from the counts, which are halved. */
    method CalcStat() returns (groups: array<nat>)
      requires Valid()
      requires forall sym :: 0 <= sym < SYMBOLS ==> 0 <= stat[sym]
      modifies this, stat, symbolTable
      ensures Valid() && fresh(groups) && groups.Length == GROUPS
      ensures groups[..] == Widths(old(stat[..]))
      ensures stat[..] == Halved(old(stat[..]))
      ensures symbolTable[..] == Recoded(old(stat[..]))
      ensures forall a, b :: 0 <= a < SYMBOLS && 0 <= b < SYMBOLS && old(stat[a]) > old(stat[b]) ==>
        symbolTable[a].nBits <= symbolTable[b].nBits
      ensures nextStat == RECALC
    {
      ghost var was := stat[..];
      SortedPermutes(was);
      WidthsComplete(was);
      var tmp, total := MakeSortedTmp(stat);
      var s := tmp[..];
      nextStat := RECALC;
      groups := new nat[GROUPS];
      ChooseGroups(s, total, groups);
      AssignCodes(s, groups);
      forall a, b | 0 <= a < SYMBOLS && 0 <= b < SYMBOLS && was[a] > was[b]
        ensures Recoded(was)[a].nBits <= Recoded(was)[b].nBits
      {
        FrequentShorter(was, a, b);
      }
    }
  }
}
