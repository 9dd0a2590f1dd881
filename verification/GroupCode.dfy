/** The two-level symbol code: 16 groups of 2^w slots each, the symbols laid out over the slots in
    order of falling count. A code is the 4-bit group number followed by a w-bit index. */
module GroupCode {
  import opened Bits
  import opened HuffStat

  const GROUPS: nat := 16
  const MAX_WIDTH: nat := 8
  const RECALC: int := 4096  // HUFFRECALCLEN
  const UNBEATEN: int := 0x7FFF_FFFF

  datatype Symbol = Symbol(nBits: nat, code: nat)
  datatype Pick = Pick(width: nat, n: int)
  datatype Layout = Layout(widths: seq<nat>, pos: nat)

  // ----- arithmetic of the source

  /** Division of C, which rounds toward zero. */
  function TruncDiv(a: int, b: int): int
    requires 0 < b
  {
    if 0 <= a then a / b else -(-a / b)
  }

  function Abs(a: int): nat { if a < 0 then -a else a }

  function SumRange(c: seq<int16>, a: nat, b: nat): int
    requires b <= |c|
    decreases b
  {
    if b <= a then 0 else SumRange(c, a, b - 1) + c[b - 1]
  }

  /** n * w */
  function Times(n: int, w: nat): int {
    if w == 0 then 0 else Times(n, w - 1) + n
  }

  lemma {:induction false} TimesIsProduct(n: int, w: nat)
    ensures Times(n, w) == n * w
  {
    if w > 0 { TimesIsProduct(n, w - 1); }
  }

  lemma {:induction false} TimesBound(n: int, w: nat)
    requires n <= 0x120_0000
    ensures Times(n, w) <= 0x120_0000 * w
  {
    if w > 0 { TimesBound(n, w - 1); }
  }

  function SlotSum(ws: seq<nat>): nat {
    if ws == [] then 0 else SlotSum(ws[..|ws| - 1]) + Pow2(ws[|ws| - 1])
  }

  /** The insertion of _addGroup: before the widths at the end that are greater. */
  function InsertWidth(ws: seq<nat>, w: nat): (r: seq<nat>)
    ensures |r| == |ws| + 1
  {
    if ws == [] || ws[|ws| - 1] <= w then ws + [w]
    else InsertWidth(ws[..|ws| - 1], w) + [ws[|ws| - 1]]
  }

  /** The least k from `from` up with 2^k >= n. */
  function Log2Up(n: int, from: nat): (k: nat)
    ensures n <= Pow2(k) && from <= k
    ensures k == from || Pow2(k - 1) < n
    decreases n - Pow2(from), n
  {
    if n <= Pow2(from) then from else Log2Up(n, from + 1)
  }

  // ----- choice of the group widths

  /** How many items have been counted before width nBits is tried. */
  function Reached(nBits: nat): nat { if nBits == 0 then 0 else Pow2(nBits - 1) }

  predicate Over(pos: nat, nBits: nat) { pos + Reached(nBits) + Pow2(nBits) > SYMBOLS }

  /** The counts of the i items from pos on. */
  function Mass(c: seq<int16>, pos: nat, i: nat): int
    requires i == 0 || pos + i <= |c|
  {
    if i == 0 then 0 else SumRange(c, pos, pos + i)
  }

  /** The width of the group that starts at pos, tried from nBits up: the first that holds more
      than its fair share avg, or the one before when that is at least as close. */
  function PickWidth(c: seq<int16>, pos: nat, avg: int, nBits: nat): Pick
    requires |c| == SYMBOLS && nBits <= MAX_WIDTH
    requires 0 < nBits ==> pos + Reached(nBits) <= SYMBOLS
    decreases MAX_WIDTH - nBits, pos
  {
    var n := Mass(c, pos, Reached(nBits));
    var nn := SumRange(c, pos, if Over(pos, nBits) then SYMBOLS else pos + Pow2(nBits));
    if Over(pos, nBits) || nBits >= MAX_WIDTH || nn > avg then
      if nBits == 0 || Abs(n - avg) > Abs(nn - avg) then Pick(nBits, nn) else Pick(nBits - 1, n)
    else PickWidth(c, pos, avg, nBits + 1)
  }

  function FirstGroups(c: seq<int16>, total: int, group: nat, nTotal: int, at: Layout): Layout
    requires |c| == SYMBOLS && group <= 14
    decreases 14 - group, total
  {
    if group == 14 then at
    else
      var p := PickWidth(c, at.pos, TruncDiv(total - nTotal, 16 - group), 0);
      FirstGroups(c, total, group + 1, nTotal + p.n, Extended(at, p.width))
  }

  /** The width of group 15 when group 14 takes 2^nBits slots. */
  function Rest(pos: nat, nBits: nat): (k: nat)
    ensures SYMBOLS - pos - Pow2(nBits) <= Pow2(k)
    ensures k == 0 || Pow2(k - 1) < SYMBOLS - pos - Pow2(nBits)
  {
    Log2Up(SYMBOLS - pos - Pow2(nBits), 0)
  }

  lemma {:induction false} SumRangeBound(c: seq<int16>, a: nat, b: nat)
    requires a <= b <= |c|
    ensures -0x8000 * (b - a) <= SumRange(c, a, b) <= 0x8000 * (b - a)
    decreases b
  {
    if a < b { SumRangeBound(c, a, b - 1); }
  }

  lemma TimesBounds(nn: int, left: int, w: nat, rest: nat)
    requires -0x90_0000 <= nn <= 0x90_0000 && left <= 0x90_0000 && w <= 8 && rest <= 8
    ensures Times(nn, w) + Times(left - nn, rest) < UNBEATEN
  {
    TimesBound(nn, w);
    TimesBound(left - nn, rest);
  }

  /** The index bits spent on what is left by that split. */
  function Cost(c: seq<int16>, pos: nat, nBits: nat): (n: int)
    requires |c| == SYMBOLS && pos + Pow2(nBits) <= SYMBOLS && nBits <= MAX_WIDTH
    ensures Rest(pos, nBits) <= MAX_WIDTH ==> n < UNBEATEN
  {
    var nn := SumRange(c, pos, pos + Pow2(nBits));
    var left := SumRange(c, pos, SYMBOLS);
    var rest := Rest(pos, nBits);
    SumRangeBound(c, pos, pos + Pow2(nBits));
    SumRangeBound(c, pos, SYMBOLS);
    assert rest <= 8 ==> Times(nn, nBits) + Times(left - nn, rest) < UNBEATEN by {
      if rest <= 8 { TimesBounds(nn, left, nBits, rest); }
    }
    Times(nn, nBits) + Times(left - nn, rest)
  }

  /** The last two widths: the cheapest split of what is left. */
  function LastGroups(c: seq<int16>, pos: nat, nBits: nat, best: int, w: nat, w15: nat): (nat, nat)
    requires |c| == SYMBOLS && nBits <= MAX_WIDTH
    decreases MAX_WIDTH - nBits, pos
  {
    if Over(pos, nBits) || nBits == MAX_WIDTH then (w, w15)
    else
      var rest := Rest(pos, nBits);
      var n := Cost(c, pos, nBits);
      if rest > MAX_WIDTH then LastGroups(c, pos, nBits + 1, best, w, w15)
      else if n < best then LastGroups(c, pos, nBits + 1, n, nBits, rest)
      else (w, w15)
  }

  /** The 16 group widths for counts in falling order. */
  function GroupWidths(c: seq<int16>, total: int): (ws: seq<nat>)
    requires |c| == SYMBOLS
  {
    var at := FirstGroups(c, total, 0, 0, Layout([], 0));
    var last := LastGroups(c, at.pos, 0, UNBEATEN, 0, 0);
    InsertWidth(InsertWidth(at.widths, last.0), last.1)
  }

  /** Sorted widths of at most 8 bits with a slot for every symbol, within the slots the decoder
      allows. */
  ghost predicate Complete(ws: seq<nat>) {
    && |ws| == GROUPS
    && (forall i, j :: 0 <= i < j < |ws| ==> ws[i] <= ws[j])
    && (forall i :: 0 <= i < |ws| ==> ws[i] <= MAX_WIDTH)
    && SYMBOLS <= SlotSum(ws) < SYMBOLS + 255
  }

  // ----- the widths are complete

  ghost predicate SortedWidths(ws: seq<nat>) {
    && (forall i, j :: 0 <= i < j < |ws| ==> ws[i] <= ws[j])
    && (forall i :: 0 <= i < |ws| ==> ws[i] <= MAX_WIDTH)
  }

  lemma SlotSumSnoc(ws: seq<nat>, w: nat)
    ensures SlotSum(ws + [w]) == SlotSum(ws) + Pow2(w)
  {
    assert (ws + [w])[..|ws|] == ws;
  }

  lemma {:induction false} InsertWidthSum(ws: seq<nat>, w: nat)
    ensures SlotSum(InsertWidth(ws, w)) == SlotSum(ws) + Pow2(w)
  {
    if ws == [] || ws[|ws| - 1] <= w {
      SlotSumSnoc(ws, w);
    } else {
      var ws' := ws[..|ws| - 1];
      InsertWidthSum(ws', w);
      SlotSumSnoc(InsertWidth(ws', w), ws[|ws| - 1]);
    }
  }

  lemma {:induction false} InsertWidthSorts(ws: seq<nat>, w: nat)
    requires SortedWidths(ws) && w <= MAX_WIDTH
    ensures SortedWidths(InsertWidth(ws, w))
    ensures forall x :: x in InsertWidth(ws, w) ==> x == w || x in ws
  {
    if ws == [] || ws[|ws| - 1] <= w {
    } else {
      var ws', z := ws[..|ws| - 1], ws[|ws| - 1];
      InsertWidthSorts(ws', w);
      var r := InsertWidth(ws', w);
      forall i | 0 <= i < |r| ensures r[i] <= z { assert r[i] in r; }
    }
  }

  lemma PowersUpTo8(k: nat)
    requires k <= 8
    ensures 1 <= Pow2(k) <= 256 && Pow2(8) == 256
    ensures 1 <= k ==> Pow2(k) == 2 * Pow2(k - 1) && Pow2(k - 1) <= 128
  {
    Pow2Small();
    Pow2Mono(k, 8);
    if 1 <= k { Pow2Mono(k - 1, 7); }
  }

  /** A group that starts inside the symbols overshoots them by less than 129 slots, one that
      starts past them has a single slot. */
  lemma {:induction false} PickWidthBounds(c: seq<int16>, pos: nat, avg: int, nBits: nat)
    requires |c| == SYMBOLS && nBits <= MAX_WIDTH
    requires 0 < nBits ==> pos + Reached(nBits) <= SYMBOLS
    ensures PickWidth(c, pos, avg, nBits).width <= MAX_WIDTH
    ensures pos < SYMBOLS ==> pos + Pow2(PickWidth(c, pos, avg, nBits).width) <= SYMBOLS + 128
    ensures SYMBOLS <= pos && nBits == 0 ==> PickWidth(c, pos, avg, nBits).width == 0
    decreases MAX_WIDTH - nBits
  {
    PowersUpTo8(nBits);
    if !Over(pos, nBits) && nBits < MAX_WIDTH {
      PickWidthBounds(c, pos, avg, nBits + 1);
    }
  }

  ghost predicate GoodStart(at: Layout, group: nat) {
    && |at.widths| == group && SortedWidths(at.widths)
    && SlotSum(at.widths) == at.pos && group <= at.pos <= SYMBOLS + 128 + group
  }

  function Extended(at: Layout, w: nat): Layout {
    Layout(InsertWidth(at.widths, w), at.pos + Pow2(w))
  }

  lemma ExtendedGood(c: seq<int16>, avg: int, group: nat, at: Layout)
    requires |c| == SYMBOLS && GoodStart(at, group)
    ensures GoodStart(Extended(at, PickWidth(c, at.pos, avg, 0).width), group + 1)
  {
    var w := PickWidth(c, at.pos, avg, 0).width;
    PickWidthBounds(c, at.pos, avg, 0);
    InsertWidthSorts(at.widths, w);
    InsertWidthSum(at.widths, w);
    PowersUpTo8(w);
  }

  lemma {:induction false} FirstGroupsGood(c: seq<int16>, total: int, group: nat, nTotal: int, at: Layout)
    requires |c| == SYMBOLS && group <= 14 && GoodStart(at, group)
    ensures GoodStart(FirstGroups(c, total, group, nTotal, at), 14)
    decreases 14 - group
  {
    if group < 14 {
      var avg := TruncDiv(total - nTotal, 16 - group);
      var p := PickWidth(c, at.pos, avg, 0);
      ExtendedGood(c, avg, group, at);
      FirstGroupsGood(c, total, group + 1, nTotal + p.n, Extended(at, p.width));
    }
  }

  ghost predicate Covers(pos: nat, w: nat, w15: nat) {
    && w <= MAX_WIDTH && w15 <= MAX_WIDTH
    && SYMBOLS <= pos + Pow2(w) + Pow2(w15) < SYMBOLS + 255
  }

  /** A remainder that 2^rest slots hold, rest minimal and at most 8. */
  lemma RestCovers(pos: nat, nBits: nat, rest: nat)
    requires nBits <= MAX_WIDTH && rest <= MAX_WIDTH && pos + Pow2(nBits) <= SYMBOLS
    requires SYMBOLS - pos - Pow2(nBits) <= Pow2(rest)
    requires rest == 0 || Pow2(rest - 1) < SYMBOLS - pos - Pow2(nBits)
    ensures Covers(pos, nBits, rest)
  {
    PowersUpTo8(nBits);
    PowersUpTo8(rest);
  }

  /** Once one split covers the rest, the split that is returned does. */
  lemma {:induction false} LastGroupsKeep(c: seq<int16>, pos: nat, nBits: nat, best: int, w: nat, w15: nat)
    requires |c| == SYMBOLS && nBits <= MAX_WIDTH && Covers(pos, w, w15)
    ensures var r := LastGroups(c, pos, nBits, best, w, w15); Covers(pos, r.0, r.1)
    decreases MAX_WIDTH - nBits
  {
    if !Over(pos, nBits) && nBits < MAX_WIDTH {
      var rest := Rest(pos, nBits);
      var n := Cost(c, pos, nBits);
      if rest > MAX_WIDTH {
        LastGroupsKeep(c, pos, nBits + 1, best, w, w15);
      } else if n < best {
        RestCovers(pos, nBits, rest);
        LastGroupsKeep(c, pos, nBits + 1, n, nBits, rest);
      }
    }
  }

  /** A split whose rest fits in 256 slots is better than none. */
  lemma LastGroupsTake(c: seq<int16>, pos: nat, nBits: nat)
    requires |c| == SYMBOLS && nBits <= 2 && !Over(pos, nBits)
    requires SYMBOLS - pos - Pow2(nBits) <= 256
    ensures var r := LastGroups(c, pos, nBits, UNBEATEN, 0, 0); Covers(pos, r.0, r.1)
  {
    assert pos + Pow2(nBits) <= SYMBOLS;
    hide Covers, Rest, Pow2, Cost, Over;
    var rest := Rest(pos, nBits);
    RestSmall(pos, nBits);
    RestCovers(pos, nBits, rest);
    LastGroupsKeep(c, pos, nBits + 1, Cost(c, pos, nBits), nBits, rest);
  }

  lemma RestSmall(pos: nat, nBits: nat)
    requires SYMBOLS - pos - Pow2(nBits) <= 256
    ensures Rest(pos, nBits) <= 8
  {
    var rest := Rest(pos, nBits);
    PowersUpTo8(8);
    if rest > 8 { Pow2Mono(8, rest - 1); }
  }

  /** At most three widths are tried before the rest fits in 256 slots. */
  lemma {:induction false} LastGroupsCover(c: seq<int16>, pos: nat, nBits: nat)
    requires |c| == SYMBOLS && 14 <= pos < SYMBOLS && nBits <= 2
    requires nBits == 0 || SYMBOLS - pos - Pow2(nBits - 1) > 256
    ensures var r := LastGroups(c, pos, nBits, UNBEATEN, 0, 0); Covers(pos, r.0, r.1)
    decreases 2 - nBits
  {
    assert Pow2(0) == 1 && Pow2(1) == 2 && Pow2(2) == 4;
    var left := SYMBOLS - pos - Pow2(nBits);
    if left > 256 {
      var rest := Rest(pos, nBits);
      if rest <= 8 { PowersUpTo8(rest); }
      LastGroupsCover(c, pos, nBits + 1);
    } else {
      LastGroupsTake(c, pos, nBits);
    }
  }

  lemma LastGroupsSpent(c: seq<int16>, pos: nat)
    requires |c| == SYMBOLS && SYMBOLS <= pos
    ensures LastGroups(c, pos, 0, UNBEATEN, 0, 0) == (0, 0)
  {
  }

  lemma LastTwo(c: seq<int16>, at: Layout)
    requires |c| == SYMBOLS && GoodStart(at, 14)
    ensures var r := LastGroups(c, at.pos, 0, UNBEATEN, 0, 0);
      r.0 <= MAX_WIDTH && r.1 <= MAX_WIDTH && SYMBOLS <= at.pos + Pow2(r.0) + Pow2(r.1) < SYMBOLS + 255
  {
    if at.pos < SYMBOLS {
      LastGroupsCover(c, at.pos, 0);
    } else {
      LastGroupsSpent(c, at.pos);
    }
  }

  lemma CompletedBy(at: Layout, w: nat, w15: nat)
    requires GoodStart(at, 14) && w <= MAX_WIDTH && w15 <= MAX_WIDTH
    requires SYMBOLS <= at.pos + Pow2(w) + Pow2(w15) < SYMBOLS + 255
    ensures Complete(InsertWidth(InsertWidth(at.widths, w), w15))
  {
    var ws := InsertWidth(at.widths, w);
    InsertWidthSorts(at.widths, w);
    InsertWidthSum(at.widths, w);
    InsertWidthSorts(ws, w15);
    InsertWidthSum(ws, w15);
  }

  /** Whatever the counts, the widths make a complete code. */
  lemma GroupWidthsComplete(c: seq<int16>, total: int)
    requires |c| == SYMBOLS
    ensures Complete(GroupWidths(c, total))
  {
    var at := FirstGroups(c, total, 0, 0, Layout([], 0));
    FirstGroupsGood(c, total, 0, 0, Layout([], 0));
    LastTwo(c, at);
    var last := LastGroups(c, at.pos, 0, UNBEATEN, 0, 0);
    CompletedBy(at, last.0, last.1);
  }
}
