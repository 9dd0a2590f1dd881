/** The adaptive state on both sides and what one symbol does to it. */
module Adaptive {
  import opened Bits
  import opened HuffStat
  import opened GroupCode
  import opened Tables
  import opened EncoderStats

  datatype Enc = Enc(stat: seq<int16>, next: int, table: seq<Symbol>)
  datatype Dec = Dec(stat: seq<int16>, groups: seq<Group>, symbols: seq<int>)

  /** "recalculate" and "end of block" */
  const RECALCULATE: int := SYMBOLS - 2
  const END: int := SYMBOLS - 1
  const MAX_TOTAL: int := 8194

  // ----- counting

  /** `++` on a 16-bit counter wraps around. */
  function Increment(x: int16): int16 { if x == 0x7FFF then -0x8000 else x + 1 }

  function Counted(stat: seq<int16>, sym: int): (r: seq<int16>)
    requires 0 <= sym < |stat|
    ensures |r| == |stat|
  {
    stat[sym := Increment(stat[sym])]
  }

  ghost predicate Wf(d: Dec) {
    && |d.stat| == SYMBOLS && |d.groups| == GROUPS && |d.symbols| == SYMBOLS
    && forall p :: 0 <= p < |d.symbols| ==> 0 <= d.symbols[p] < SYMBOLS
  }

  ghost predicate FitTable(table: seq<Symbol>) {
    && |table| == SYMBOLS
    && forall sym :: 0 <= sym < |table| ==>
      4 <= table[sym].nBits <= MAX_CODE && table[sym].code < Pow2(table[sym].nBits)
  }

  /** Counts are nonnegative, and their total and the puts left until the next recalculation
      together stay below 8195. */
  ghost predicate Bounded(e: Enc) {
    && |e.stat| == SYMBOLS
    && (forall sym :: 0 <= sym < |e.stat| ==> 0 <= e.stat[sym])
    && 1 <= e.next && Sum(e.stat) + e.next <= MAX_TOTAL
  }

  ghost predicate Sized(e: Enc) { |e.stat| == SYMBOLS && |e.table| == SYMBOLS }

  /** The two sides are in step. */
  ghost predicate InStep(e: Enc, d: Dec) {
    Sized(e) && Bounded(e) && FitTable(e.table) && Wf(d) && e.stat == d.stat && Inverts(e.table, d.groups, d.symbols)
  }

  // ----- the encoder

  ghost function Recalculate(e: Enc): (r: Enc)
    requires |e.stat| == SYMBOLS
  {
    Enc(Halved(e.stat), RECALC, Recoded(e.stat))
  }

  /** Unary differences of the widths from i on: that many zeros, then a one. */
  function DeltaBits(ws: seq<nat>, i: nat): seq<bool>
    requires i <= |ws| && SortedWidths(ws)
    decreases |ws| - i
  {
    if i == |ws| then []
    else Zeros(ws[i] - (if i == 0 then 0 else ws[i - 1])) + [true] + DeltaBits(ws, i + 1)
  }

  ghost function SymbolBits(e: Enc, sym: int): seq<bool>
    requires |e.table| == SYMBOLS && 0 <= sym < SYMBOLS
  {
    CodeBits(e.table[sym])
  }

  /** Whether the next put is preceded by a recalculation. */
  predicate Due(e: Enc) { e.next - 1 <= 0 }

  /** The state in which the next symbol is coded. */
  ghost function Ready(e: Enc): (r: Enc)
    requires |e.stat| == SYMBOLS && |e.table| == SYMBOLS
    ensures |r.stat| == SYMBOLS && |r.table| == SYMBOLS
  {
    if Due(e) then Recalculate(e.(stat := Counted(e.stat, RECALCULATE))) else e.(next := e.next - 1)
  }

  ghost function ReadyBits(e: Enc): seq<bool>
    requires |e.stat| == SYMBOLS && |e.table| == SYMBOLS
  {
    if Due(e) then
      var stat := Counted(e.stat, RECALCULATE);
      WidthsComplete(stat);
      SymbolBits(e, RECALCULATE) + DeltaBits(Widths(stat), 0)
    else []
  }

  /** The state after one symbol, */
  ghost function Put(e: Enc, sym: int): (r: Enc)
    requires |e.stat| == SYMBOLS && |e.table| == SYMBOLS && 0 <= sym < SYMBOLS
    ensures |r.stat| == SYMBOLS && |r.table| == SYMBOLS
  {
    Ready(e).(stat := Counted(Ready(e).stat, sym))
  }

  /** and its bits. */
  ghost function PutBits(e: Enc, sym: int): seq<bool>
    requires |e.stat| == SYMBOLS && |e.table| == SYMBOLS && 0 <= sym < SYMBOLS
  {
    ReadyBits(e) + SymbolBits(Ready(e), sym)
  }

  // ----- the counters stay small

  lemma {:induction false} SumUpdate(s: seq<int16>, k: nat, v: int16)
    requires k < |s|
    ensures Sum(s[k := v]) == Sum(s) - s[k] + v
  {
    var n := |s| - 1;
    if k < n {
      SumUpdate(s[..n], k, v);
      assert s[k := v][..n] == s[..n][k := v];
    } else {
      assert s[k := v][..n] == s[..n];
    }
  }

  lemma {:induction false} SumHalved(s: seq<int16>)
    requires forall k :: 0 <= k < |s| ==> 0 <= s[k]
    ensures 0 <= 2 * Sum(Halved(s)) <= Sum(s)
  {
    if s != [] {
      var n := |s| - 1;
      SumHalved(s[..n]);
      assert Halved(s)[..n] == Halved(s[..n]);
    }
  }

  lemma {:induction false} CountBelowSum(s: seq<int16>, k: nat)
    requires k < |s| && forall i :: 0 <= i < |s| ==> 0 <= s[i]
    ensures s[k] <= Sum(s)
  {
    var n := |s| - 1;
    SumHalved(s[..n]);
    if k < n { CountBelowSum(s[..n], k); }
  }

  lemma CountedSum(stat: seq<int16>, sym: int)
    requires 0 <= sym < |stat| && forall i :: 0 <= i < |stat| ==> 0 <= stat[i]
    requires Sum(stat) < 0x7FFF
    ensures stat[sym] < 0x7FFF && Counted(stat, sym) == stat[sym := stat[sym] + 1]
    ensures Sum(Counted(stat, sym)) == Sum(stat) + 1
  {
    CountBelowSum(stat, sym);
    SumUpdate(stat, sym, stat[sym] + 1);
  }

  /** No counter overflows and the countdown is positive again after every symbol. */
  lemma PutBounded(e: Enc, sym: int)
    requires Bounded(e) && |e.table| == SYMBOLS && 0 <= sym < SYMBOLS
    ensures Bounded(Put(e, sym))
    ensures Ready(e).next == Put(e, sym).next && Put(e, sym).stat[sym] - 1 == Ready(e).stat[sym]
  {
    if Due(e) {
      CountedSum(e.stat, RECALCULATE);
      var stat := Counted(e.stat, RECALCULATE);
      SumHalved(stat);
      CountedSum(Halved(stat), sym);
    } else {
      CountedSum(e.stat, sym);
    }
  }

  lemma RecalculateFits(e: Enc)
    requires |e.stat| == SYMBOLS
    ensures FitTable(Recalculate(e).table)
  {
    SortedPermutes(e.stat);
    WidthsComplete(e.stat);
    RebuiltTablesAgree(Order(Sorted(e.stat)), Widths(e.stat));
    InvertsFits(Recoded(e.stat), Groups(Widths(e.stat)), Order(Sorted(e.stat)));
  }

  /** Whatever the counts, recalculation gives every symbol a code of 4 to 12 bits, and no symbol's
      code begins another's. */
  lemma RecodedPrefixCode(stat: seq<int16>, a: int, b: int)
    requires |stat| == SYMBOLS && 0 <= a < SYMBOLS && 0 <= b < SYMBOLS
    ensures 4 <= |CodeBits(Recoded(stat)[a])| <= MAX_CODE
    ensures CodeBits(Recoded(stat)[a]) <= CodeBits(Recoded(stat)[b]) ==> a == b
  {
    hide CodeTable, Groups, Reads, Sorted, Widths;
    SortedPermutes(stat);
    WidthsComplete(stat);
    RebuiltTablesAgree(Order(Sorted(stat)), Widths(stat));
    InvertsFits(Recoded(stat), Groups(Widths(stat)), Order(Sorted(stat)));
    if CodeBits(Recoded(stat)[a]) <= CodeBits(Recoded(stat)[b]) {
      PrefixFree(Recoded(stat), Groups(Widths(stat)), Order(Sorted(stat)), a, b);
    }
  }

  lemma InvertsFits(table: seq<Symbol>, groups: seq<Group>, symbols: seq<int>)
    requires Inverts(table, groups, symbols)
    ensures FitTable(table)
  {
    forall sym | 0 <= sym < SYMBOLS
      ensures 4 <= table[sym].nBits <= MAX_CODE && table[sym].code < Pow2(table[sym].nBits)
    {
      assert Reads(groups, symbols, CodeBits(table[sym]), sym);
    }
  }

  // ----- the decoder

  /** The decoder's half of a recalculation, given the widths. */
  function Rebuilt(d: Dec, groups: seq<Group>): Dec
    requires |d.stat| == SYMBOLS
  {
    Dec(Halved(d.stat), groups, Order(Sorted(d.stat)))
  }

  /** A recalculation on both sides, triggered after both have counted its symbol, keeps them in
      step: the decoder needs no more than the widths. */
  lemma RecalculateInStep(e: Enc, d: Dec)
    requires InStep(e, d) && Due(e)
    ensures var stat := Counted(d.stat, RECALCULATE);
      var d' := Rebuilt(d.(stat := stat), Groups(Widths(stat)));
      && Wf(d') && Ready(e).stat == d'.stat && FitTable(Ready(e).table)
      && Inverts(Ready(e).table, d'.groups, d'.symbols)
  {
    var stat := Counted(d.stat, RECALCULATE);
    SortedPermutes(stat);
    WidthsComplete(stat);
    RebuiltTablesAgree(Order(Sorted(stat)), Widths(stat));
    RecalculateFits(e.(stat := stat));
  }

  // ----- the start

  function ZeroStat(): (stat: seq<int16>)
    ensures |stat| == SYMBOLS
  {
    seq<int16>(SYMBOLS, i => 0)
  }

  function InitialEnc(): Enc { Enc(ZeroStat(), RECALC, InitialTable()) }

  function InitialDec(): Dec { Dec(ZeroStat(), InitialGroups(), InitialSymbols()) }

  lemma {:induction false} SumZeros(s: seq<int16>)
    requires forall i :: 0 <= i < |s| ==> s[i] == 0
    ensures Sum(s) == 0
  {
    if s != [] { SumZeros(s[..|s| - 1]); }
  }

  /** The two sides start in step. */
  lemma InitiallyInStep()
    ensures InStep(InitialEnc(), InitialDec())
  {
    SumZeros(ZeroStat());
    InitialTablesAgree();
    InvertsFits(InitialTable(), InitialGroups(), InitialSymbols());
  }
}
