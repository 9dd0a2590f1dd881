/** How large a block can become. */
module Size {
  import opened Bits
  import opened HuffStat
  import opened GroupCode
  import opened EncoderStats
  import opened Adaptive
  import opened Decoding
  import opened Tokens
  import opened Encoders

  const CODE_LIMIT: nat := 12
  const RECALC_LIMIT: nat := 36

  /** calcMaxBuf */
  function CalcMaxBuf(rawSz: nat): nat { rawSz + rawSz / 2 + 32 }

  /** How many recalculations the tokens of a block bring about. */
  ghost function Recalcs(e: Enc, toks: seq<Token>): nat
    requires Sized(e) && ValidTokens(toks)
  {
    if toks == [] then 0
    else
      var rest := toks[..|toks| - 1];
      Recalcs(e, rest) + if Due(TokensState(e, rest)) then 1 else 0
  }

  /** Over any run the counters stay below 8195, so that no 16-bit counter wraps around, and the
      countdown is positive between puts. */
  lemma {:induction false} CountersBounded(e: Enc, toks: seq<Token>)
    requires Sized(e) && Bounded(e) && ValidTokens(toks)
    ensures Bounded(TokensState(e, toks)) && Bounded(BlockState(e, toks))
    ensures forall sym :: 0 <= sym < SYMBOLS ==> 0 <= TokensState(e, toks).stat[sym] <= MAX_TOTAL
  {
    hide Put, TokenSymbol;
    if toks != [] {
      CountersBounded(e, toks[..|toks| - 1]);
      PutBounded(TokensState(e, toks[..|toks| - 1]), TokenSymbol(toks[|toks| - 1]));
    }
    var r := TokensState(e, toks);
    PutBounded(r, END);
    forall sym | 0 <= sym < SYMBOLS ensures r.stat[sym] <= MAX_TOTAL { CountBelowSum(r.stat, sym); }
  }

  /** One more put takes one off the countdown; a recalculation adds its whole length. */
  lemma {:induction false} Countdown(e: Enc, toks: seq<Token>)
    requires Sized(e) && 1 <= e.next && ValidTokens(toks)
    ensures var next := TokensState(e, toks).next; var r := Recalcs(e, toks);
      next == e.next - |toks| + RECALC * r && 1 <= next && (0 < r ==> next <= RECALC)
  {
    hide Counted, Halved, Recoded, Sorted;
    if toks != [] { Countdown(e, toks[..|toks| - 1]); }
  }

  /** One recalculation for the first 4096 symbols at the most, and one for every 4096 more. */
  lemma RecalcsBound(e: Enc, toks: seq<Token>)
    requires Sized(e) && 1 <= e.next && ValidTokens(toks)
    ensures var due := if Due(TokensState(e, toks)) then 1 else 0; Recalcs(e, toks) + due <= 1 + |toks| / RECALC
  {
    Countdown(e, toks);
  }

  lemma {:induction false} DeltaLength(ws: seq<nat>, i: nat)
    requires 0 < |ws| && i <= |ws| && SortedWidths(ws)
    ensures |DeltaBits(ws, i)| == |ws| - i + ws[|ws| - 1] - (if i == 0 then 0 else ws[i - 1])
    decreases |ws| - i
  {
    hide DeltaBits;
    if i == |ws| {
      DeltaNone(ws);
    } else {
      DeltaLength(ws, i + 1);
      DeltaFirst(ws, i);
    }
  }

  lemma DeltaNone(ws: seq<nat>)
    requires SortedWidths(ws)
    ensures DeltaBits(ws, |ws|) == []
  {
  }

  lemma DeltaFirst(ws: seq<nat>, i: nat)
    requires i < |ws| && SortedWidths(ws)
    ensures |DeltaBits(ws, i)| == ws[i] - (if i == 0 then 0 else ws[i - 1]) + 1 + |DeltaBits(ws, i + 1)|
  {
    var last := if i == 0 then 0 else ws[i - 1];
    assert DeltaBits(ws, i) == Zeros(ws[i] - last) + [true] + DeltaBits(ws, i + 1);
  }

  lemma CodeLength(e: Enc, sym: int)
    requires Sized(e) && FitTable(e.table) && 0 <= sym < SYMBOLS
    ensures |SymbolBits(e, sym)| <= CODE_LIMIT
  {
  }

  lemma ReadyLength(e: Enc)
    requires Sized(e) && FitTable(e.table)
    ensures |ReadyBits(e)| <= if Due(e) then RECALC_LIMIT else 0
  {
    hide Counted, Recoded, Sorted, Widths, FitTable, DeltaBits;
    if Due(e) {
      var stat := Counted(e.stat, RECALCULATE);
      WidthsComplete(stat);
      DeltaLength(Widths(stat), 0);
      CodeLength(e, RECALCULATE);
    }
  }

  lemma PutLength(e: Enc, sym: int)
    requires Sized(e) && FitTable(e.table) && 0 <= sym < SYMBOLS
    ensures |PutBits(e, sym)| <= CODE_LIMIT + if Due(e) then RECALC_LIMIT else 0
    ensures FitTable(Put(e, sym).table)
  {
    hide FitTable, ReadyBits, Counted, Recoded, SymbolBits;
    if Due(e) { RecalculateFits(e.(stat := Counted(e.stat, RECALCULATE))); }
    ReadyLength(e);
    CodeLength(Ready(e), sym);
  }

  lemma TailLength(t: Token)
    requires ValidToken(t)
    ensures |TokenTail(t)| <= if t.Match? then 24 else 0
  {
  }

  /** Twelve bits a byte, and 36 for every recalculation: a match stands for at least four bytes. */
  lemma {:induction false} TokensLength(h: seq<byte>, e: Enc, toks: seq<Token>)
    requires WINDOW <= |h| && Sized(e) && FitTable(e.table) && ValidTokens(toks)
    ensures FitTable(TokensState(e, toks).table)
    ensures |TokensBits(e, toks)| <= CODE_LIMIT * (|Expand(h, toks)| - |h|) + RECALC_LIMIT * Recalcs(e, toks)
    ensures |toks| <= |Expand(h, toks)| - |h|
  {
    hide FitTable, Put, PutBits, TokenTail, TokenSymbol, Due, CopyFrom;
    if toks != [] {
      var rest, t := toks[..|toks| - 1], toks[|toks| - 1];
      TokensLength(h, e, rest);
      PutLength(TokensState(e, rest), TokenSymbol(t));
      TailLength(t);
    }
  }

  /** A block of fewer than 24576 bytes fits the buffer that calcMaxBuf sizes. */
  lemma BlockFits(h: seq<byte>, e: Enc, toks: seq<Token>, dst: seq<byte>)
    requires WINDOW <= |h| && Sized(e) && Bounded(e) && FitTable(e.table) && ValidTokens(toks)
    requires Padded(dst, BlockBits(e, toks))
    ensures var sz := |Expand(h, toks)| - |h|;
      && |BlockBits(e, toks)| <= CODE_LIMIT * sz + RECALC_LIMIT * (1 + sz / RECALC) + CODE_LIMIT
      && (sz < 24576 ==> |dst| <= CalcMaxBuf(sz))
  {
    hide FitTable, Put, PutBits, TokensBits, TokensState, Due, Expand, Unpack, Recalcs;
    TokensLength(h, e, toks);
    RecalcsBound(e, toks);
    PutLength(TokensState(e, toks), END);
  }
}
