/** Blocks of literals and matches, how they are printed as bits, and the proof that the decoder
    parses them back. */
module Tokens {
  import opened Bits
  import opened HuffStat
  import opened GroupCode
  import opened Tables
  import opened EncoderStats
  import opened Adaptive
  import opened Decoding

  const MAX_OVER: nat := 517  // maxMatchOver

  datatype Token = Literal(b: byte) | Match(len: nat, disp: nat)

  ghost predicate ValidToken(t: Token) {
    t.Match? ==> LZMIN <= t.len <= LZMIN + MAX_OVER && 1 <= t.disp < WINDOW
  }

  ghost predicate ValidTokens(toks: seq<Token>) {
    forall i :: 0 <= i < |toks| ==> ValidToken(toks[i])
  }

  // ----- meaning

  /** Plain LZ77: what one token appends to the history h, */
  function Emit(h: seq<byte>, t: Token): (r: seq<byte>)
    requires WINDOW <= |h| && (t.Match? ==> 1 <= t.disp < WINDOW)
    ensures |h| <= |r| && r[..|h|] == h
  {
    match t
    case Literal(b) => h + [b]
    case Match(len, disp) => CopyFrom(h, disp, len)
  }

  /** and what a run of tokens does. */
  function Expand(h: seq<byte>, toks: seq<Token>): (r: seq<byte>)
    requires WINDOW <= |h| && forall i :: 0 <= i < |toks| ==> toks[i].Match? ==> 1 <= toks[i].disp < WINDOW
    ensures |h| <= |r| && r[..|h|] == h
  {
    if toks == [] then h
    else
      var r := Expand(h, toks[..|toks| - 1]);
      assert Emit(r, toks[|toks| - 1])[..|h|] == r[..|h|];
      Emit(r, toks[|toks| - 1])
  }

  // ----- printing

  function LenSymbol(over: nat): (sym: int)
    requires over <= MAX_OVER
    ensures 256 <= sym < RECALCULATE
    ensures sym < 264 ==> over == sym - 256
    ensures 264 <= sym ==> LenBase(sym) <= over
  {
    if over < 8 then 256 + over
    else if over < 10 then 264 else if over < 14 then 265 else if over < 22 then 266 else if over < 38 then 267
    else if over < 70 then 268 else if over < 134 then 269 else if over < 262 then 270 else 271
  }

  /** The extra bits after the length symbol, */
  function LenBits(over: nat): seq<bool>
    requires over <= MAX_OVER
  {
    var sym := LenSymbol(over);
    if sym < 264 then [] else ToBits(over - LenBase(sym), LenExtra(sym))
  }

  function DispPrefix(disp: nat): (prefix: nat)
    requires disp < WINDOW
    ensures prefix < 8 && 128 * DispBase(prefix) <= disp
  {
    if disp < 128 then 0 else if disp < 256 then 1 else if disp < 512 then 2 else if disp < 1024 then 3
    else if disp < 2048 then 4 else if disp < 4096 then 5 else if disp < 8192 then 6 else 7
  }

  /** and those of the displacement. */
  function DispBits(disp: nat): seq<bool>
    requires disp < WINDOW
  {
    var prefix := DispPrefix(disp);
    ToBits(prefix, 3) + ToBits(disp - 128 * DispBase(prefix), DispExtra(prefix) + 7)
  }

  ghost function TokenSymbol(t: Token): (sym: int)
    requires ValidToken(t)
    ensures 0 <= sym < RECALCULATE
  {
    match t
    case Literal(b) => b
    case Match(len, disp) => LenSymbol(len - LZMIN)
  }

  ghost function TokenTail(t: Token): seq<bool>
    requires ValidToken(t)
  {
    match t
    case Literal(b) => []
    case Match(len, disp) => LenBits(len - LZMIN) + DispBits(disp)
  }

  ghost function TokensState(e: Enc, toks: seq<Token>): (r: Enc)
    requires Sized(e) && ValidTokens(toks)
    ensures Sized(r)
  {
    if toks == [] then e
    else Put(TokensState(e, toks[..|toks| - 1]), TokenSymbol(toks[|toks| - 1]))
  }

  ghost function TokensBits(e: Enc, toks: seq<Token>): seq<bool>
    requires Sized(e) && ValidTokens(toks)
  {
    if toks == [] then []
    else
      var rest, t := toks[..|toks| - 1], toks[|toks| - 1];
      TokensBits(e, rest) + (PutBits(TokensState(e, rest), TokenSymbol(t)) + TokenTail(t))
  }

  /** A whole block, with its end symbol. */
  ghost function BlockBits(e: Enc, toks: seq<Token>): seq<bool>
    requires Sized(e) && ValidTokens(toks)
  {
    TokensBits(e, toks) + PutBits(TokensState(e, toks), END)
  }

  ghost function BlockState(e: Enc, toks: seq<Token>): (r: Enc)
    requires Sized(e) && ValidTokens(toks)
    ensures Sized(r)
  {
    Put(TokensState(e, toks), END)
  }

  // ----- parsing what was printed: symbols

  lemma PeekAt(bits: seq<bool>, p: nat, v: nat, n: nat)
    requires At(bits, p, ToBits(v, n)) && v < Pow2(n)
    ensures Has(bits, p, n) && Peek(bits, p, n) == v
  {
    ValueToBits(v, n);
  }

  lemma ReadBack(d: Dec, table: seq<Symbol>, bits: seq<bool>, p: nat, sym: int)
    requires Wf(d) && Inverts(table, d.groups, d.symbols) && 0 <= sym < SYMBOLS
    requires At(bits, p, CodeBits(table[sym]))
    ensures ReadSymbol(d, bits, p) == Got(sym, p + |CodeBits(table[sym])|)
  {
    var code := CodeBits(table[sym]);
    assert Reads(d.groups, d.symbols, code, sym);
    assert bits[p..p + 4] == code[..4];
    assert bits[p + 4..p + |code|] == code[4..];
    assert Peek(bits, p, 4) == Value(code[..4]);
    ReadBackIndex(d, d.groups[Value(code[..4])], code[4..], bits, p + 4, sym);
  }

  lemma ReadBackIndex(d: Dec, group: Group, index: seq<bool>, bits: seq<bool>, p: nat, sym: int)
    requires Wf(d) && At(bits, p, index) && |index| <= MAX_WIDTH && ReadsFrom(group, d.symbols, index, sym)
    ensures ReadIndex(d, group, bits, p) == Got(sym, p + |index|)
  {
    if |index| > 0 { assert Peek(bits, p, group.nBits) == Value(index); }
  }

  // ----- recalculation tables

  lemma {:induction false} UnaryBack(bits: seq<bool>, p: nat, n: nat)
    requires At(bits, p, Zeros(n) + [true])
    ensures Unary(bits, p) == (n, p + n + 1)
    decreases n
  {
    var part := Zeros(n) + [true];
    assert bits[p..p + n + 1][n] == true;
    if n > 0 {
      assert bits[p..p + n + 1][0] == false;
      assert bits[p + 1..p + n + 1] == part[1..] == Zeros(n - 1) + [true];
      UnaryBack(bits, p + 1, n - 1);
    }
  }

  function LastWidth(ws: seq<nat>, i: nat): nat
    requires i <= |ws|
  {
    if i == 0 then 0 else ws[i - 1]
  }

  /** What reading the groups from i on must give, with pos slots before them. */
  function GroupsFrom(ws: seq<nat>, i: nat, p: nat, pos: nat): GroupsRead
    requires i <= |ws| && SortedWidths(ws)
    decreases |ws| - i, p
  {
    if i == |ws| then GroupsRead([], p, pos)
    else
      var r := GroupsFrom(ws, i + 1, p + (ws[i] - LastWidth(ws, i) + 1), pos + Pow2(ws[i]));
      r.(groups := [Group(ws[i], pos)] + r.groups)
  }

  lemma {:induction false} GroupsFromEnd(ws: seq<nat>, i: nat, p: nat)
    requires i <= |ws| && SortedWidths(ws)
    ensures var r := GroupsFrom(ws, i, p, SlotSum(ws[..i]));
      r.p == p + |DeltaBits(ws, i)| && r.pos == SlotSum(ws) && |r.groups| == |ws| - i
    decreases |ws| - i
  {
    hide Pow2;
    if i == |ws| {
      assert ws[..i] == ws;
    } else {
      assert ws[..i + 1][..i] == ws[..i];
      GroupsFromEnd(ws, i + 1, p + (ws[i] - LastWidth(ws, i) + 1));
    }
  }

  lemma {:induction false} GroupsFromAt(ws: seq<nat>, i: nat, p: nat, k: nat)
    requires i <= k < |ws| && SortedWidths(ws)
    ensures k - i < |GroupsFrom(ws, i, p, SlotSum(ws[..i])).groups|
    ensures GroupsFrom(ws, i, p, SlotSum(ws[..i])).groups[k - i] == Group(ws[k], SlotSum(ws[..k]))
    decreases |ws| - i
  {
    hide Pow2;
    if i < k {
      assert ws[..i + 1][..i] == ws[..i];
      GroupsFromAt(ws, i + 1, p + (ws[i] - LastWidth(ws, i) + 1), k);
    }
  }

  lemma {:induction false} ReadGroupsBack(bits: seq<bool>, p: nat, ws: seq<nat>, i: nat, pos: nat)
    requires |ws| == GROUPS && SortedWidths(ws) && i <= GROUPS && At(bits, p, DeltaBits(ws, i))
    ensures ReadGroups(bits, p, i, LastWidth(ws, i), pos) == GroupsFrom(ws, i, p, pos)
    decreases GROUPS - i
  {
    hide SlotSum, Groups, Unary, Pow2;
    if i < GROUPS {
      var n := ws[i] - LastWidth(ws, i);
      AtSplit(bits, p, Zeros(n) + [true], DeltaBits(ws, i + 1));
      UnaryBack(bits, p, n);
      ReadGroupsBack(bits, p + (n + 1), ws, i + 1, pos + Pow2(ws[i]));
    }
  }

  /** The 16 unary differences restore the widths and the offsets. */
  lemma GroupsBack(bits: seq<bool>, p: nat, ws: seq<nat>)
    requires |ws| == GROUPS && SortedWidths(ws) && At(bits, p, DeltaBits(ws, 0))
    ensures ReadGroups(bits, p, 0, 0, 0) == GroupsRead(Groups(ws), p + |DeltaBits(ws, 0)|, SlotSum(ws))
  {
    hide Pow2, DeltaBits, ReadGroups;
    assert ws[..0] == [];
    ReadGroupsBack(bits, p, ws, 0, 0);
    GroupsFromEnd(ws, 0, p);
    forall k | 0 <= k < GROUPS ensures GroupsFrom(ws, 0, p, 0).groups[k] == Groups(ws)[k] {
      GroupsFromAt(ws, 0, p, k);
    }
  }

  /** From s the decoder gets to s'. */
  ghost predicate Reaches(bits: seq<bool>, s: State, s': State) {
    Ok(bits, s) && Ok(bits, s') && Run(bits, s) == Run(bits, s')
  }

  lemma ReachesStep(bits: seq<bool>, s: State)
    requires Ok(bits, s) && s.status == Running
    ensures Reaches(bits, s, Step(bits, s))
  {
    StepOk(bits, s);
  }

  /** The decoder after a due recalculation. */
  ghost function RebuiltFor(e: Enc, d: Dec): (r: Dec)
    requires Sized(e) && Wf(d)
  {
    var stat := Counted(e.stat, RECALCULATE);
    if Due(e) then Rebuilt(d.(stat := stat), Groups(Widths(stat))) else d
  }

  /** After a recalculation the decoder's tables invert the new codes. */
  lemma RebuiltInStep(e: Enc, d: Dec)
    requires InStep(e, d)
    ensures var r := RebuiltFor(e, d);
      && Wf(r) && r.stat == Ready(e).stat && FitTable(Ready(e).table)
      && Inverts(Ready(e).table, r.groups, r.symbols)
  {
    if Due(e) { RecalculateInStep(e, d); }
  }

  /** What a due recalculation consists of. */
  lemma RecalculationParts(e: Enc, d: Dec) returns (ws: seq<nat>)
    requires InStep(e, d) && Due(e)
    ensures Sized(e) && |ws| == GROUPS && SortedWidths(ws) && SlotSum(ws) < SYMBOLS + 255
    ensures Wf(d) && Inverts(e.table, d.groups, d.symbols)
    ensures ReadyBits(e) == CodeBits(e.table[RECALCULATE]) + DeltaBits(ws, 0)
    ensures RebuiltFor(e, d) == Rebuilt(d.(stat := Counted(d.stat, RECALCULATE)), Groups(ws))
  {
    hide Sorted, Recoded, Widths, Groups, SlotSum, DeltaBits, Inverts, FitTable, Bounded, CodeBits, Counted, Halved,
      Order;
    ws := Widths(Counted(e.stat, RECALCULATE));
    WidthsComplete(Counted(e.stat, RECALCULATE));
  }

  lemma RecalculationRead(bits: seq<bool>, s: State, e: Enc)
    requires Ok(bits, s) && InStep(e, s.dec) && Due(e)
    requires At(bits, s.p, ReadyBits(e))
    ensures Step(bits, s) == s.(dec := RebuiltFor(e, s.dec), p := s.p + |ReadyBits(e)|, status := Running)
  {
    hide Sorted, Recoded, Widths, Groups, SlotSum, ReadSymbol, ReadGroups, DeltaBits, Inverts, Reads, FitTable, Bounded,
      Wf, CodeBits, Counted, Halved, Order, InStep, Step, At, Ok, ReadyBits, RebuiltFor, Rebuilt, Due;
    var ws := RecalculationParts(e, s.dec);
    var code := CodeBits(e.table[RECALCULATE]);
    AtSplit(bits, s.p, code, DeltaBits(ws, 0));
    ReadBack(s.dec, e.table, bits, s.p, RECALCULATE);
    GroupsBack(bits, s.p + |code|, ws);
    RecalculateStep(bits, s, s.p + |code|);
  }

  /** A recalculation symbol read makes the decoder rebuild its tables. */
  lemma RecalculateStep(bits: seq<bool>, s: State, p: nat)
    requires Ok(bits, s) && ReadSymbol(s.dec, bits, s.p) == Got(RECALCULATE, p) && p <= |bits|
    requires ReadGroups(bits, p, 0, 0, 0).pos < SYMBOLS + 255
    ensures var r := ReadGroups(bits, p, 0, 0, 0);
      Step(bits, s)
        == s.(dec := Rebuilt(s.dec.(stat := Counted(s.dec.stat, RECALCULATE)), r.groups), p := r.p, status := Running)
  {
    hide ReadSymbol, ReadGroups, Rebuilt, Counted;
  }

  /** A due recalculation arrives. */
  lemma ReadyArrives(bits: seq<bool>, s: State, e: Enc)
    requires Ok(bits, s) && s.status == Running && InStep(e, s.dec)
    requires At(bits, s.p, ReadyBits(e))
    ensures Reaches(bits, s, s.(dec := RebuiltFor(e, s.dec), p := s.p + |ReadyBits(e)|))
  {
    RebuiltInStep(e, s.dec);
    if Due(e) {
      RecalculationRead(bits, s, e);
      ReachesStep(bits, s);
    }
  }

  /** The decoder after one more symbol. */
  ghost function DecAfter(e: Enc, d: Dec, sym: int): (r: Dec)
    requires InStep(e, d) && 0 <= sym < SYMBOLS
    ensures InStep(Put(e, sym), r)
  {
    RebuiltInStep(e, d);
    PutBounded(e, sym);
    CountSymbol(RebuiltFor(e, d), sym)
  }

  /** The decoder state in which the symbol put at s.p is read. */
  ghost function Prepared(s: State, e: Enc): State
    requires Sized(e) && Wf(s.dec)
  {
    s.(dec := RebuiltFor(e, s.dec), p := s.p + |ReadyBits(e)|)
  }

  /** A put symbol arrives, after whatever recalculation came before it. */
  lemma SymbolArrives(bits: seq<bool>, s: State, e: Enc, sym: int)
    requires Ok(bits, s) && s.status == Running && InStep(e, s.dec) && 0 <= sym < SYMBOLS
    requires At(bits, s.p, PutBits(e, sym))
    ensures Reaches(bits, s, Prepared(s, e))
    ensures ReadSymbol(Prepared(s, e).dec, bits, Prepared(s, e).p) == Got(sym, s.p + |PutBits(e, sym)|)
  {
    hide Run, Sorted, Recoded, Widths, Groups, Inverts, Reads, FitTable, Bounded, Wf, Counted, Halved, Order,
      ReadSymbol,
      Reaches, At, ReadyBits, RebuiltFor, Ready, CodeBits;
    AtSplit(bits, s.p, ReadyBits(e), SymbolBits(Ready(e), sym));
    ReadyArrives(bits, s, e);
    RebuiltInStep(e, s.dec);
    ReadBack(RebuiltFor(e, s.dec), Ready(e).table, bits, s.p + |ReadyBits(e)|, sym);
  }

  lemma ReachesTrans(bits: seq<bool>, a: State, b: State, c: State)
    requires Reaches(bits, a, b) && Reaches(bits, b, c)
    ensures Reaches(bits, a, c)
  {
  }

  // ----- parsing what was printed: tokens

  lemma LengthBack(bits: seq<bool>, p: nat, over: nat)
    requires over <= MAX_OVER && At(bits, p, LenBits(over))
    ensures ReadLength(LenSymbol(over), bits, p) == Got(over, p + |LenBits(over)|)
  {
    var sym := LenSymbol(over);
    if sym >= 264 {
      ExtraPowers();
      PeekAt(bits, p, over - LenBase(sym), LenExtra(sym));
    }
  }

  lemma DispBack(bits: seq<bool>, p: nat, disp: nat)
    requires disp < WINDOW && At(bits, p, DispBits(disp))
    ensures ReadDisp(bits, p) == Got(disp, p + |DispBits(disp)|)
  {
    hide ToBits, Peek, Has, At;
    var prefix := DispPrefix(disp);
    var n, rest := DispExtra(prefix) + 7, disp - 128 * DispBase(prefix);
    ExtraPowers();
    assert prefix < Pow2(3) && rest < Pow2(n);
    hide Pow2;
    AtSplit(bits, p, ToBits(prefix, 3), ToBits(rest, n));
    PeekAt(bits, p, prefix, 3);
    PeekAt(bits, p + 3, rest, n);
  }

  /** What a token appends. */
  function TokenBytes(win: seq<byte>, t: Token): seq<byte>
    requires |win| == WINDOW && (t.Match? ==> 1 <= t.disp < WINDOW)
  {
    Emit(win, t)[WINDOW..]
  }

  lemma LiteralStep(bits: seq<bool>, s: State, b: byte, p: nat)
    requires Ok(bits, s) && ReadSymbol(s.dec, bits, s.p) == Got(b, p) && s.o < |s.dst|
    ensures Step(bits, s) == Write(s.(dec := CountSymbol(s.dec, b), p := p), [b])
  {
  }

  lemma MatchStep(bits: seq<bool>, s: State, len: nat, disp: nat, p: nat)
    requires Ok(bits, s) && ValidToken(Match(len, disp)) && s.o + len <= |s.dst|
    requires ReadSymbol(s.dec, bits, s.p) == Got(LenSymbol(len - LZMIN), p)
    requires At(bits, p, LenBits(len - LZMIN) + DispBits(disp))
    ensures var p' := p + |LenBits(len - LZMIN) + DispBits(disp)|;
      Step(bits, s)
        == Write(s.(dec := CountSymbol(s.dec, LenSymbol(len - LZMIN)), p := p'), CopyFrom(s.win, disp, len)[WINDOW..])
  {
    hide ReadSymbol, ReadLength, ReadDisp, CopyFrom, LenSymbol, LenBits, DispBits, Wf, Write, Counted;
    var over := len - LZMIN;
    AtSplit(bits, p, LenBits(over), DispBits(disp));
    LengthBack(bits, p, over);
    DispBack(bits, p + |LenBits(over)|, disp);
  }

  // ----- histories longer than the window

  /** A copy only looks at the end of the history. */
  lemma {:induction false} CopyPrefix(a: seq<byte>, h: seq<byte>, disp: nat, len: nat)
    requires 1 <= disp <= |h|
    ensures CopyFrom(a + h, disp, len) == a + CopyFrom(h, disp, len)
    decreases len
  {
    if len > 0 {
      var b := h[|h| - disp];
      assert (a + h)[|a + h| - disp] == b;
      assert (a + h) + [b] == a + (h + [b]);
      CopyPrefix(a, h + [b], disp, len - 1);
    }
  }

  lemma EmitPrefix(a: seq<byte>, h: seq<byte>, t: Token)
    requires WINDOW <= |h| && ValidToken(t)
    ensures Emit(a + h, t) == a + Emit(h, t)
  {
    match t
    case Literal(b) => assert (a + h) + [b] == a + (h + [b]);
    case Match(len, disp) => CopyPrefix(a, h, disp, len);
  }

  // ----- parsing what was printed: tokens and blocks

  lemma WriteTwice(s: State, s1: State, d: Dec, p: nat, m: seq<byte>, n: seq<byte>)
    requires |s.win| == WINDOW && s.o + |m| + |n| <= |s.dst|
    requires s1 == Write(s.(dec := s1.dec, p := s1.p), m)
    ensures Write(s1.(dec := d, p := p), n) == Write(s.(dec := d, p := p), m + n)
  {
    var a, b := Write(s1.(dec := d, p := p), n), Write(s.(dec := d, p := p), m + n);
    assert a.dst == b.dst;
    assert (s.win + m)[|m|..] + n == (s.win + (m + n))[|m|..];
    assert a.win == b.win;
  }

  /** The decoder state after a token printed at s.p. */
  ghost function AfterToken(s: State, e: Enc, t: Token): (r: State)
    requires |s.win| == WINDOW && InStep(e, s.dec) && ValidToken(t)
    requires s.o + |TokenBytes(s.win, t)| <= |s.dst|
    ensures InStep(Put(e, TokenSymbol(t)), r.dec) && r.status == s.status
    ensures |r.win| == WINDOW && |r.dst| == |s.dst| && r.o == s.o + |TokenBytes(s.win, t)|
  {
    var p := s.p + |PutBits(e, TokenSymbol(t)) + TokenTail(t)|;
    Write(s.(dec := DecAfter(e, s.dec, TokenSymbol(t)), p := p), TokenBytes(s.win, t))
  }

  /** Acting on the token's symbol is acting on the token. */
  lemma TokenStep(bits: seq<bool>, s: State, e: Enc, t: Token)
    requires Ok(bits, s) && s.status == Running && InStep(e, s.dec) && ValidToken(t)
    requires s.o + |TokenBytes(s.win, t)| <= |s.dst|
    requires Ok(bits, Prepared(s, e))
    requires ReadSymbol(Prepared(s, e).dec, bits, Prepared(s, e).p)
      == Got(TokenSymbol(t), s.p + |PutBits(e, TokenSymbol(t))|)
    requires At(bits, s.p + |PutBits(e, TokenSymbol(t))|, TokenTail(t))
    ensures Step(bits, Prepared(s, e)) == AfterToken(s, e, t)
  {
    hide Sorted, Recoded, Widths, DeltaBits, Inverts, FitTable, Bounded, Reads, ReadSymbol, Step, Write, CopyFrom,
      PutBits, LenBits, DispBits, RebuiltFor, Wf, Counted;
    var p := s.p + |PutBits(e, TokenSymbol(t))|;
    match t {
      case Literal(b) =>
        LiteralStep(bits, Prepared(s, e), b, p);
        assert TokenBytes(s.win, t) == [b];
      case Match(len, disp) =>
        MatchStep(bits, Prepared(s, e), len, disp, p);
    }
  }

  lemma TokenArrives(bits: seq<bool>, s: State, e: Enc, t: Token)
    requires Ok(bits, s) && s.status == Running && InStep(e, s.dec) && ValidToken(t)
    requires At(bits, s.p, PutBits(e, TokenSymbol(t)) + TokenTail(t))
    requires s.o + |TokenBytes(s.win, t)| <= |s.dst|
    ensures Reaches(bits, s, AfterToken(s, e, t))
  {
    hide Run, Step, Sorted, Recoded, Widths, DeltaBits, Inverts, FitTable, Bounded, Reads, Write, TokenBytes,
      PutBits, TokenTail, DecAfter, RebuiltFor, Counted, Wf, ReadSymbol;
    var sym := TokenSymbol(t);
    AtSplit(bits, s.p, PutBits(e, sym), TokenTail(t));
    SymbolArrives(bits, s, e, sym);
    TokenStep(bits, s, e, t);
    ReachesStep(bits, Prepared(s, e));
    ReachesTrans(bits, s, Prepared(s, e), Step(bits, Prepared(s, e)));
  }

  // ----- blocks

  /** The decoder state after the tokens of a block. */
  ghost predicate AfterTokens(s: State, e: Enc, toks: seq<Token>, s': State)
    requires |s.win| == WINDOW && Sized(e) && ValidTokens(toks)
  {
    var out := Expand(s.win, toks)[WINDOW..];
    && s.o + |out| <= |s.dst|
    && InStep(TokensState(e, toks), s'.dec) && s'.status == Running
    && s' == Write(s.(dec := s'.dec, p := s.p + |TokensBits(e, toks)|), out)
  }

  /** One more token after the tokens before it. */
  lemma AfterOneMore(s: State, e: Enc, rest: seq<Token>, t: Token, s1: State)
    requires |s.win| == WINDOW && Sized(e) && ValidTokens(rest + [t])
    requires s.o + |Expand(s.win, rest + [t])| - WINDOW <= |s.dst|
    requires AfterTokens(s, e, rest, s1)
    ensures s1.o + |TokenBytes(s1.win, t)| <= |s.dst| == |s1.dst|
    ensures AfterTokens(s, e, rest + [t], AfterToken(s1, TokensState(e, rest), t))
  {
    hide Sorted, Recoded, Widths, DeltaBits, Inverts, FitTable, Bounded, Reads, PutBits, TokenTail,
      CopyFrom, Wf, DecAfter, Put, TokenSymbol, Emit, TokenBytes, InStep;
    var toks := rest + [t];
    assert toks[..|toks| - 1] == rest;
    var h := Expand(s.win, rest);
    TokenAppends(s.win, h, t);
    var s' := AfterToken(s1, TokensState(e, rest), t);
    WriteTwice(s, s1, s'.dec, s'.p, h[WINDOW..], TokenBytes(s1.win, t));
  }

  lemma {:induction false} TokensArrive(bits: seq<bool>, s: State, e: Enc, toks: seq<Token>) returns (s': State)
    requires Ok(bits, s) && s.status == Running && InStep(e, s.dec) && ValidTokens(toks)
    requires At(bits, s.p, TokensBits(e, toks))
    requires s.o + |Expand(s.win, toks)| - WINDOW <= |s.dst|
    ensures AfterTokens(s, e, toks, s') && Reaches(bits, s, s')
  {
    hide Run, Step, Sorted, Recoded, Widths, DeltaBits, Inverts, FitTable, Bounded, Reads, PutBits, TokenTail,
      CopyFrom, Wf, DecAfter, Put, TokenSymbol, Emit, AfterToken;
    if toks == [] {
      s' := s;
      assert Write(s, []) == s;
    } else {
      var rest, t := toks[..|toks| - 1], toks[|toks| - 1];
      assert toks == rest + [t];
      var e1 := TokensState(e, rest);
      AtSplit(bits, s.p, TokensBits(e, rest), PutBits(e1, TokenSymbol(t)) + TokenTail(t));
      var s1 := TokensArrive(bits, s, e, rest);
      AfterOneMore(s, e, rest, t, s1);
      TokenArrives(bits, s1, e1, t);
      s' := AfterToken(s1, e1, t);
      ReachesTrans(bits, s, s1, s');
    }
  }

  /** A token appends the same bytes to the whole history as to its window. */
  lemma TokenAppends(win: seq<byte>, h: seq<byte>, t: Token)
    requires |win| == WINDOW && WINDOW <= |h| && h[..WINDOW] == win && ValidToken(t)
    ensures Emit(h, t)[WINDOW..] == h[WINDOW..] + TokenBytes(Last(h), t)
    ensures Last(win + h[WINDOW..]) == Last(h)
  {
    var a := h[..|h| - WINDOW];
    assert h == a + Last(h);
    EmitPrefix(a, Last(h), t);
    assert win + h[WINDOW..] == h;
  }

  // ----- the block round trip

  lemma EndArrives(bits: seq<bool>, s: State, e: Enc)
    requires Ok(bits, s) && s.status == Running && InStep(e, s.dec) && At(bits, s.p, PutBits(e, END))
    ensures Run(bits, s) == s.(dec := DecAfter(e, s.dec, END), p := s.p + |PutBits(e, END)|, status := Done)
  {
    hide Sorted, Recoded, Widths, DeltaBits, Inverts, FitTable, Bounded, Reads, PutBits, ReadSymbol, ReadyBits,
      RebuiltFor,
      Put, Counted;
    SymbolArrives(bits, s, e, END);
    ReachesStep(bits, Prepared(s, e));
  }

  /** Printing a block and parsing it back: the decoder accepts, writes exactly what the tokens
      mean, reads exactly the printed bits, and is again in step with the encoder. */
  lemma BlockArrives(bits: seq<bool>, d: Dec, win: seq<byte>, dst: seq<byte>, e: Enc, toks: seq<Token>)
    requires InStep(e, d) && |win| == WINDOW && ValidTokens(toks)
    requires At(bits, 0, BlockBits(e, toks)) && |Expand(win, toks)| - WINDOW <= |dst|
    ensures var out := Expand(win, toks)[WINDOW..];
      var r := Run(bits, State(d, win, dst, 0, 0, Running));
      && InStep(BlockState(e, toks), r.dec) && r.status == Done
      && r == State(r.dec, Last(Expand(win, toks)), out + dst[|out|..], |out|, |BlockBits(e, toks)|, Done)
  {
    hide Run, Sorted, Recoded, Widths, DeltaBits, Inverts, FitTable, Bounded, Reads, PutBits, TokensBits, Expand,
      Put, TokensState, Wf;
    var s := State(d, win, dst, 0, 0, Running);
    var e1 := TokensState(e, toks);
    AtSplit(bits, 0, TokensBits(e, toks), PutBits(e1, END));
    var s1 := TokensArrive(bits, s, e, toks);
    EndArrives(bits, s1, e1);
    assert InStep(BlockState(e, toks), DecAfter(e1, s1.dec, END));
    assert win + Expand(win, toks)[WINDOW..] == Expand(win, toks);
  }

  // ----- a block without room for its output

  /** A literal that does not fit is rejected. */
  lemma NoRoomLiteral(bits: seq<bool>, s: State, b: byte, p: nat)
    requires Ok(bits, s) && ReadSymbol(s.dec, bits, s.p) == Got(b, p) && s.o + 1 > |s.dst|
    ensures Step(bits, s).status == Rejected
  {
    hide ReadSymbol, Wf, Write, Counted, StepMatch, StepRecalculate;
  }

  /** A match that does not fit is rejected. */
  lemma NoRoomMatch(bits: seq<bool>, s: State, len: nat, disp: nat, p: nat)
    requires Ok(bits, s) && ValidToken(Match(len, disp)) && s.o + len > |s.dst|
    requires ReadSymbol(s.dec, bits, s.p) == Got(LenSymbol(len - LZMIN), p)
    requires At(bits, p, LenBits(len - LZMIN) + DispBits(disp))
    ensures Step(bits, s).status == Rejected
  {
    hide ReadSymbol, ReadLength, ReadDisp, CopyFrom, LenSymbol, LenBits, DispBits, Wf, Write, Counted;
    var over := len - LZMIN;
    AtSplit(bits, p, LenBits(over), DispBits(disp));
    LengthBack(bits, p, over);
    DispBack(bits, p + |LenBits(over)|, disp);
  }

  /** A token that does not fit is rejected. */
  lemma NoRoomStep(bits: seq<bool>, s: State, t: Token, p: nat)
    requires Ok(bits, s) && s.status == Running && ValidToken(t) && s.o + |TokenBytes(s.win, t)| > |s.dst|
    requires ReadSymbol(s.dec, bits, s.p) == Got(TokenSymbol(t), p) && At(bits, p, TokenTail(t))
    ensures Step(bits, s).status == Rejected
  {
    hide Step, ReadSymbol, LenBits, DispBits, LenSymbol, Wf, At;
    match t
    case Literal(b) => NoRoomLiteral(bits, s, b, p);
    case Match(len, disp) => NoRoomMatch(bits, s, len, disp, p);
  }

  lemma TokenRejected(bits: seq<bool>, s: State, e: Enc, t: Token)
    requires Ok(bits, s) && s.status == Running && InStep(e, s.dec) && ValidToken(t)
    requires At(bits, s.p, PutBits(e, TokenSymbol(t)) + TokenTail(t))
    requires s.o + |TokenBytes(s.win, t)| > |s.dst|
    ensures Run(bits, s).status == Rejected
  {
    hide Step, Sorted, Recoded, Widths, DeltaBits, Inverts, FitTable, Bounded, Reads, Write, TokenBytes,
      PutBits, TokenTail, DecAfter, RebuiltFor, Counted, Wf, ReadSymbol;
    var sym := TokenSymbol(t);
    AtSplit(bits, s.p, PutBits(e, sym), TokenTail(t));
    SymbolArrives(bits, s, e, sym);
    NoRoomStep(bits, Prepared(s, e), t, s.p + |PutBits(e, sym)|);
    ReachesStep(bits, Prepared(s, e));
  }

  lemma {:induction false} TokensRejected(bits: seq<bool>, s: State, e: Enc, toks: seq<Token>)
    requires Ok(bits, s) && s.status == Running && InStep(e, s.dec) && ValidTokens(toks)
    requires At(bits, s.p, TokensBits(e, toks)) && s.o <= |s.dst|
    requires s.o + |Expand(s.win, toks)| - WINDOW > |s.dst|
    ensures Run(bits, s).status == Rejected
  {
    hide Run, Step, Sorted, Recoded, Widths, DeltaBits, Inverts, FitTable, Bounded, Reads, PutBits, TokenTail,
      CopyFrom, Wf, DecAfter, Put, TokenSymbol, Emit, AfterToken, TokenBytes;
    assert toks != [];
    var rest, t := toks[..|toks| - 1], toks[|toks| - 1];
    assert toks == rest + [t];
    var e1, h := TokensState(e, rest), Expand(s.win, rest);
    AtSplit(bits, s.p, TokensBits(e, rest), PutBits(e1, TokenSymbol(t)) + TokenTail(t));
    if s.o + |h| - WINDOW > |s.dst| {
      TokensRejected(bits, s, e, rest);
    } else {
      var s1 := TokensArrive(bits, s, e, rest);
      TokenAppends(s.win, h, t);
      TokenRejected(bits, s1, e1, t);
    }
  }

  /** A printed block with more output than there is room for is rejected. */
  lemma BlockRejected(bits: seq<bool>, d: Dec, win: seq<byte>, dst: seq<byte>, e: Enc, toks: seq<Token>)
    requires InStep(e, d) && |win| == WINDOW && ValidTokens(toks)
    requires At(bits, 0, BlockBits(e, toks)) && |Expand(win, toks)| - WINDOW > |dst|
    ensures Run(bits, State(d, win, dst, 0, 0, Running)).status == Rejected
  {
    hide Run, Sorted, Recoded, Widths, DeltaBits, Inverts, FitTable, Bounded, Reads, PutBits, TokensBits, Expand,
      Put, TokensState, Wf;
    AtSplit(bits, 0, TokensBits(e, toks), PutBits(TokensState(e, toks), END));
    TokensRejected(bits, State(d, win, dst, 0, 0, Running), e, toks);
  }

  /** A printed block that lacks bits at its end is not accepted, whatever the room. */
  lemma BlockTruncated(bits: seq<bool>, d: Dec, win: seq<byte>, dst: seq<byte>, e: Enc, toks: seq<Token>)
    requires InStep(e, d) && |win| == WINDOW && ValidTokens(toks) && bits < BlockBits(e, toks)
    ensures Run(bits, State(d, win, dst, 0, 0, Running)).status != Done
  {
    hide Run, Sorted, Recoded, Widths, DeltaBits, Inverts, FitTable, Bounded, Reads, BlockBits, Expand, Wf, BlockState;
    var s, whole := State(d, win, dst, 0, 0, Running), BlockBits(e, toks);
    if Run(bits, s).status == Done {
      RunMore(bits, whole, s);
      if |Expand(win, toks)| - WINDOW <= |dst| {
        BlockArrives(whole, d, win, dst, e, toks);
      } else {
        BlockRejected(whole, d, win, dst, e, toks);
      }
    }
  }
}
