/** Encoder and decoder tables of the symbol code, and the relation between them: each symbol's
    code, looked up as the decoder does, leads back to the symbol. */
module Tables {
  import opened Bits
  import opened HuffStat
  import opened GroupCode

  /** A decoder group: the index width and the position of its first symbol. */
  datatype Group = Group(nBits: nat, pos: nat)

  const MAX_CODE: nat := 12

  // ----- tables made from counts

  /** Slot k of group j, w bits wide. */
  function GroupSymbol(j: nat, w: nat, k: nat): Symbol
    requires j < GROUPS
  {
    Symbol(w + 4, Or(Shl(j, w), k))
  }

  /** The code of the symbol p places into the groups from j on. */
  function CodeAt(p: nat, ws: seq<nat>, j: nat): Symbol
    requires j <= |ws| <= GROUPS
    decreases |ws| - j, p
  {
    if j == |ws| then Symbol(0, 0)
    else if p < Pow2(ws[j]) then GroupSymbol(j, ws[j], p)
    else CodeAt(p - Pow2(ws[j]), ws, j + 1)
  }

  function IndexOf(order: seq<int>, sym: int): (p: nat)
    requires sym in order
    ensures p < |order| && order[p] == sym
  {
    if order[0] == sym then 0 else 1 + IndexOf(order[1..], sym)
  }

  /** The encoder's table: symbols in the given order take the slots one after another. */
  ghost function CodeTable(order: seq<int>, ws: seq<nat>): (table: seq<Symbol>)
    requires IsPermutation(order) && |ws| == GROUPS
    ensures |table| == SYMBOLS
  {
    seq(SYMBOLS, sym requires 0 <= sym < SYMBOLS => CodeAt(IndexOf(order, sym), ws, 0))
  }

  /** The decoder's group table. */
  function Groups(ws: seq<nat>): (groups: seq<Group>)
    ensures |groups| == |ws|
  {
    seq(|ws|, j requires 0 <= j < |ws| => Group(ws[j], SlotSum(ws[..j])))
  }

  // ----- agreement of the two sides

  function CodeBits(s: Symbol): seq<bool> { ToBits(s.code, s.nBits) }

  /** The decoder reads exactly these bits as sym: 4 bits of group g, then an index into it. */
  ghost predicate Reads(groups: seq<Group>, symbols: seq<int>, bits: seq<bool>, sym: int) {
    && |groups| == GROUPS && |symbols| == SYMBOLS
    && 4 <= |bits| <= MAX_CODE
    && Value(bits[..4]) < GROUPS
    && ReadsFrom(groups[Value(bits[..4])], symbols, bits[4..], sym)
  }

  ghost predicate ReadsFrom(group: Group, symbols: seq<int>, index: seq<bool>, sym: int) {
    && group.nBits == |index|
    && group.pos + Value(index) < |symbols|
    && symbols[group.pos + Value(index)] == sym
  }

  ghost predicate Inverts(table: seq<Symbol>, groups: seq<Group>, symbols: seq<int>) {
    && |table| == SYMBOLS
    && forall sym :: 0 <= sym < SYMBOLS ==>
      table[sym].code < Pow2(table[sym].nBits) && Reads(groups, symbols, CodeBits(table[sym]), sym)
  }

  lemma GroupSymbolBits(j: nat, w: nat, k: nat)
    requires j < GROUPS && w <= MAX_WIDTH && k < Pow2(w)
    ensures CodeBits(GroupSymbol(j, w, k)) == ToBits(j, 4) + ToBits(k, w)
    ensures GroupSymbol(j, w, k).code < Pow2(w + 4)
  {
    assert Pow2(4) == 16;
    Fields(j, 4, k, w);
  }

  /** The slot of the symbol at place p, as group and index. */
  lemma {:induction false} CodeAtSplits(p: nat, ws: seq<nat>, j: nat) returns (g: nat, k: nat)
    requires j <= |ws| <= GROUPS && p + SlotSum(ws[..j]) < SlotSum(ws)
    ensures j <= g < |ws| && k < Pow2(ws[g])
    ensures p + SlotSum(ws[..j]) == SlotSum(ws[..g]) + k
    ensures CodeAt(p, ws, j) == GroupSymbol(g, ws[g], k)
    decreases |ws| - j
  {
    assert ws[..|ws|] == ws;
    if j == |ws| {
    } else if p < Pow2(ws[j]) {
      g, k := j, p;
    } else {
      assert ws[..j + 1][..j] == ws[..j];
      g, k := CodeAtSplits(p - Pow2(ws[j]), ws, j + 1);
    }
  }

  /** Slot k of group g has the code (g, k). */
  lemma {:induction false} CodeAtSlot(p: nat, ws: seq<nat>, j: nat, g: nat, k: nat)
    requires j <= g < |ws| <= GROUPS && k < Pow2(ws[g])
    requires p + SlotSum(ws[..j]) == SlotSum(ws[..g]) + k
    ensures CodeAt(p, ws, j) == GroupSymbol(g, ws[g], k)
    decreases |ws| - j
  {
    if j < g {
      assert ws[..j + 1][..j] == ws[..j];
      SlotSumMono(ws, j + 1, g);
      CodeAtSlot(p - Pow2(ws[j]), ws, j + 1, g, k);
    }
  }

  lemma {:induction false} SlotSumMono(ws: seq<nat>, i: nat, j: nat)
    requires i <= j <= |ws|
    ensures SlotSum(ws[..i]) <= SlotSum(ws[..j])
    decreases j
  {
    if i < j {
      SlotSumMono(ws, i, j - 1);
      assert ws[..j][..j - 1] == ws[..j - 1];
    }
  }

  /** The bits of (g, k) are read as the symbol k places into group g. */
  lemma ReadsSlot(groups: seq<Group>, symbols: seq<int>, g: nat, w: nat, k: nat)
    requires |groups| == GROUPS && |symbols| == SYMBOLS && g < GROUPS && w <= MAX_WIDTH && k < Pow2(w)
    requires groups[g].nBits == w && groups[g].pos + k < SYMBOLS
    ensures Reads(groups, symbols, ToBits(g, 4) + ToBits(k, w), symbols[groups[g].pos + k])
  {
    var bits := ToBits(g, 4) + ToBits(k, w);
    assert Pow2(4) == 16;
    ValueToBits(g, 4);
    ValueToBits(k, w);
    assert bits[..4] == ToBits(g, 4) && bits[4..] == ToBits(k, w);
  }

  lemma RebuiltCodeReads(order: seq<int>, ws: seq<nat>, p: nat)
    requires |order| == SYMBOLS && Complete(ws) && p < SYMBOLS
    ensures CodeAt(p, ws, 0).code < Pow2(CodeAt(p, ws, 0).nBits)
    ensures Reads(Groups(ws), order, CodeBits(CodeAt(p, ws, 0)), order[p])
  {
    assert ws[..0] == [];
    var g, k := CodeAtSplits(p, ws, 0);
    GroupSymbolBits(g, ws[g], k);
    ReadsSlot(Groups(ws), order, g, ws[g], k);
  }

  /** Complete widths give every symbol a code of at most 12 bits that the decoder, given the same
      order and widths, reads back as that symbol. */
  lemma RebuiltTablesAgree(order: seq<int>, ws: seq<nat>)
    requires IsPermutation(order) && Complete(ws)
    ensures Inverts(CodeTable(order, ws), Groups(ws), order)
  {
    forall sym | 0 <= sym < SYMBOLS
      ensures var s := CodeTable(order, ws)[sym];
        s.code < Pow2(s.nBits) && Reads(Groups(ws), order, CodeBits(s), sym)
    {
      RebuiltCodeReads(order, ws, IndexOf(order, sym));
    }
  }

  /** A code that agrees with a decoder is a prefix code: no symbol's bits begin another's. */
  lemma PrefixFree(table: seq<Symbol>, groups: seq<Group>, symbols: seq<int>, a: int, b: int)
    requires Inverts(table, groups, symbols) && 0 <= a < SYMBOLS && 0 <= b < SYMBOLS
    requires CodeBits(table[a]) <= CodeBits(table[b])
    ensures a == b
  {
    var s, t := CodeBits(table[a]), CodeBits(table[b]);
    assert Reads(groups, symbols, s, a) && Reads(groups, symbols, t, b);
    assert s[..4] == t[..4];
    assert s == t;
  }

  // ----- the tables both sides start from

  /** Table/Henc.tbl, by runs of consecutive codes. */
  function InitialCode(sym: int): Symbol
    requires 0 <= sym < SYMBOLS
  {
    if sym == 0 then Symbol(7, 0x14)
    else if sym <= 31 then Symbol(8, 0x30 + (sym - 1))
    else if sym == 32 then Symbol(7, 0x15)
    else if sym <= 47 then Symbol(8, 0x4F + (sym - 33))
    else if sym == 48 then Symbol(7, 0x16)
    else if sym <= 162 then Symbol(8, 0x5E + (sym - 49))
    else if sym <= 254 then Symbol(9, 0x1A0 + (sym - 163))
    else if sym == 255 then Symbol(7, 0x17)
    else if sym <= 259 then Symbol(6, sym - 256)
    else if sym <= 271 then Symbol(7, 0x08 + (sym - 260))
    else Symbol(9, 0x1FC + (sym - 272))
  }

  /** Table/Hdec_g.tbl, by runs of equal widths. */
  function InitialGroup(g: int): Group
    requires 0 <= g < GROUPS
  {
    if g == 0 then Group(2, 0)
    else if g <= 2 then Group(3, 4 + 8 * (g - 1))
    else if g <= 12 then Group(4, 20 + 16 * (g - 3))
    else Group(5, 180 + 32 * (g - 13))
  }

  /** Table/Hdec_s.tbl, by runs of consecutive symbols. */
  function InitialSymbol(p: int): (sym: int)
    requires 0 <= p < SYMBOLS
    ensures 0 <= sym < SYMBOLS
  {
    if p <= 15 then 256 + p
    else if p == 16 then 0
    else if p == 17 then 32
    else if p == 18 then 48
    else if p == 19 then 255
    else if p <= 50 then 1 + (p - 20)
    else if p <= 65 then 33 + (p - 51)
    else if p <= 271 then 49 + (p - 66)
    else p
  }

  function InitialTable(): (table: seq<Symbol>)
    ensures |table| == SYMBOLS
  {
    seq(SYMBOLS, sym requires 0 <= sym < SYMBOLS => InitialCode(sym))
  }

  function InitialGroups(): (groups: seq<Group>)
    ensures |groups| == GROUPS
  {
    seq(GROUPS, g requires 0 <= g < GROUPS => InitialGroup(g))
  }

  function InitialSymbols(): (symbols: seq<int>)
    ensures |symbols| == SYMBOLS
  {
    seq(SYMBOLS, p requires 0 <= p < SYMBOLS => InitialSymbol(p))
  }

  /** The code g * 2^w + k stands for slot k of group g. */
  lemma ScaledCode(g: nat, w: nat, k: nat, s: Symbol)
    requires g < GROUPS && k < Pow2(w) && s == Symbol(w + 4, Scaled(g, w) + k)
    ensures CodeBits(s) == ToBits(g, 4) + ToBits(k, w) && s.code < Pow2(s.nBits)
  {
    assert Pow2(4) == 16;
    ScaledBits(g, 4, k, w);
    assert w + 4 == 4 + w;
  }

  /** Where the shipped decoder tables keep sym. */
  function InitialSlot(sym: int): (slot: (nat, nat))
    requires 0 <= sym < SYMBOLS
    ensures var (g, k) := slot;
      && g < GROUPS && InitialGroup(g).pos + k < SYMBOLS
      && InitialSymbol(InitialGroup(g).pos + k) == sym
  {
    var code := InitialCode(sym).code;
    var w := InitialCode(sym).nBits - 4;
    if w == 2 then (0, code)
    else if w == 3 then (code / 8, code % 8)
    else if w == 4 then (code / 16, code % 16)
    else (code / 32, code % 32)
  }

  lemma InitialSlotCode(sym: int)
    requires 0 <= sym < SYMBOLS
    ensures var (g, k) := InitialSlot(sym); var w := InitialGroup(g).nBits;
      && InitialCode(sym).nBits == w + 4 && w <= MAX_WIDTH
      && InitialCode(sym).code == Scaled(g, w) + k && k < Scaled(1, w)
  {
    var g := InitialSlot(sym).0;
    assert Scaled(g, 2) == 4 * g && Scaled(1, 2) == 4;
    assert Scaled(g, 3) == 8 * g && Scaled(1, 3) == 8;
    assert Scaled(g, 4) == 16 * g && Scaled(1, 4) == 16;
    assert Scaled(g, 5) == 32 * g && Scaled(1, 5) == 32;
  }

  lemma InitialSymbolReads(sym: int)
    requires 0 <= sym < SYMBOLS
    ensures var s := InitialCode(sym);
      s.code < Pow2(s.nBits) && Reads(InitialGroups(), InitialSymbols(), CodeBits(s), sym)
  {
    InitialSlotCode(sym);
    var (g, k) := InitialSlot(sym);
    ScaledOne(InitialGroup(g).nBits);
    ScaledCode(g, InitialGroup(g).nBits, k, InitialCode(sym));
    ReadsSlot(InitialGroups(), InitialSymbols(), g, InitialGroup(g).nBits, k);
  }

  /** The shipped tables agree. */
  lemma InitialTablesAgree()
    ensures Inverts(InitialTable(), InitialGroups(), InitialSymbols())
  {
    forall sym | 0 <= sym < SYMBOLS
      ensures var s := InitialTable()[sym];
        s.code < Pow2(s.nBits) && Reads(InitialGroups(), InitialSymbols(), CodeBits(s), sym)
    {
      InitialSymbolReads(sym);
    }
  }
}
