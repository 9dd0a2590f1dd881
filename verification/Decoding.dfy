/** What the decoder makes of any byte string, one symbol at a time. */
module Decoding {
  import opened Bits
  import opened HuffStat
  import opened GroupCode
  import opened Tables
  import opened Adaptive

  const LZMIN: nat := 4
  const WINDOW: nat := 16384  // LZBUFSIZE

  /** Rejected: decompress returns false. Broken: an assertion of the decoder fails or it reads
      outside its tables. */
  datatype Status = Running | Done | Rejected | Broken

  /** win holds the last WINDOW bytes, dst the caller's buffer with `o` bytes written, p is the
      position in the bit stream. */
  datatype State = State(dec: Dec, win: seq<byte>, dst: seq<byte>, o: nat, p: nat, status: Status)

  ghost predicate Ok(bits: seq<bool>, s: State) {
    Wf(s.dec) && |s.win| == WINDOW && s.o <= |s.dst| && s.p <= |bits|
  }

  // ----- reading

  predicate Has(bits: seq<bool>, p: nat, n: nat) { p + n <= |bits| }

  function Peek(bits: seq<bool>, p: nat, n: nat): (v: nat)
    requires Has(bits, p, n)
    ensures v < Pow2(n)
  {
    ValueBound(bits[p..p + n]);
    Value(bits[p..p + n])
  }

  datatype Read = Got(symbol: int, p: nat) | Stop(status: Status, p: nat)

  /** Reads a symbol: 4 bits of group, then an index. */
  ghost function ReadSymbol(d: Dec, bits: seq<bool>, p: nat): (r: Read)
    requires Wf(d) && p <= |bits|
    ensures p <= r.p <= |bits|
    ensures r.Got? ==> 0 <= r.symbol < SYMBOLS && p + 4 <= r.p
    ensures r.Stop? ==> r.status == Rejected || r.status == Broken
  {
    if !Has(bits, p, 4) then Stop(Rejected, p)
    else
      assert Pow2(4) == 16;
      ReadIndex(d, d.groups[Peek(bits, p, 4)], bits, p + 4)
  }

  ghost function ReadIndex(d: Dec, group: Group, bits: seq<bool>, p: nat): (r: Read)
    requires Wf(d) && p <= |bits|
    ensures p <= r.p <= |bits|
    ensures r.Got? ==> 0 <= r.symbol < SYMBOLS
    ensures r.Stop? ==> r.status == Rejected || r.status == Broken
  {
    if group.nBits == 0 then
      if group.pos < SYMBOLS then Got(d.symbols[group.pos], p) else Stop(Broken, p)
    else if group.nBits > MAX_WIDTH then Stop(Broken, p)
    else if !Has(bits, p, group.nBits) then Stop(Rejected, p)
    else
      var pos := group.pos + Peek(bits, p, group.nBits);
      if pos < SYMBOLS then Got(d.symbols[pos], p + group.nBits) else Stop(Rejected, p + group.nBits)
  }

  /** Counts zeros up to a one, which is read too, or up to the end. */
  function Unary(bits: seq<bool>, p: nat): (r: (nat, nat))
    requires p <= |bits|
    ensures p <= r.1 <= |bits|
    decreases |bits| - p
  {
    if p == |bits| then (0, p)
    else if bits[p] then (0, p + 1)
    else var r := Unary(bits, p + 1); (r.0 + 1, r.1)
  }

  datatype GroupsRead = GroupsRead(groups: seq<Group>, p: nat, pos: nat)

  /** Reads the groups from i on, given the last width and the slots before. */
  function ReadGroups(bits: seq<bool>, p: nat, i: nat, last: nat, pos: nat): (r: GroupsRead)
    requires p <= |bits| && i <= GROUPS
    ensures p <= r.p <= |bits| && |r.groups| == GROUPS - i
    decreases GROUPS - i, p
  {
    if i == GROUPS then GroupsRead([], p, pos)
    else
      var u := Unary(bits, p);
      var w := last + u.0;
      var r := ReadGroups(bits, u.1, i + 1, w, pos + Pow2(w));
      r.(groups := [Group(w, pos)] + r.groups)
  }

  // ----- match lengths and displacements

  /** Extra bits and base of the length symbols from 264 on. */
  function LenExtra(sym: int): nat
    requires 264 <= sym <= 271
  {
    sym - 263
  }

  function LenBase(sym: int): nat
    requires 264 <= sym <= 271
  {
    if sym == 264 then 8 else if sym == 265 then 10 else if sym == 266 then 14 else if sym == 267 then 22
    else if sym == 268 then 38 else if sym == 269 then 70 else if sym == 270 then 134 else 262
  }

  /** Extra bits, besides the 7 low ones, and base of the displacement prefixes. */
  function DispExtra(prefix: nat): nat
    requires prefix < 8
  {
    if prefix == 0 then 0 else prefix - 1
  }

  function DispBase(prefix: nat): nat
    requires prefix < 8
  {
    if prefix == 0 then 0 else if prefix == 1 then 1 else if prefix == 2 then 2 else if prefix == 3 then 4
    else if prefix == 4 then 8 else if prefix == 5 then 16 else if prefix == 6 then 32 else 64
  }

  /** Reads the length of a match, less LZMIN. */
  ghost function ReadLength(sym: int, bits: seq<bool>, p: nat): (r: Read)
    requires 256 <= sym < RECALCULATE && p <= |bits|
    ensures p <= r.p <= |bits| && (r.Got? ==> 0 <= r.symbol <= 517) && (r.Stop? ==> r.status == Rejected)
  {
    if sym < 264 then Got(sym - 256, p)
    else if !Has(bits, p, LenExtra(sym)) then Stop(Rejected, p)
    else
      ExtraPowers();
      Got(LenBase(sym) + Peek(bits, p, LenExtra(sym)), p + LenExtra(sym))
  }

  lemma ExtraPowers()
    ensures Pow2(0) == 1 && Pow2(1) == 2 && Pow2(2) == 4 && Pow2(3) == 8 && Pow2(4) == 16
    ensures Pow2(5) == 32 && Pow2(6) == 64 && Pow2(7) == 128 && Pow2(8) == 256
    ensures Pow2(9) == 512 && Pow2(10) == 1024 && Pow2(11) == 2048 && Pow2(12) == 4096 && Pow2(13) == 8192
  {
    Pow2Small();
    assert Pow2(13) == 2 * Pow2(12);
  }

  /** Reads a displacement: a prefix, then the bits under its base. */
  ghost function ReadDisp(bits: seq<bool>, p: nat): (r: Read)
    requires p <= |bits|
    ensures p <= r.p <= |bits| && (r.Got? ==> 0 <= r.symbol < WINDOW) && (r.Stop? ==> r.status == Rejected)
  {
    if !Has(bits, p, 3) then Stop(Rejected, p)
    else
      ExtraPowers();
      var prefix := Peek(bits, p, 3);
      var n := DispExtra(prefix) + 7;
      if Has(bits, p + 3, n) then
        Got(Peek(bits, p + 3, n) + 128 * DispBase(prefix), p + 3 + n)
      else Stop(Rejected, if n > 8 && Has(bits, p + 3, 8) then p + 11 else p + 3)
  }

  // ----- copying

  /** LZ77 copy: len bytes, each the one disp places back. */
  function CopyFrom(h: seq<byte>, disp: nat, len: nat): (r: seq<byte>)
    requires 1 <= disp <= |h|
    ensures |r| == |h| + len && r[..|h|] == h
    decreases len
  {
    if len == 0 then h
    else
      var r := CopyFrom(h + [h[|h| - disp]], disp, len - 1);
      assert r[..|h|] == r[..|h| + 1][..|h|];
      r
  }

  /** Every byte copied is the one disp places before it, be it an old one or one copied just before; and
      no other history has that. */
  lemma {:induction false} CopyRepeats(h: seq<byte>, disp: nat, len: nat, r: seq<byte>)
    requires 1 <= disp <= |h|
    ensures r == CopyFrom(h, disp, len)
      <==> |r| == |h| + len && r[..|h|] == h && forall i :: |h| <= i < |r| ==> r[i] == r[i - disp]
    decreases len
  {
    if len > 0 {
      var g := h + [h[|h| - disp]];
      CopyRepeats(g, disp, len - 1, r);
      if |r| == |h| + len && r[..|h|] == h {
        assert r[..|g|] == r[..|h|] + [r[|h|]] && r[|h| - disp] == r[..|h|][|h| - disp];
      }
      if r == CopyFrom(g, disp, len - 1) { assert r[..|g|][..|h|] == h && r[|h|] == r[..|g|][|h|]; }
    }
  }

  /** The last WINDOW bytes. */
  function Last(h: seq<byte>): (w: seq<byte>)
    requires WINDOW <= |h|
    ensures |w| == WINDOW
  {
    h[|h| - WINDOW..]
  }

  /** The bytes of a match; with displacement 0 whatever the buffer holds there. */
  function MatchBytes(s: State, disp: nat, len: nat): (m: seq<byte>)
    requires |s.win| == WINDOW && disp <= WINDOW && s.o + len <= |s.dst|
    ensures |m| == len
  {
    if disp == 0 then s.dst[s.o..s.o + len] else CopyFrom(s.win, disp, len)[WINDOW..]
  }

  /** Appends m to the output and to the window. */
  function Write(s: State, m: seq<byte>): (r: State)
    requires |s.win| == WINDOW && s.o + |m| <= |s.dst|
    ensures |r.dst| == |s.dst| && r.o == s.o + |m| && |r.win| == WINDOW
  {
    s.(dst := s.dst[..s.o] + m + s.dst[s.o + |m|..], o := s.o + |m|, win := Last(s.win + m))
  }

  // ----- one symbol

  ghost function CountSymbol(d: Dec, sym: int): (r: Dec)
    requires Wf(d) && 0 <= sym < SYMBOLS
    ensures Wf(r)
  {
    d.(stat := Counted(d.stat, sym))
  }

  ghost function StepLiteral(s: State, sym: int): State
    requires |s.win| == WINDOW && s.o <= |s.dst| && 0 <= sym < 256
  {
    if s.o >= |s.dst| then s.(status := Rejected) else Write(s, [sym])
  }

  ghost function StepRecalculate(bits: seq<bool>, s: State): State
    requires Ok(bits, s)
  {
    var r := ReadGroups(bits, s.p, 0, 0, 0);
    s.(dec := Rebuilt(s.dec, r.groups), p := r.p, status := if r.pos < SYMBOLS + 255 then Running else Broken)
  }

  ghost function StepMatch(bits: seq<bool>, s: State, sym: int): State
    requires Ok(bits, s) && 256 <= sym < RECALCULATE
  {
    var over := ReadLength(sym, bits, s.p);
    if over.Stop? then s.(status := over.status, p := over.p)
    else
      var disp := ReadDisp(bits, over.p);
      if disp.Stop? then s.(status := disp.status, p := disp.p)
      else if s.o + over.symbol + LZMIN > |s.dst| then s.(status := Rejected, p := disp.p)
      else Write(s.(p := disp.p), MatchBytes(s, disp.symbol, over.symbol + LZMIN))
  }

  ghost function StepSymbol(bits: seq<bool>, s: State, sym: int): State
    requires Ok(bits, s) && 0 <= sym < SYMBOLS
  {
    if sym < 256 then StepLiteral(s, sym)
    else if sym == RECALCULATE then StepRecalculate(bits, s)
    else if sym == END then s.(status := Done)
    else StepMatch(bits, s, sym)
  }

  ghost function Step(bits: seq<bool>, s: State): State
    requires Ok(bits, s)
  {
    var r := ReadSymbol(s.dec, bits, s.p);
    if r.Stop? then s.(status := r.status, p := r.p)
    else StepSymbol(bits, s.(dec := CountSymbol(s.dec, r.symbol), p := r.p), r.symbol)
  }

  lemma StepSymbolOk(bits: seq<bool>, s: State, sym: int)
    requires Ok(bits, s) && 0 <= sym < SYMBOLS && s.status == Running
    ensures Ok(bits, StepSymbol(bits, s, sym)) && s.p <= StepSymbol(bits, s, sym).p
    ensures |StepSymbol(bits, s, sym).dst| == |s.dst|
  {
    if sym == RECALCULATE { SortedPermutes(s.dec.stat); }
  }

  lemma StepOk(bits: seq<bool>, s: State)
    requires Ok(bits, s) && s.status == Running
    ensures Ok(bits, Step(bits, s)) && |Step(bits, s).dst| == |s.dst|
    ensures Step(bits, s).status == Running ==> s.p + 4 <= Step(bits, s).p
  {
    var r := ReadSymbol(s.dec, bits, s.p);
    if r.Got? {
      StepSymbolOk(bits, s.(dec := CountSymbol(s.dec, r.symbol), p := r.p), r.symbol);
    }
  }

  /** Runs until the block ends one way or another. */
  ghost function Run(bits: seq<bool>, s: State): (r: State)
    requires Ok(bits, s)
    ensures Ok(bits, r) && r.status != Running && |r.dst| == |s.dst|
    decreases |bits| - s.p, if s.status == Running then 1 else 0
  {
    if s.status != Running then s
    else
      StepOk(bits, s);
      Run(bits, Step(bits, s))
  }

  /** A step ends the block as done exactly if it reads the end symbol. */
  lemma StepDone(bits: seq<bool>, s: State)
    requires Ok(bits, s) && s.status == Running
    ensures var r := ReadSymbol(s.dec, bits, s.p);
      Step(bits, s).status == Done <==> r.Got? && r.symbol == END
    ensures var r := ReadSymbol(s.dec, bits, s.p);
      Step(bits, s).status == Done ==> Step(bits, s) == s.(dec := CountSymbol(s.dec, END), p := r.p, status := Done)
  {
    hide ReadLength, ReadDisp, ReadGroups, MatchBytes, Rebuilt, Counted;
  }

  /** So a block is done only at its end symbol, in a state u that the run has reached. */
  lemma {:induction false} DoneAtEnd(bits: seq<bool>, s: State) returns (u: State)
    requires Ok(bits, s) && s.status == Running && Run(bits, s).status == Done
    ensures Ok(bits, u) && u.status == Running && Run(bits, u) == Run(bits, s)
    ensures ReadSymbol(u.dec, bits, u.p) == Got(END, Run(bits, s).p)
    ensures Run(bits, s) == u.(dec := CountSymbol(u.dec, END), p := Run(bits, s).p, status := Done)
    decreases |bits| - s.p
  {
    hide Step, ReadSymbol, CountSymbol;
    StepOk(bits, s);
    StepDone(bits, s);
    if Step(bits, s).status == Running {
      u := DoneAtEnd(bits, Step(bits, s));
    } else {
      u := s;
    }
  }

  // ----- blocks cut short

  lemma PeekMore(bits: seq<bool>, more: seq<bool>, p: nat, n: nat)
    requires bits <= more && Has(bits, p, n)
    ensures Has(more, p, n) && Peek(more, p, n) == Peek(bits, p, n)
  {
    assert bits[p..p + n] == more[p..p + n];
  }

  lemma SymbolMore(d: Dec, bits: seq<bool>, more: seq<bool>, p: nat)
    requires Wf(d) && p <= |bits| && bits <= more && ReadSymbol(d, bits, p).Got?
    ensures ReadSymbol(d, more, p) == ReadSymbol(d, bits, p)
  {
    hide Peek;
    PeekMore(bits, more, p, 4);
    assert Pow2(4) == 16;
    var group := d.groups[Peek(bits, p, 4)];
    if 0 < group.nBits <= MAX_WIDTH { PeekMore(bits, more, p + 4, group.nBits); }
  }

  lemma LengthMore(sym: int, bits: seq<bool>, more: seq<bool>, p: nat)
    requires 256 <= sym < RECALCULATE && p <= |bits| && bits <= more && ReadLength(sym, bits, p).Got?
    ensures ReadLength(sym, more, p) == ReadLength(sym, bits, p)
  {
    hide Peek;
    if 264 <= sym { PeekMore(bits, more, p, LenExtra(sym)); }
  }

  lemma DispMore(bits: seq<bool>, more: seq<bool>, p: nat)
    requires p <= |bits| && bits <= more && ReadDisp(bits, p).Got?
    ensures ReadDisp(more, p) == ReadDisp(bits, p)
  {
    hide Peek;
    ExtraPowers();
    PeekMore(bits, more, p, 3);
    PeekMore(bits, more, p + 3, DispExtra(Peek(bits, p, 3)) + 7);
  }

  lemma {:induction false} UnaryMore(bits: seq<bool>, more: seq<bool>, p: nat)
    requires p <= |bits| && bits <= more && Unary(bits, p).1 < |bits|
    ensures Unary(more, p) == Unary(bits, p)
    decreases |bits| - p
  {
    assert more[p] == bits[p];
    if !bits[p] { UnaryMore(bits, more, p + 1); }
  }

  lemma GroupsStep(bits: seq<bool>, p: nat, i: nat, last: nat, pos: nat)
    requires p <= |bits| && i <= GROUPS
    ensures i == GROUPS ==> ReadGroups(bits, p, i, last, pos) == GroupsRead([], p, pos)
    ensures i < GROUPS ==>
      var u := Unary(bits, p);
      var w := last + u.0;
      var r := ReadGroups(bits, u.1, i + 1, w, pos + Pow2(w));
      ReadGroups(bits, p, i, last, pos) == r.(groups := [Group(w, pos)] + r.groups)
  {
    hide Unary, Pow2;
  }

  lemma {:induction false} GroupsMore(bits: seq<bool>, more: seq<bool>, p: nat, i: nat, last: nat, pos: nat)
    requires p <= |bits| && bits <= more && i <= GROUPS && ReadGroups(bits, p, i, last, pos).p < |bits|
    ensures ReadGroups(more, p, i, last, pos) == ReadGroups(bits, p, i, last, pos)
    decreases GROUPS - i
  {
    hide Unary, Pow2, ReadGroups;
    GroupsStep(bits, p, i, last, pos);
    GroupsStep(more, p, i, last, pos);
    if i < GROUPS {
      var u := Unary(bits, p);
      GroupsMore(bits, more, u.1, i + 1, last + u.0, pos + Pow2(last + u.0));
      UnaryMore(bits, more, p);
    }
  }

  /** A step that is not the last does the same with more bits, or has used up those there are. */
  lemma StepMore(bits: seq<bool>, more: seq<bool>, s: State)
    requires Ok(bits, s) && s.status == Running && bits <= more
    requires Step(bits, s).status == Running || Step(bits, s).status == Done
    ensures Step(more, s) == Step(bits, s) || (Step(bits, s).status == Running && Step(bits, s).p == |bits|)
  {
    hide Wf, ReadSymbol, ReadLength, ReadDisp, ReadGroups, MatchBytes, Rebuilt, Counted, Write;
    SymbolMore(s.dec, bits, more, s.p);
    var r := ReadSymbol(s.dec, bits, s.p);
    if r.symbol == RECALCULATE {
      if ReadGroups(bits, r.p, 0, 0, 0).p < |bits| { GroupsMore(bits, more, r.p, 0, 0, 0); }
    } else if 256 <= r.symbol < RECALCULATE {
      LengthMore(r.symbol, bits, more, r.p);
      DispMore(bits, more, ReadLength(r.symbol, bits, r.p).p);
    }
  }

  lemma NoMoreBits(bits: seq<bool>, s: State)
    requires Ok(bits, s) && s.status == Running && s.p == |bits|
    ensures Run(bits, s).status == Rejected
  {
  }

  /** A block that is accepted is accepted with anything after it, and nothing of that is looked at. */
  lemma {:induction false} RunMore(bits: seq<bool>, more: seq<bool>, s: State)
    requires Ok(bits, s) && s.status == Running && bits <= more && Run(bits, s).status == Done
    ensures Run(more, s) == Run(bits, s)
    decreases |bits| - s.p
  {
    hide Step;
    StepOk(bits, s);
    StepMore(bits, more, s);
    var t := Step(bits, s);
    if t.status == Running {
      if t.p == |bits| { NoMoreBits(bits, t); }
      RunMore(bits, more, t);
    }
  }
}
