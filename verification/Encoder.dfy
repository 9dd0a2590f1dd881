/** The bit writer of a block: puts symbols and matches through a 32-bit register into bytes. */
module Encoders {
  import opened Bits
  import opened HuffStat
  import opened GroupCode
  import opened Tables
  import opened EncoderStats
  import opened Adaptive
  import opened Decoding
  import opened Tokens
  import opened MatchCodes

  const MAX_RAW: nat := 64  // maxRaw

  /** What putting a symbol needs of the statistics. */
  ghost predicate Counting(e: Enc) {
    && Sized(e) && FitTable(e.table)
    && (forall sym :: 0 <= sym < |e.stat| ==> 0 <= e.stat[sym])
    && Sum(e.stat) <= MAX_TOTAL
  }

  lemma PutFits(e: Enc, sym: int)
    requires Counting(e) && 0 <= sym < SYMBOLS
    ensures FitTable(Put(e, sym).table)
  {
    if Due(e) { RecalculateFits(e.(stat := Counted(e.stat, RECALCULATE))); }
  }

  lemma OneBits(n: nat)
    ensures ToBits(1, n + 1) == Zeros(n) + [true]
    ensures 1 < Pow2(n + 1)
  {
    ZeroBits(n);
  }

  lemma {:induction false} ZeroBits(n: nat)
    ensures ToBits(0, n) == Zeros(n)
  {
    if n > 0 {
      ZeroBits(n - 1);
      assert Zeros(n - 1) + [false] == Zeros(n);
    }
  }

  function Literals(src: seq<byte>): (toks: seq<Token>)
    ensures |toks| == |src|
  {
    seq(|src|, i requires 0 <= i < |src| => Literal(src[i]))
  }

  /** The bytes hold the bits, and less than a byte of zeros after them. */
  ghost predicate Padded(bytes: seq<byte>, bits: seq<bool>) {
    && |bits| <= 8 * |bytes| < |bits| + 8
    && Unpack(bytes) == bits + Zeros(8 * |bytes| - |bits|)
  }

  /** Putting the tokens has led from start to e and made these bits. */
  ghost predicate Prints(start: Enc, toks: seq<Token>, e: Enc, bits: seq<bool>) {
    && Sized(start) && ValidTokens(toks) && Sized(e) && Bounded(e) && FitTable(e.table)
    && e == TokensState(start, toks) && bits == TokensBits(start, toks)
  }

  lemma PrintsCounting(start: Enc, toks: seq<Token>, e: Enc, bits: seq<bool>)
    requires Prints(start, toks, e, bits)
    ensures Counting(e)
  {
  }

  lemma PrintsOneMore(start: Enc, toks: seq<Token>, e: Enc, bits: seq<bool>, t: Token)
    requires Prints(start, toks, e, bits) && ValidToken(t)
    ensures Sized(e)
    ensures Prints(start, toks + [t], Put(e, TokenSymbol(t)), bits + PutBits(e, TokenSymbol(t)) + TokenTail(t))
  {
    hide Bounded, FitTable, ReadyBits, Ready, Counting, Put, PutBits, TokenTail, TokenSymbol;
    PrintsCounting(start, toks, e, bits);
    PutBounded(e, TokenSymbol(t));
    PutFits(e, TokenSymbol(t));
    assert (toks + [t])[..|toks|] == toks;
    Assoc(bits, PutBits(e, TokenSymbol(t)), TokenTail(t));
  }

  /** The register's two upper bytes are the next 16 bits. */
  lemma TopBytes(register: nat, s: seq<bool>)
    requires Holds(register, s) && 16 <= |s|
    ensures ToBits(Shr(register, 24) % 256, 8) == s[..8]
    ensures ToBits(Shr(register, 16) % 256, 8) == s[8..16]
  {
    TopByte(register, s);
    HoldsTop(register, s, 16);
    LowByte(s[..8], s[8..16]);
    assert s[..16] == s[..8] + s[8..16];
    BitsOf(Shr(register, 16) % 256, s[8..16]);
  }

  lemma TopByte(register: nat, s: seq<bool>)
    requires Holds(register, s) && 8 <= |s|
    ensures ToBits(Shr(register, 24) % 256, 8) == s[..8]
  {
    HoldsTop(register, s, 8);
    LowByte([], s[..8]);
    assert [] + s[..8] == s[..8];
    BitsOf(Shr(register, 24) % 256, s[..8]);
  }

  lemma LowByte(a: seq<bool>, b: seq<bool>)
    requires |b| == 8
    ensures Value(a + b) % 256 == Value(b)
  {
    ValueConcat(a, b);
    ValueBound(b);
    assert Pow2(8) == 256;
    assert Scaled(Value(a), 8) == 256 * Value(a);
  }

  lemma EmitTwo(dst: seq<byte>, pending: seq<bool>, a: byte, b: byte)
    requires 16 <= |pending| && ToBits(a, 8) == pending[..8] && ToBits(b, 8) == pending[8..16]
    ensures Unpack(dst + [a] + [b]) + pending[16..] == Unpack(dst) + pending
  {
    hide Unpack, ToBits;
    UnpackSnoc(dst, a);
    UnpackSnoc(dst + [a], b);
    CutBytes(Unpack(dst), pending);
  }

  lemma CutBytes(u: seq<bool>, pending: seq<bool>)
    requires 16 <= |pending|
    ensures (u + pending[..8]) + pending[8..16] + pending[16..] == u + pending
  {
  }

  class Encoder {
    const stat: EncoderStat
    var dst: seq<byte>
    var bits: uint32
    var nBits: int
    /** All bits put so far: those in dst, then those in the register. */
    ghost var emitted: seq<bool>
    /** The statistics the block began with and the tokens put since. */
    ghost const start: Enc
    ghost var toks: seq<Token>

    /** nBits of the bits put are still in the register. */
    ghost predicate ValidBits()
      reads this
    {
      && 0 <= nBits < 16
      && |emitted| == 8 * |dst| + nBits
      && emitted[..8 * |dst|] == Unpack(dst)
      && Holds(bits, emitted[8 * |dst|..])
    }

    ghost function Model(): Enc
      reads stat, stat.stat, stat.symbolTable
    {
      Enc(stat.stat[..], stat.nextStat, stat.symbolTable[..])
    }

    ghost predicate Valid()
      reads this, stat, stat.stat, stat.symbolTable
    {
      ValidBits() && stat.Valid() && Counting(Model())
    }

    /** What has been put is the block so far. */
    ghost predicate Written()
      reads this, stat, stat.stat, stat.symbolTable
    {
      ValidBits() && stat.Valid() && Prints(start, toks, Model(), emitted)
    }

    constructor (stat_: EncoderStat)
      requires stat_.Valid()
      requires var e := Enc(stat_.stat[..], stat_.nextStat, stat_.symbolTable[..]); Bounded(e) && FitTable(e.table)
      ensures stat == stat_ && Written() && toks == []
      ensures start == Enc(stat.stat[..], stat.nextStat, stat.symbolTable[..]) && emitted == []
    {
      start := Enc(stat_.stat[..], stat_.nextStat, stat_.symbolTable[..]);
      toks := [];
      stat := stat_;
      dst := [];
      bits := 0;
      nBits := 0;
      emitted := [];
      new;
      HoldsNothing();
    }

    method PutBits(codeBits: nat, code: nat)
      requires ValidBits() && codeBits <= 16 && code < Pow2(codeBits)
      modifies `dst, `bits, `nBits, `emitted
      ensures ValidBits() && emitted == old(emitted) + ToBits(code, codeBits)
    {
      hide Or, Shl, Shr, ToBits, Value, Unpack, Holds;
      ghost var pending := emitted[8 * |dst|..] + ToBits(code, codeBits);
      HoldsAppend(bits, emitted[8 * |dst|..], code, codeBits);
      HoldsBound(Or(bits, Shl(code, 32 - nBits - codeBits)), pending);
      emitted := emitted + ToBits(code, codeBits);
      assert emitted == Unpack(dst) + pending;
      bits := Or(bits, Shl(code, 32 - nBits - codeBits));
      nBits := nBits + codeBits;
      if nBits >= 16 {
        TopBytes(bits, pending);
        ghost var dst0 := dst;
        dst := dst + [Shr(bits, 24) % 256];
        dst := dst + [Shr(bits, 16) % 256];
        EmitTwo(dst0, pending, Shr(bits, 24) % 256, Shr(bits, 16) % 256);
        HoldsDrop(bits, pending, 16);
        nBits := nBits - 16;
        bits := Shl(bits, 16);
        assert emitted == Unpack(dst) + pending[16..];
      }
    }

    /** Sends the recalculation symbol in the old code, recalculates, and sends the new widths. It
        is entered once the countdown has run out, and cannot be entered again from within. */
    method CallStat()
      requires Valid() && stat.nextStat <= 0
      modifies `dst, `bits, `nBits, `emitted, stat, stat.stat, stat.symbolTable
      decreases 2
      ensures ValidBits() && stat.Valid() && FitTable(Model().table)
      ensures Model() == Recalculate(old(Model()).(stat := Counted(old(Model()).stat, RECALCULATE)))
      ensures emitted == old(emitted) + ReadyBits(old(Model()))
    {
      hide Sorted, Widths, Recoded, DeltaBits, FitTable, Sum, Unpack, Holds, CodeBits;
      ghost var e := Model();
      stat.nextStat := 2;
      assert Counting(Model());
      PutSymbol(RECALCULATE);
      ghost var counts := Counted(e.stat, RECALCULATE);
      CountedSum(e.stat, RECALCULATE);
      var groups := stat.CalcStat();
      RecalculateFits(e.(stat := counts));
      WidthsComplete(counts);
      PutWidths(groups);
    }

    /** The widths as unary differences. */
    method PutWidths(groups: array<nat>)
      requires ValidBits() && groups.Length == GROUPS && SortedWidths(groups[..])
      modifies `dst, `bits, `nBits, `emitted
      ensures ValidBits() && emitted == old(emitted) + DeltaBits(groups[..], 0)
    {
      hide Unpack, Holds, Value, ToBits, Pow2;
      ghost var ws, sent := groups[..], emitted;
      var lastNBits := 0;
      var i := 0;
      while i < GROUPS
        invariant i <= GROUPS && ValidBits() && groups[..] == ws
        invariant lastNBits == if i == 0 then 0 else ws[i - 1]
        invariant emitted + DeltaBits(ws, i) == sent + DeltaBits(ws, 0)
      {
        var nBits := groups[i];
        assert nBits == ws[i] && nBits >= lastNBits && nBits <= MAX_WIDTH;
        var delta := nBits - lastNBits;
        lastNBits := nBits;
        OneBits(delta);
        Assoc(emitted, Zeros(delta) + [true], DeltaBits(ws, i + 1));
        PutBits(delta + 1, 1);
        i := i + 1;
      }
    }

    /** Counts a symbol, after a recalculation if one is due. */
    method Count(symbol: int)
      requires Valid() && 0 <= symbol < SYMBOLS
      modifies `dst, `bits, `nBits, `emitted, stat, stat.stat, stat.symbolTable
      decreases if stat.nextStat <= 1 then 3 else 0
      ensures ValidBits() && stat.Valid() && FitTable(Model().table)
      ensures Model() == Adaptive.Put(old(Model()), symbol)
      ensures emitted == old(emitted) + ReadyBits(old(Model()))
    {
      ghost var e := Model();
      PutFits(e, symbol);
      stat.nextStat := stat.nextStat - 1;
      if stat.nextStat <= 0 {
        CallStat();
      }
      assert Model() == Ready(e);
      ghost var counts := Counted(stat.stat[..], symbol);
      stat.stat[symbol] := Increment(stat.stat[symbol]);
      assert stat.stat[..] == counts;
    }

    method PutSymbol(symbol: int)
      requires Valid() && 0 <= symbol < SYMBOLS
      modifies `dst, `bits, `nBits, `emitted, stat, stat.stat, stat.symbolTable
      decreases if stat.nextStat <= 1 then 4 else 1
      ensures ValidBits() && stat.Valid() && FitTable(Model().table)
      ensures Model() == Adaptive.Put(old(Model()), symbol)
      ensures emitted == old(emitted) + Adaptive.PutBits(old(Model()), symbol)
    {
      hide Sorted, Widths, Recoded, DeltaBits, Sum, Unpack, Holds, ToBits, Value, Pow2, ReadyBits;
      ghost var e := Model();
      Count(symbol);
      var item := stat.symbolTable[symbol];
      assert item == Ready(e).table[symbol];
      PutBits(item.nBits, item.code);
    }

    /** A symbol with extra bits, as one code. */
    method PutSymbolWith(symbol: int, codeBits: nat, code: nat)
      requires Valid() && 0 <= symbol < SYMBOLS && codeBits <= 4 && code < Pow2(codeBits)
      modifies `dst, `bits, `nBits, `emitted, stat, stat.stat, stat.symbolTable
      ensures ValidBits() && stat.Valid() && FitTable(Model().table)
      ensures Model() == Adaptive.Put(old(Model()), symbol)
      ensures emitted == old(emitted) + Adaptive.PutBits(old(Model()), symbol) + ToBits(code, codeBits)
    {
      hide Sorted, Widths, Recoded, DeltaBits, Sum, Unpack, Holds, Or, Shl, ToBits, Value, Pow2, ReadyBits;
      ghost var e := Model();
      Count(symbol);
      var item := stat.symbolTable[symbol];
      assert item == Ready(e).table[symbol];
      Fields(item.code, item.nBits, code, codeBits);
      PutBits(item.nBits + codeBits, Or(Shl(item.code, codeBits), code));
    }

    method PutRaw(src: seq<byte>)
      requires Written()
      modifies this, stat, stat.stat, stat.symbolTable
      ensures Written() && toks == old(toks) + Literals(src)
    {
      hide Prints, Counting, FitTable, Adaptive.Put, Adaptive.PutBits, Holds, Unpack;
      var i := 0;
      while i < |src|
        invariant i <= |src| && Written() && toks == old(toks) + Literals(src[..i])
      {
        var t := Literal(src[i]);
        PrintsCounting(start, toks, Model(), emitted);
        PrintsOneMore(start, toks, Model(), emitted, t);
        PutSymbol(src[i]);
        assert emitted + TokenTail(t) == emitted;
        toks := toks + [t];
        assert Literals(src[..i + 1]) == Literals(src[..i]) + [t];
        i := i + 1;
      }
      assert src[..|src|] == src;
    }

    /** The length of a match. */
    method PutLength(matchOver: nat)
      requires Valid() && matchOver <= MAX_OVER
      modifies `dst, `bits, `nBits, `emitted, stat, stat.stat, stat.symbolTable
      ensures ValidBits() && stat.Valid() && FitTable(Model().table)
      ensures Model() == Adaptive.Put(old(Model()), LenSymbol(matchOver))
      ensures emitted == old(emitted) + Adaptive.PutBits(old(Model()), LenSymbol(matchOver)) + LenBits(matchOver)
    {
      hide FitTable, Counting, Adaptive.Put, Adaptive.PutBits, Holds, Unpack, MatchOverItem, Or, Shl, ToBits, Pow2, Sum;
      if matchOver < 8 {
        PutSymbol(256 + matchOver);
      } else if matchOver < 38 {
        ShortOver(matchOver);
        var m := matchOver - 8;
        var item := MatchOverItem(m / 2);
        PutSymbolWith(item.symbol, item.nBits, Or(item.bits, m % 2));
      } else {
        LongOver(matchOver);
        var m := matchOver - 38;
        var item := MatchOverItem(m / 32);
        PutSymbol(item.symbol + 4);
        PutBits(item.nBits + 4, Or(Shl(item.bits, 4), m % 32));
      }
    }

    /** Literals, then a match. */
    method PutMatch(src: seq<byte>, matchOver: nat, disp: nat)
      requires Written() && |src| <= MAX_RAW && matchOver <= MAX_OVER && 1 <= disp < WINDOW
      modifies this, stat, stat.stat, stat.symbolTable
      ensures Written() && toks == old(toks) + Literals(src) + [Match(matchOver + LZMIN, disp)]
    {
      hide Prints, Counting, FitTable, Adaptive.Put, Adaptive.PutBits, Holds, Unpack, LenBits, DispBits, DispTable,
        LenSymbol, Or, Shl;
      PutRaw(src);
      var t := Match(matchOver + LZMIN, disp);
      PrintsCounting(start, toks, Model(), emitted);
      PrintsOneMore(start, toks, Model(), emitted, t);
      ghost var sent := emitted + Adaptive.PutBits(Model(), TokenSymbol(t));
      PutLength(matchOver);
      var item := DispTable(disp / 128);
      DispCode(disp);
      PutBits(item.nBits + 7, Or(Shl(item.bits, 7), disp % 128));
      Assoc(sent, LenBits(matchOver), DispBits(disp));
      toks := toks + [t];
    }

    /** Writes out the register, its last byte padded with zeros. */
    method Drain()
      requires ValidBits()
      modifies `dst, `bits, `nBits, `emitted
      ensures Padded(dst, old(emitted))
    {
      hide Unpack, Holds, Value, ToBits, Shr, Shl;
      ghost var n := (|emitted| + 7) / 8;
      ghost var full := emitted + Zeros(8 * n - |emitted|);
      HoldsPadded(bits, emitted[8 * |dst|..], 8 * n - |emitted|);
      assert full[8 * |dst|..] == emitted[8 * |dst|..] + Zeros(8 * n - |emitted|);
      assert full[..8 * |dst|] == emitted[..8 * |dst|];
      while nBits > 0
        invariant |dst| <= n && nBits == |emitted| - 8 * |dst| && emitted == old(emitted)
        invariant Unpack(dst) == full[..8 * |dst|] && Holds(bits, full[8 * |dst|..])
      {
        ghost var rest := full[8 * |dst|..];
        TopByte(bits, rest);
        HoldsDrop(bits, rest, 8);
        UnpackSnoc(dst, Shr(bits, 24) % 256);
        assert full[..8 * |dst| + 8] == full[..8 * |dst|] + rest[..8];
        assert full[8 * |dst| + 8..] == rest[8..];
        dst := dst + [Shr(bits, 24) % 256];
        nBits := nBits - 8;
        bits := Shl(bits, 8);
      }
      assert full[..8 * n] == full;
    }

    /** Ends the block. */
    method Flush() returns (size: nat)
      requires Written()
      modifies `dst, `bits, `nBits, `emitted, stat, stat.stat, stat.symbolTable
      ensures stat.Valid() && Sized(start) && ValidTokens(toks)
      ensures Model() == BlockState(start, toks)
      ensures Bounded(Model()) && FitTable(Model().table)
      ensures size == |dst| && Padded(dst, BlockBits(start, toks))
    {
      hide Counting, FitTable, Adaptive.PutBits, Holds, Unpack, Ready, Padded;
      PrintsCounting(start, toks, Model(), emitted);
      PutBounded(Model(), END);
      PutSymbol(END);
      Drain();
      size := |dst|;
    }
  }
}
