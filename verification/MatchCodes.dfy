/** The encoder's tables for match lengths and displacements print what the decoder's tables read. */
module MatchCodes {
  import opened Bits
  import opened Decoding
  import opened Tokens

  datatype OverItem = OverItem(symbol: int, nBits: nat, bits: nat)
  datatype DispItem = DispItem(nBits: nat, bits: nat)

  /** _matchOverTable of the encoder */
  function MatchOverItem(i: nat): OverItem
    requires i < 15
  {
    match i
    case 0 => OverItem(264, 1, 0x00)
    case 1 => OverItem(265, 2, 0x00)
    case 2 => OverItem(265, 2, 0x02)
    case 3 => OverItem(266, 3, 0x00)
    case 4 => OverItem(266, 3, 0x02)
    case 5 => OverItem(266, 3, 0x04)
    case 6 => OverItem(266, 3, 0x06)
    case 7 => OverItem(267, 4, 0x00)
    case 8 => OverItem(267, 4, 0x02)
    case 9 => OverItem(267, 4, 0x04)
    case 10 => OverItem(267, 4, 0x06)
    case 11 => OverItem(267, 4, 0x08)
    case 12 => OverItem(267, 4, 0x0A)
    case 13 => OverItem(267, 4, 0x0C)
    case _ => OverItem(267, 4, 0x0E)
  }

  /** Table/Hdisp.tbl, by runs of consecutive codes. */
  function DispTable(h: nat): DispItem
    requires h < 128
  {
    if h < 2 then DispItem(3, h)
    else if h < 4 then DispItem(4, 0x04 + (h - 2))
    else if h < 8 then DispItem(5, 0x0C + (h - 4))
    else if h < 16 then DispItem(6, 0x20 + (h - 8))
    else if h < 32 then DispItem(7, 0x50 + (h - 16))
    else if h < 64 then DispItem(8, 0xC0 + (h - 32))
    else DispItem(9, 0x1C0 + (h - 64))
  }

  lemma OrEven(a: nat, b: nat)
    requires b < 2
    ensures Or(2 * a, b) == 2 * a + b
  {
    OrZero(a);
    assert (2 * a) / 2 == a && (2 * a) % 2 == 0 && b / 2 == 0;
  }

  lemma {:induction false} OrZero(a: nat)
    ensures Or(a, 0) == a
  {
    if a != 0 { OrZero(a / 2); }
  }

  /** The encoder's item is the decoder's base and extra bits. */
  lemma ShortOverItem(over: nat)
    requires 8 <= over < 38
    ensures var m := over - 8; var item := MatchOverItem(m / 2); var sym := LenSymbol(over);
      && item.symbol == sym && 264 <= sym <= 267 && item.nBits == LenExtra(sym) <= 4
      && item.bits == 2 * (item.bits / 2) && item.bits + m % 2 == over - LenBase(sym) < Pow2(item.nBits)
  {
    assert Pow2(1) == 2 && Pow2(2) == 4 && Pow2(3) == 8 && Pow2(4) == 16;
  }

  /** Lengths 8 to 37 over the minimum: one symbol with its extra bits. */
  lemma ShortOver(over: nat)
    requires 8 <= over < 38
    ensures var m := over - 8; var item := MatchOverItem(m / 2); var bits := Or(item.bits, m % 2);
      && item.symbol == LenSymbol(over) && 1 <= item.nBits <= 4 && bits < Pow2(item.nBits)
      && ToBits(bits, item.nBits) == LenBits(over)
  {
    hide Or, MatchOverItem, LenSymbol, ToBits, LenBase, Pow2;
    var m := over - 8;
    ShortOverItem(over);
    OrEven(MatchOverItem(m / 2).bits / 2, m % 2);
  }

  lemma ShlDouble(c: nat, k: nat)
    requires c < 256
    ensures Shl(2 * c, k) == Shl(c, k + 1)
  {
  }

  lemma LongOverItem(over: nat)
    requires 38 <= over <= MAX_OVER
    ensures var m := over - 38; var item := MatchOverItem(m / 32); var c := item.bits / 2; var sym := LenSymbol(over);
      && item.symbol + 4 == sym && 268 <= sym <= 271 && LenExtra(sym) == item.nBits + 4
      && 1 <= item.nBits <= 4 && item.bits == 2 * c <= 16 && over - LenBase(sym) == 32 * c + m % 32
      && (item.nBits == 1 ==> c < 1) && (item.nBits == 2 ==> c < 2)
      && (item.nBits == 3 ==> c < 4) && (item.nBits == 4 ==> c < 8)
  {
  }

  lemma LongOverFits(over: nat)
    requires 38 <= over <= MAX_OVER
    ensures var item := MatchOverItem((over - 38) / 32); 1 <= item.nBits && item.bits / 2 < Pow2(item.nBits - 1) <= 8
  {
    hide MatchOverItem;
    LongOverItem(over);
    assert Pow2(0) == 1 && Pow2(1) == 2 && Pow2(2) == 4 && Pow2(3) == 8;
  }

  lemma ScaledSmall(c: nat)
    ensures Scaled(c, 5) == 32 * c && Pow2(5) == 32
  {
  }

  /** Longer ones: the symbol of a second, wider table, then the extra bits. */
  lemma LongOver(over: nat)
    requires 38 <= over <= MAX_OVER
    ensures var m := over - 38; var item := MatchOverItem(m / 32); var bits := Or(Shl(item.bits, 4), m % 32);
      && item.symbol + 4 == LenSymbol(over) && 1 <= item.nBits <= 4 && item.bits <= 16 && bits < Pow2(item.nBits + 4)
      && ToBits(bits, item.nBits + 4) == LenBits(over)
  {
    hide MatchOverItem, LenSymbol, Or, Shl, Scaled, LenBase, ToBits, Pow2;
    var r := (over - 38) % 32;
    var item := MatchOverItem((over - 38) / 32);
    var c, n := item.bits / 2, item.nBits - 1;
    LongOverItem(over);
    LongOverFits(over);
    ScaledSmall(c);
    ShlDouble(c, 4);
    Fields(c, n, r, 5);
    ScaledBits(c, n, r, 5);
  }

  /** The encoder's item is the decoder's prefix and the bits above its base. */
  lemma DispItemIs(h: nat)
    requires h < 128
    ensures var prefix := DispPrefix(128 * h); var item := DispTable(h); var n := DispExtra(prefix);
      && n <= 6 && item.bits < 512 && item.nBits == 3 + n && DispBase(prefix) <= h
      && item.bits == Shifted(prefix, n) + (h - DispBase(prefix)) && h - DispBase(prefix) < Shifted(1, n)
  {
  }

  /** a * 2^n */
  function Shifted(a: nat, n: nat): nat
    requires n <= 6
  {
    if n == 0 then a else if n == 1 then 2 * a else if n == 2 then 4 * a else if n == 3 then 8 * a
    else if n == 4 then 16 * a else if n == 5 then 32 * a else 64 * a
  }

  lemma ShiftedIsScaled(a: nat, n: nat)
    requires n <= 6
    ensures Shifted(a, n) == Scaled(a, n)
  {
    assert Scaled(a, 0) == a && Scaled(a, 1) == 2 * a && Scaled(a, 2) == 4 * a && Scaled(a, 3) == 8 * a;
    assert Scaled(a, 4) == 2 * Scaled(a, 3) && Scaled(a, 5) == 2 * Scaled(a, 4) && Scaled(a, 6) == 2 * Scaled(a, 5);
  }

  lemma DispPrefixCode(h: nat)
    requires h < 128
    ensures var prefix := DispPrefix(128 * h); var item := DispTable(h); var n := DispExtra(prefix);
      && item.bits < 512 && item.nBits == 3 + n && DispBase(prefix) <= h && h - DispBase(prefix) < Pow2(n)
      && ToBits(item.bits, item.nBits) == ToBits(prefix, 3) + ToBits(h - DispBase(prefix), n)
      && item.bits < Pow2(item.nBits)
  {
    hide DispTable, DispPrefix, DispBase, DispExtra, ToBits, Pow2, Scaled, Shifted;
    var prefix := DispPrefix(128 * h);
    var n := DispExtra(prefix);
    DispItemIs(h);
    ShiftedIsScaled(prefix, n);
    ShiftedIsScaled(1, n);
    ScaledOne(n);
    ExtraPowers();
    ScaledBits(prefix, 3, h - DispBase(prefix), n);
  }

  lemma JoinLow(bits: nat, prefix: nat, x: nat, n: nat, low: nat)
    requires n <= 6 && low < 128 && bits < Pow2(3 + n) && x < Pow2(n)
    requires ToBits(bits, 3 + n) == ToBits(prefix, 3) + ToBits(x, n)
    ensures bits < 0x1_0000_0000 && Or(Shl(bits, 7), low) < Pow2(n + 10)
    ensures ToBits(Or(Shl(bits, 7), low), n + 10) == ToBits(prefix, 3) + ToBits(128 * x + low, n + 7)
  {
    hide ToBits, Or, Shl;
    assert Pow2(7) == 128;
    Fields(bits, 3 + n, low, 7);
    ScaledBits(x, n, low, 7);
    assert Scaled(x, 7) == 128 * x;
    Assoc(ToBits(prefix, 3), ToBits(x, n), ToBits(low, 7));
    assert 3 + n + 7 == n + 10;
  }

  /** The prefix depends on the upper 7 bits alone. */
  lemma PrefixOfHigh(disp: nat)
    requires disp < WINDOW
    ensures DispPrefix(disp) == DispPrefix(128 * (disp / 128))
  {
  }

  lemma PrefixExtra(prefix: nat)
    requires prefix < 8
    ensures DispExtra(prefix) <= 6
  {
  }

  /** A displacement: the code of its upper 7 bits, then the lower 7. */
  lemma DispCode(disp: nat)
    requires disp < WINDOW
    ensures var item := DispTable(disp / 128); var bits := Or(Shl(item.bits, 7), disp % 128);
      && item.bits < 512 && item.nBits + 7 <= 16 && bits < Pow2(item.nBits + 7)
      && ToBits(bits, item.nBits + 7) == DispBits(disp)
  {
    hide DispTable, DispPrefix, DispBase, DispExtra, Or, Shl, ToBits, Pow2;
    var h, low := disp / 128, disp % 128;
    var prefix := DispPrefix(disp);
    PrefixOfHigh(disp);
    DispPrefixCode(h);
    PrefixExtra(prefix);
    JoinLow(DispTable(h).bits, prefix, h - DispBase(prefix), DispExtra(prefix), low);
  }
}
