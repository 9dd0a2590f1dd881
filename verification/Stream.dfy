/** Whole runs: blocks through one compressor and one decompressor. */
module Streams {
  import opened Bits
  import opened EncoderStats
  import opened Adaptive
  import opened Decoding
  import opened Tokens
  import opened Encoders
  import opened Windows
  import opened Lz
  import opened Compressors
  import opened Decompressors
  import opened Size

  /** The bits the decoder sees are those of the block, the padding, and what follows. */
  lemma PaddedInput(packed: seq<byte>, bits: seq<bool>, tail: seq<byte>)
    requires Padded(packed, bits)
    ensures At(Input(0, packed + tail), 0, bits) && (|bits| + 7) / 8 == |packed|
    ensures Value(Leftover(0, packed + tail, |bits|)) == 0
  {
    hide Unpack, Value, Input;
    var pad := 8 * |packed| - |bits|;
    var input := Input(0, packed + tail);
    assert input == Unpack(packed) + Unpack(tail) by { InputOf(packed, tail); }
    assert input[..|bits|] == bits && input[|bits|..8 * |packed|] == Zeros(pad);
    assert Zeros(pad) + Zeros(8 - pad) == Zeros(8);
    ZerosValue(8);
  }

  lemma InputOf(packed: seq<byte>, tail: seq<byte>)
    ensures Input(0, packed + tail) == Unpack(packed) + Unpack(tail)
  {
    UnpackConcat(packed, tail);
  }

  /** The bytes of a block, whatever bytes follow them, are read back: the decoder accepts, writes
      exactly what the tokens mean, consumes exactly those bytes, leaves nothing in its register, and
      is in step with the encoder again. */
  lemma BytesArrive(d: Dec, win: seq<byte>, buf: seq<byte>, e: Enc, toks: seq<Token>, packed: seq<byte>,
                    tail: seq<byte>)
    requires InStep(e, d) && |win| == WINDOW && ValidTokens(toks) && Padded(packed, BlockBits(e, toks))
    requires |Expand(win, toks)| - WINDOW <= |buf|
    ensures var out := Expand(win, toks)[WINDOW..];
      var r := Run(Input(0, packed + tail), State(d, win, buf, 0, 0, Running));
      && InStep(BlockState(e, toks), r.dec) && (r.p + 7) / 8 == |packed|
      && r == State(r.dec, Last(Expand(win, toks)), out + buf[|out|..], |out|, r.p, Done)
      && Value(Leftover(0, packed + tail, r.p)) == 0
  {
    assert Sized(e);
    hide Run, InStep, BlockBits, BlockState, Expand, Unpack, Last, Value, Padded, Input, Leftover, Wf;
    PaddedInput(packed, BlockBits(e, toks), tail);
    BlockArrives(Input(0, packed + tail), d, win, buf, e, toks);
  }

  /** Fewer bytes than were packed are fewer bits than were put. */
  lemma CutInput(packed: seq<byte>, bits: seq<bool>, n: nat)
    requires Padded(packed, bits) && n < |packed|
    ensures Input(0, packed[..n]) < bits
  {
    hide Unpack;
    var cut, rest := packed[..n], packed[n..];
    assert cut + rest == packed;
    UnpackConcat(cut, rest);
    assert Seen(0, cut) == cut;
    assert Unpack(cut) == Unpack(packed)[..8 * n] == bits[..8 * n];
  }

  /** A block that lacks bytes at its end is not accepted, whatever the room in the buffer. */
  lemma BytesTruncated(d: Dec, win: seq<byte>, buf: seq<byte>, e: Enc, toks: seq<Token>, packed: seq<byte>, n: nat)
    requires InStep(e, d) && |win| == WINDOW && ValidTokens(toks) && Padded(packed, BlockBits(e, toks))
    requires n < |packed|
    ensures Run(Input(0, packed[..n]), State(d, win, buf, 0, 0, Running)).status != Done
  {
    assert Sized(e);
    hide Run, InStep, BlockBits, Unpack, Input, Wf, Padded;
    CutInput(packed, BlockBits(e, toks), n);
    BlockTruncated(Input(0, packed[..n]), d, win, buf, e, toks);
  }

  // ----- bit input and output by themselves

  datatype Code = Code(nBits: nat, code: nat)

  predicate ValidCode(c: Code) { 1 <= c.nBits <= 16 && c.code < Pow2(c.nBits) }

  function CodesBits(codes: seq<Code>): seq<bool> {
    if codes == [] then []
    else CodesBits(codes[..|codes| - 1]) + ToBits(codes[|codes| - 1].code, codes[|codes| - 1].nBits)
  }

  function Total(widths: seq<nat>): nat {
    if widths == [] then 0 else Total(widths[..|widths| - 1]) + widths[|widths| - 1]
  }

  lemma {:induction false} TotalGrows(widths: seq<nat>, n: nat)
    requires n <= |widths|
    ensures Total(widths[..n]) <= Total(widths)
  {
    if n == |widths| {
      assert widths[..n] == widths;
    } else {
      assert widths[..|widths| - 1][..n] == widths[..n];
      TotalGrows(widths[..|widths| - 1], n);
    }
  }

  /** Fields of the given widths with the given values. */
  function FieldsBits(values: seq<int>, widths: seq<nat>): seq<bool>
    requires |values| == |widths| && forall i :: 0 <= i < |values| ==> 0 <= values[i]
  {
    if widths == [] then []
    else
      var n := |widths| - 1;
      FieldsBits(values[..n], widths[..n]) + ToBits(values[n], widths[n])
  }

  lemma FieldsSnoc(values: seq<int>, widths: seq<nat>, v: nat, w: nat)
    requires |values| == |widths| && forall i :: 0 <= i < |values| ==> 0 <= values[i]
    ensures FieldsBits(values + [v], widths + [w]) == FieldsBits(values, widths) + ToBits(v, w)
    ensures Total(widths + [w]) == Total(widths) + w
  {
    assert (values + [v])[..|values|] == values && (widths + [w])[..|widths|] == widths;
  }

  lemma NextField(input: seq<bool>, p: nat, w: nat)
    requires p + w <= |input|
    ensures input[..p] + ToBits(Peek(input, p, w), w) == input[..p + w]
  {
    ToBitsValue(input[p..p + w]);
  }

  /** Codes put one after the other and flushed are read back by any split into widths of 1 to 8 bits;
      if all of them are read, as many bytes are consumed as the codes fill, and no set bit is left. */
  method PutAndGet(stat: EncoderStat, codes: seq<Code>, d: Decompressor, widths: seq<nat>)
    returns (values: seq<int>, used: nat)
    requires stat.Valid() && d.Valid() && d.Left() == 0
    requires Bounded(Enc(stat.stat[..], stat.nextStat, stat.symbolTable[..])) && FitTable(stat.symbolTable[..])
    requires forall i :: 0 <= i < |codes| ==> ValidCode(codes[i])
    requires (forall i :: 0 <= i < |widths| ==> 1 <= widths[i] <= 8) && Total(widths) <= |CodesBits(codes)|
    modifies d
    ensures |values| == |widths| && forall i :: 0 <= i < |values| ==> 0 <= values[i]
    ensures FieldsBits(values, widths) == CodesBits(codes)[..Total(widths)]
    ensures used == (Total(widths) + 7) / 8
    ensures Total(widths) == |CodesBits(codes)| ==> d.bits == 0
  {
    hide Padded, CodesBits, FieldsBits, Value, Leftover, Total, Wf, Bounded, FitTable, Holds, Input;
    var packed := PutCodes(stat, codes);
    ghost var bits := CodesBits(codes);
    PaddedInput(packed, bits, []);
    assert packed + [] == packed;
    values, used := GetFields(d, packed, widths);
    assert Input(0, packed)[..|bits|] == bits;
    AllRead(d.bits, packed, used, Total(widths), |bits|);
  }

  /** Reads a block as fields of the given widths. */
  method GetFields(d: Decompressor, packed: seq<byte>, widths: seq<nat>) returns (values: seq<int>, used: nat)
    requires Holds(d.bits, ToBits(0, 8))
    requires (forall i :: 0 <= i < |widths| ==> 1 <= widths[i] <= 8) && Total(widths) <= 8 * |packed|
    modifies d
    ensures |values| == |widths| && forall i :: 0 <= i < |values| ==> 0 <= values[i]
    ensures FieldsBits(values, widths) == Input(0, packed)[..Total(widths)]
    ensures d.Feeds(0, packed, used, Total(widths))
  {
    hide Input, Loaded, ToBits, Value, Holds, FieldsBits, Total, Peek;
    ghost var input := Input(0, packed);
    d.nBits := 0;
    values, used := [], 0;
    StartLoaded(d.bits, 0, packed);
    ghost var p: nat := 0;
    NoFields();
    var i := 0;
    while i < |widths|
      invariant i <= |widths| && |values| == i && forall j :: 0 <= j < i ==> 0 <= values[j]
      invariant p == Total(widths[..i]) && p <= |input| && d.Feeds(0, packed, used, p)
      invariant FieldsBits(values, widths[..i]) == input[..p]
    {
      assert widths[..i + 1] == widths[..i] + [widths[i]];
      TotalGrows(widths, i + 1);
      FieldsSnoc(values, widths[..i], 0, widths[i]);
      NextField(input, p, widths[i]);
      FieldsSnoc(values, widths[..i], Peek(input, p, widths[i]), widths[i]);
      var ret;
      ret, used := d.Get(packed, used, widths[i], 0, p);
      p := p + widths[i];
      values := values + [ret];
      i := i + 1;
    }
    assert widths[..|widths|] == widths;
  }

  lemma NoFields()
    ensures FieldsBits([], []) == [] && Total([]) == 0
  {
  }

  lemma AllRead(register: uint32, packed: seq<byte>, k: nat, p: nat, n: nat)
    requires Loaded(register, 0, packed, k, p) && n <= 8 * |packed| && Value(Leftover(0, packed, n)) == 0
    ensures k == (p + 7) / 8 && (p == n ==> register == 0)
  {
    hide Input, ToBits;
    if 0 < k && p == n {
      LoadedLeft(register, 0, packed, k, p);
      var s := Leftover(0, packed, p);
      ValueConcat(s, Zeros(24));
      ZerosValue(24);
      ScaledZero(24);
    } else if k == 0 {
      ZeroRegister(register);
    }
  }

  lemma {:induction false} ScaledZero(m: nat)
    ensures Scaled(0, m) == 0
  {
    if m > 0 { ScaledZero(m - 1); }
  }

  lemma ZeroRegister(register: uint32)
    requires Holds(register, ToBits(0, 8))
    ensures register == 0
  {
    hide ToBits, Value;
    assert Pow2(8) == 256;
    ValueToBits(0, 8);
    ValueConcat(ToBits(0, 8), Zeros(24));
    ZerosValue(24);
    ScaledZero(24);
  }

  lemma CodesSnoc(codes: seq<Code>, c: Code)
    ensures CodesBits(codes + [c]) == CodesBits(codes) + ToBits(c.code, c.nBits)
    ensures CodesBits([]) == []
  {
    assert (codes + [c])[..|codes|] == codes;
  }

  method PutCodes(stat: EncoderStat, codes: seq<Code>) returns (packed: seq<byte>)
    requires stat.Valid() && forall i :: 0 <= i < |codes| ==> ValidCode(codes[i])
    requires Bounded(Enc(stat.stat[..], stat.nextStat, stat.symbolTable[..])) && FitTable(stat.symbolTable[..])
    ensures Padded(packed, CodesBits(codes)) && |packed| == (|CodesBits(codes)| + 7) / 8
  {
    hide Padded, ToBits, Holds, Unpack, CodesBits, Bounded, FitTable, Prints;
    assert CodesBits([]) == [] by { CodesSnoc([], Code(0, 0)); }
    var coder := new Encoder(stat);
    ghost var start := coder.emitted;
    var i := 0;
    while i < |codes|
      invariant i <= |codes| && coder.ValidBits() && coder.emitted == start + CodesBits(codes[..i])
      invariant fresh(coder)
    {
      assert codes[..i + 1] == codes[..i] + [codes[i]];
      CodesSnoc(codes[..i], codes[i]);
      assert ValidCode(codes[i]);
      Assoc(start, CodesBits(codes[..i]), ToBits(codes[i].code, codes[i].nBits));
      coder.PutBits(codes[i].nBits, codes[i].code);
      i := i + 1;
    }
    assert codes[..|codes|] == codes;
    assert coder.emitted == CodesBits(codes);
    coder.Drain();
    packed := coder.dst;
    PaddedInput(packed, CodesBits(codes), []);
  }

  // ----- windows that need not be equal

  /** Histories that agree from position low on. */
  ghost predicate Agree(h: seq<byte>, g: seq<byte>, low: int) {
    |h| == |g| && forall k :: 0 <= k < |h| && low <= k ==> h[k] == g[k]
  }

  lemma AgreeAppend(h: seq<byte>, g: seq<byte>, b: seq<byte>, low: int)
    requires Agree(h, g, low)
    ensures Agree(h + b, g + b, low)
  {
  }

  lemma {:induction false} CopyAgrees(h: seq<byte>, g: seq<byte>, disp: nat, len: nat, low: int)
    requires Agree(h, g, low) && 1 <= disp < WINDOW <= |h| && low <= |h| - disp
    ensures Agree(CopyFrom(h, disp, len), CopyFrom(g, disp, len), low)
    decreases len
  {
    hide Agree;
    if len > 0 {
      assert |h| == |g| && h[|h| - disp] == g[|g| - disp] by { AgreeAt(h, g, |h| - disp, low); }
      AgreeAppend(h, g, [h[|h| - disp]], low);
      CopyAgrees(h + [h[|h| - disp]], g + [g[|g| - disp]], disp, len - 1, low);
    }
  }

  lemma AgreeAt(h: seq<byte>, g: seq<byte>, k: nat, low: int)
    requires Agree(h, g, low) && low <= k < |h|
    ensures |h| == |g| && h[k] == g[k]
  {
  }

  /** Tokens that copy from no earlier mean the same to histories that agree from there on. */
  lemma {:induction false} ExpandAgrees(h: seq<byte>, g: seq<byte>, toks: seq<Token>, low: int)
    requires Agree(h, g, low) && WINDOW <= |h| && ValidTokens(toks) && Within(h, toks, low)
    ensures Agree(Expand(h, toks), Expand(g, toks), low)
  {
    assert |h| == |g|;
    hide Agree;
    if toks != [] {
      var rest, t := toks[..|toks| - 1], toks[|toks| - 1];
      assert ValidToken(t);
      ExpandAgrees(h, g, rest, low);
      match t
      case Literal(b) => AgreeAppend(Expand(h, rest), Expand(g, rest), [b], low);
      case Match(len, disp) => CopyAgrees(Expand(h, rest), Expand(g, rest), disp, len, low);
    }
  }

  /** Every block whose matches copy from no earlier than low means the same to both windows. */
  ghost predicate SameMeaning(win: seq<byte>, other: seq<byte>, low: int)
    requires |win| == |other| == WINDOW
  {
    forall toks :: ValidTokens(toks) && Within(win, toks, low) ==>
      Expand(win, toks)[WINDOW..] == Expand(other, toks)[WINDOW..]
  }

  /** What that takes of the windows. No match names their oldest byte. For all runs of tokens, low is 1; for
      those of a compressor it is WINDOW - base - MAX_RAW, see Compress. */
  lemma WindowsMustAgree(win: seq<byte>, other: seq<byte>, low: int)
    requires |win| == |other| == WINDOW && 1 <= low <= WINDOW
    ensures SameMeaning(win, other, low) <==> Agree(win, other, low)
  {
    if Agree(win, other, low) {
      forall toks | ValidTokens(toks) && Within(win, toks, low)
        ensures Expand(win, toks)[WINDOW..] == Expand(other, toks)[WINDOW..]
      {
        ExpandAgrees(win, other, toks, low);
        AgreedTail(Expand(win, toks), Expand(other, toks), low);
      }
    }
    if SameMeaning(win, other, low) {
      forall k | low <= k < WINDOW ensures win[k] == other[k] { FirstCopied(win, other, WINDOW - k, low); }
    }
  }

  /** All runs of tokens keep to low 1. */
  lemma AllWithin(win: seq<byte>, other: seq<byte>)
    requires |win| == |other| == WINDOW
    ensures Agree(win, other, 1) <==>
      forall toks :: ValidTokens(toks) ==> Expand(win, toks)[WINDOW..] == Expand(other, toks)[WINDOW..]
  {
    WindowsMustAgree(win, other, 1);
    forall toks | ValidTokens(toks) ensures Within(win, toks, 1) { WithinWindow(win, toks); }
  }

  lemma AgreedTail(h: seq<byte>, g: seq<byte>, low: int)
    requires Agree(h, g, low) && low <= WINDOW <= |h|
    ensures |h| == |g| && h[WINDOW..] == g[WINDOW..]
  {
  }

  lemma FirstCopied(win: seq<byte>, other: seq<byte>, disp: nat, low: int)
    requires |win| == |other| == WINDOW && 1 <= disp < WINDOW && low <= WINDOW - disp && SameMeaning(win, other, low)
    ensures win[WINDOW - disp] == other[WINDOW - disp]
  {
    var toks := [Match(LZMIN, disp)];
    assert ValidTokens(toks) && toks[..|toks| - 1] == [];
    assert Within(win, [], low) && Within(win, toks, low);
    CopyFirst(win, disp, LZMIN);
    CopyFirst(other, disp, LZMIN);
    assert Expand(win, toks)[WINDOW..][0] == Expand(other, toks)[WINDOW..][0];
  }

  lemma CopyFirst(h: seq<byte>, disp: nat, len: nat)
    requires 1 <= disp <= |h| && 0 < len
    ensures CopyFrom(h, disp, len)[|h|] == h[|h| - disp]
  {
    var g := h + [h[|h| - disp]];
    assert CopyFrom(g, disp, len - 1)[..|g|][|h|] == g[|h|];
  }

  /** What is sent moves the bytes on which two windows may differ further into the past, and out of the
      window in the end. */
  lemma WindowsMeet(win: seq<byte>, other: seq<byte>, sent: seq<byte>, low: int)
    requires |win| == |other| == WINDOW && Agree(win, other, low)
    ensures Agree(Last(win + sent), Last(other + sent), low - |sent|)
    ensures low <= |sent| ==> Last(win + sent) == Last(other + sent)
  {
    AgreeAppend(win, other, sent, low);
    var h, g, n := win + sent, other + sent, |sent|;
    forall k | 0 <= k < WINDOW && low - n <= k ensures Last(h)[k] == Last(g)[k] {
      AgreeAt(h, g, n + k, low);
    }
  }

  // ----- a compressor and a decompressor

  /** The two ends agree: statistics, tables, and windows as far back as the compressor can reach; and the
      decoder's register is empty. */
  ghost predicate Paired(c: Compressor, d: Decompressor)
    reads c, c.window, c.window.buf, c.table, c.stat, c.stat.stat, c.stat.symbolTable
    reads d, d.window, d.window.buf, d.stat, d.groupTable, d.symbolTable
  {
    && c.Valid() && d.Valid() && InStep(c.Stat(), d.Model())
    && Agree(c.window.Window(), d.window.Window(), WINDOW - c.base - MAX_RAW) && d.Left() == 0
  }

  /** The two ends share no memory. */
  ghost predicate Apart(c: Compressor, d: Decompressor, outbuf: array<byte>) {
    && c.window != d.window && c.window.buf != d.window.buf && c.stat.stat != d.stat
    && outbuf != c.window.buf && outbuf != d.window.buf
  }

  lemma StepParts(e: Enc, d: Dec)
    requires InStep(e, d)
    ensures Sized(e) && Bounded(e) && FitTable(e.table)
  {
  }

  /** A block that means its bytes to one window means them to the other. */
  lemma BlockMeans(win: seq<byte>, other: seq<byte>, toks: seq<Token>, block: seq<byte>, low: int)
    requires |win| == |other| == WINDOW && Agree(win, other, low) && low <= WINDOW
    requires ValidTokens(toks) && Within(win, toks, low) && Expand(win, toks) == win + block
    ensures Expand(other, toks) == other + block
  {
    hide Expand, Agree, Within;
    ExpandAgrees(win, other, toks, low);
    AgreedTail(Expand(win, toks), Expand(other, toks), low);
    assert Expand(other, toks) == Expand(other, toks)[..WINDOW] + Expand(other, toks)[WINDOW..];
  }

  /** The bytes of a block, read by the other end. */
  lemma PackedArrives(win: seq<byte>, other: seq<byte>, low: int, block: seq<byte>, e: Enc, d: Dec, room: seq<byte>,
                      toks: seq<Token>, packed: seq<byte>, tail: seq<byte>)
    requires |win| == |other| == WINDOW && Agree(win, other, low) && low <= WINDOW && InStep(e, d) && |block| <= |room|
    requires ValidTokens(toks) && Within(win, toks, low) && Expand(win, toks) == win + block
    requires Sized(e) && Padded(packed, BlockBits(e, toks))
    ensures Agree(Last(win + block), Last(other + block), low - |block|)
    ensures var r := Run(Input(0, packed + tail), State(d, other, room, 0, 0, Running));
      && InStep(BlockState(e, toks), r.dec) && (r.p + 7) / 8 == |packed|
      && r == State(r.dec, Last(other + block), block + room[|block|..], |block|, r.p, Done)
      && Value(Leftover(0, packed + tail, r.p)) == 0
    ensures |block| < 24576 ==> |packed| <= CalcMaxBuf(|block|)
  {
    hide Run, InStep, BlockBits, BlockState, Expand, Last, Wf, Bounded, FitTable, Input, Leftover, Padded,
      ValidTokens, Agree,
      Within, CalcMaxBuf, Value;
    StepParts(e, d);
    BlockMeans(win, other, toks, block, low);
    WindowsMeet(win, other, block, low);
    BytesArrive(d, other, room, e, toks, packed, tail);
    BlockFits(win, e, toks, packed);
    assert (other + block)[WINDOW..] == block;
  }

  /** One block through both. */
  method Exchange(c: Compressor, d: Decompressor, block: seq<byte>, tail: seq<byte>, outbuf: array<byte>)
    returns (packed: seq<byte>, ok: bool, outSz: nat, used: nat)
    requires Apart(c, d, outbuf) && Paired(c, d) && |block| <= outbuf.Length
    modifies c`base, c.table, c.stat, c.stat.stat, c.stat.symbolTable, c.window, c.window.buf
    modifies d, d.window, d.window.buf, d.stat, d.groupTable, d.symbolTable, outbuf
    ensures Paired(c, d) && ok && outSz == |block| && used == |packed|
    ensures outbuf[..] == block + old(outbuf[|block|..])
    ensures |block| < 24576 ==> |packed| <= CalcMaxBuf(|block|)
  {
    hide Run, InStep, BlockBits, BlockState, Expand, Last, Wf, Bounded, FitTable, Contents, Input, Leftover, Holds,
      Padded,
      ValidTokens, Agree, Within, Behind, CalcMaxBuf, Value, LeftBehind, Bucket;
    ghost var low := WINDOW - c.base - MAX_RAW;
    ghost var win, other, e, dec, room := c.window.Window(), d.window.Window(), c.Stat(), d.Model(), outbuf[..];
    StepParts(e, dec);
    ghost var toks;
    packed, toks := c.Compress(block);
    assert d.Valid() && d.Model() == dec && d.window.Window() == other && d.Left() == 0 && outbuf[..] == room;
    PackedArrives(win, other, low, block, e, dec, room, toks, packed, tail);
    var status;
    status, outSz, used := d.Decompress(outbuf, packed + tail);
    ok := status == Done;
  }

  lemma LastAgree(memory: seq<byte>, memory2: seq<byte>)
    requires |memory| == |memory2| == WINDOW && memory[WINDOW - MAX_RAW..] == memory2[WINDOW - MAX_RAW..]
    ensures Agree(memory, memory2, WINDOW - MAX_RAW)
  {
    forall k | WINDOW - MAX_RAW <= k < WINDOW ensures memory[k] == memory2[k] {
      assert memory[WINDOW - MAX_RAW..][k - (WINDOW - MAX_RAW)] == memory[k];
    }
  }

  /** compare */
  method Compare(inbuf: seq<byte>, outbuf: seq<byte>) returns (r: int)
    ensures r == if inbuf == outbuf then 0 else 1
  {
    if |inbuf| != |outbuf| { return 1; }
    var i := 0;
    while i < |inbuf|
      invariant i <= |inbuf| && inbuf[..i] == outbuf[..i]
    {
      if inbuf[i] != outbuf[i] { return 1; }
      i := i + 1;
    }
    r := 0;
  }

  /** A new compressor and a new decompressor. */
  method Connect(memory: seq<byte>, memory2: seq<byte>, outbuf: array<byte>) returns (c: Compressor, d: Decompressor)
    requires |memory| == |memory2| == WINDOW && memory[WINDOW - MAX_RAW..] == memory2[WINDOW - MAX_RAW..]
    ensures Paired(c, d) && Apart(c, d, outbuf)
    ensures fresh(c) && fresh(c.window) && fresh(c.window.buf) && fresh(c.table)
    ensures fresh(c.stat) && fresh(c.stat.stat) && fresh(c.stat.symbolTable)
    ensures fresh(d) && fresh(d.window) && fresh(d.window.buf) && fresh(d.stat) && fresh(d.groupTable)
      && fresh(d.symbolTable)
  {
    assert Contents(memory, 0) == memory && Contents(memory2, 0) == memory2;
    LastAgree(memory, memory2);
    hide InStep, Contents, Wf, Bounded, FitTable, Holds, Agree;
    c := new Compressor(memory);
    d := new Decompressor(memory2);
    InitiallyInStep();
  }

  /** One block through both, and the check that it came back. */
  method Send(c: Compressor, d: Decompressor, block: seq<byte>, outbuf: array<byte>)
    returns (output: seq<byte>, differs: int)
    requires Apart(c, d, outbuf) && Paired(c, d) && |block| <= outbuf.Length
    modifies c`base, c.table, c.stat, c.stat.stat, c.stat.symbolTable, c.window, c.window.buf
    modifies d, d.window, d.window.buf, d.stat, d.groupTable, d.symbolTable, outbuf
    ensures Paired(c, d) && output == block && differs == 0
  {
    hide Paired;
    var packed, ok, outSz, used := Exchange(c, d, block, [], outbuf);
    assert outbuf[..outSz] == block;
    output := outbuf[..outSz];
    differs := Compare(block, output);
    if !ok || used != |packed| { differs := 1; }
  }

  /** Any blocks, one after the other, through a new compressor and a new decompressor: all come back,
      provided that the last MAX_RAW bytes of the memory of the two rings were the same. */
  method RoundTrip(memory: seq<byte>, memory2: seq<byte>, blocks: seq<seq<byte>>, outbuf: array<byte>)
    returns (outputs: seq<seq<byte>>, errors: int)
    requires |memory| == |memory2| == WINDOW && memory[WINDOW - MAX_RAW..] == memory2[WINDOW - MAX_RAW..]
    requires forall b :: 0 <= b < |blocks| ==> |blocks[b]| <= outbuf.Length
    modifies outbuf
    ensures outputs == blocks && errors == 0
  {
    hide Paired, Apart;
    var c, d := Connect(memory, memory2, outbuf);
    outputs, errors := [], 0;
    var b := 0;
    while b < |blocks|
      invariant b <= |blocks| && outputs == blocks[..b] && errors == 0 && Paired(c, d) && Apart(c, d, outbuf)
    {
      var output, differs := Send(c, d, blocks[b], outbuf);
      outputs := outputs + [output];
      errors := errors + differs;
      b := b + 1;
    }
  }

  /** Resetting both ends keeps them paired: statistics and tables begin anew, the rings stay. */
  method ResetBoth(c: Compressor, d: Decompressor)
    requires Paired(c, d) && c.stat.stat != d.stat
    modifies c.table, c.stat, c.stat.stat, c.stat.symbolTable, d, d.stat, d.groupTable, d.symbolTable
    ensures Paired(c, d)
  {
    hide InStep, Contents, Wf, Bounded, FitTable, Holds;
    c.Reset();
    d.Reset();
    InitiallyInStep();
  }
}
