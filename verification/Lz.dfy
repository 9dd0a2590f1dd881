/** Facts the match search rests on: what a repeat in the stream is, and how the ring follows the
    stream even after the cursor has been moved back. */
module Lz {
  import opened Bits
  import opened Decoding
  import opened Tokens
  import opened Encoders
  import opened Windows

  /** A table entry that holds no hint. */
  const NO_HINT: nat := 0xFFFF

  /** The len bytes at c of the stream are those disp places before them. */
  ghost predicate Repeats(stream: seq<byte>, c: nat, len: nat, disp: nat) {
    && 1 <= disp < WINDOW <= c && c + len <= |stream|
    && forall i :: c <= i < c + len ==> stream[i] == stream[i - disp]
  }

  /** A repeat is what a match token copies. */
  lemma {:induction false} RepeatsCopy(stream: seq<byte>, c: nat, len: nat, disp: nat)
    requires Repeats(stream, c, len, disp)
    ensures CopyFrom(stream[..c], disp, len) == stream[..c + len]
    decreases len
  {
    if len > 0 {
      assert stream[..c] + [stream[c - disp]] == stream[..c + 1];
      RepeatsCopy(stream, c + 1, len - 1, disp);
    }
  }

  /** An overlapping repeat goes on as long as the bytes match those one period back. */
  lemma RepeatsExtend(stream: seq<byte>, c: nat, disp: nat, len: nat)
    requires Repeats(stream, c, len, disp) && c + len < |stream| && stream[c + len] == stream[c + len - disp]
    ensures Repeats(stream, c, len + 1, disp)
  {
  }

  lemma RepeatsBefore(stream: seq<byte>, c: nat, disp: nat, len: nat)
    requires Repeats(stream, c, len, disp) && WINDOW < c && stream[c - 1] == stream[c - 1 - disp]
    ensures Repeats(stream, c - 1, len + 1, disp)
  {
  }

  // ----- the ring and the stream

  /** The ring holds the WINDOW stream bytes before a; stream position x stands at ring position
      off + x. */
  ghost predicate Follows(ring: seq<byte>, stream: seq<byte>, off: int, a: nat) {
    && |ring| == WINDOW && WINDOW <= a <= |stream|
    && forall x :: a - WINDOW <= x < a ==> ByteAt(ring, off + x) == stream[x]
  }

  lemma FollowsStart(ring: seq<byte>, pos: int, src: seq<byte>)
    requires |ring| == WINDOW
    ensures Follows(ring, Contents(ring, pos) + src, pos - WINDOW, WINDOW)
  {
    hide Slot;
    var stream := Contents(ring, pos) + src;
    forall x | 0 <= x < WINDOW ensures ByteAt(ring, pos - WINDOW + x) == stream[x] {
      var y := pos - WINDOW + x;
      SlotShift(y, 1);
      assert y + WINDOW * 1 == pos + x;
      assert stream[x] == ByteAt(ring, pos + x);
    }
  }

  lemma FollowsEnd(ring: seq<byte>, stream: seq<byte>, off: int, pos: int)
    requires Follows(ring, stream, off, |stream|) && Slot(pos) == Slot(off + |stream|)
    ensures Contents(ring, pos) == Last(stream)
  {
    hide Slot;
    var c, d := Contents(ring, pos), Last(stream);
    forall k | 0 <= k < WINDOW ensures c[k] == d[k] {
      var x := |stream| - WINDOW + k;
      SlotCongruent(pos, off + |stream|, k);
      SlotShift(off + x, 1);
      assert off + x + WINDOW * 1 == off + |stream| + k;
      assert ByteAt(ring, off + x) == stream[x];
      assert c[k] == ByteAt(ring, pos + k);
    }
  }

  lemma SlotCongruent(x: int, y: int, k: int)
    requires Slot(x) == Slot(y)
    ensures Slot(x + k) == Slot(y + k)
  {
  }

  lemma StoredCongruent(before: seq<byte>, after: seq<byte>, p: int, q: int, src: seq<byte>)
    requires Stored(before, after, p, src) && Slot(p) == Slot(q)
    ensures Stored(before, after, q, src)
  {
    hide Slot;
    forall x | q <= x < q + |src| ensures ByteAt(after, x) == src[x - q] {
      SlotCongruent(p, q, x - q);
      assert ByteAt(after, p + (x - q)) == src[x - q];
    }
    forall x | q + |src| - WINDOW <= x < q ensures ByteAt(after, x) == ByteAt(before, x) {
      SlotCongruent(p, q, x - q);
      assert ByteAt(after, p + (x - q)) == ByteAt(before, p + (x - q));
    }
  }

  /** Storing the stream from c on, up to or past everything written so far, rewrites all that was
      written ahead: the ring follows the stream again. */
  lemma StoreFollows(before: seq<byte>, after: seq<byte>, stream: seq<byte>, off: int, a: nat, c: nat, pos: int, n: nat)
    requires Follows(before, stream, off, a) && Slot(pos) == Slot(off + c)
    requires WINDOW <= c <= a <= c + n <= |stream| && n <= WINDOW
    requires Stored(before, after, pos, stream[c..c + n])
    ensures Follows(after, stream, off, c + n)
  {
    StoredCongruent(before, after, pos, off + c, stream[c..c + n]);
    hide Slot;
    forall x | c + n - WINDOW <= x < c + n ensures ByteAt(after, off + x) == stream[x] {
      if c <= x {
        assert ByteAt(after, off + x) == stream[c..c + n][off + x - (off + c)];
      } else {
        assert ByteAt(after, off + x) == ByteAt(before, off + x);
      }
    }
  }

  lemma LiteralsSnoc(toks: seq<Token>, raw: seq<byte>)
    requires raw != []
    ensures var n := |raw| - 1;
      toks + Literals(raw) == (toks + Literals(raw[..n])) + [Literal(raw[n])]
  {
  }

  lemma RawSnoc(h: seq<byte>, raw: seq<byte>)
    requires raw != []
    ensures var n := |raw| - 1;
      h + raw == (h + raw[..n]) + [raw[n]]
  {
  }

  // ----- how far back

  /** No match of the tokens copies from before position low. */
  ghost predicate Within(h: seq<byte>, toks: seq<Token>, low: int)
    requires WINDOW <= |h| && ValidTokens(toks)
  {
    toks != [] ==>
      var rest, t := toks[..|toks| - 1], toks[|toks| - 1];
      Within(h, rest, low) && (t.Match? ==> low <= |Expand(h, rest)| - t.disp)
  }

  lemma WithinSnoc(h: seq<byte>, toks: seq<Token>, t: Token, low: int)
    requires WINDOW <= |h| && ValidTokens(toks) && ValidToken(t) && Within(h, toks, low)
    requires t.Match? ==> low <= |Expand(h, toks)| - t.disp
    ensures ValidTokens(toks + [t]) && Within(h, toks + [t], low)
  {
    assert (toks + [t])[..|toks|] == toks;
  }

  lemma {:induction false} WithinLiterals(h: seq<byte>, toks: seq<Token>, raw: seq<byte>, low: int)
    requires WINDOW <= |h| && ValidTokens(toks) && Within(h, toks, low)
    ensures ValidTokens(toks + Literals(raw)) && Within(h, toks + Literals(raw), low)
  {
    hide Expand;
    if raw == [] {
      assert toks + Literals(raw) == toks;
    } else {
      var init, b := raw[..|raw| - 1], raw[|raw| - 1];
      WithinLiterals(h, toks, init, low);
      LiteralsSnoc(toks, raw);
      WithinSnoc(h, toks + Literals(init), Literal(b), low);
    }
  }

  /** No valid token reaches further back than the window. */
  lemma {:induction false} WithinWindow(h: seq<byte>, toks: seq<Token>)
    requires WINDOW <= |h| && ValidTokens(toks)
    ensures Within(h, toks, 1)
  {
    if toks != [] {
      WithinWindow(h, toks[..|toks| - 1]);
      assert ValidToken(toks[|toks| - 1]);
    }
  }

  /** A hint is none, or names the ring slot of a stream position from low on, as seen from position a. */
  ghost predicate Behind(off: int, a: int, low: int, hint: nat) {
    hint == NO_HINT || (hint < WINDOW && Slot(off + a - hint) <= a - low)
  }

  lemma BehindOn(off: int, a: int, b: int, low: int, hint: nat)
    requires Behind(off, a, low, hint) && a <= b
    ensures Behind(off, b, low, hint)
  {
    if hint != NO_HINT { SlotAdvance(off + a - hint, b - a); }
  }

  lemma SlotAdvance(x: int, n: nat)
    ensures Slot(x + n) <= Slot(x) + n
  {
    var q := x / WINDOW;
    assert x == WINDOW * q + Slot(x);
    SlotShift(Slot(x) + n, q);
    SlotBelow(Slot(x) + n);
  }

  lemma SlotBelow(x: nat)
    ensures Slot(x) <= x
  {
  }

  lemma BehindAt(off: int, x: int, a: int, low: int, pos: int)
    requires Slot(pos) == Slot(off + x) && low <= x <= a
    ensures Behind(off, a, low, Slot(pos))
  {
    hide Slot;
    DistanceTo(off + a, pos);
    SlotCongruent(pos, off + x, 0);
    Between(off + a, pos, off + x);
    SlotBelow(a - x);
  }

  lemma BehindNext(off: int, a: int, low: int, pos: int, hint: nat)
    requires Behind(off, a, low, hint) && Slot(pos) == Slot(off + a)
    ensures Behind(pos - WINDOW, WINDOW, WINDOW - (a - low), hint)
  {
    hide Slot;
    SlotCongruent(pos, off + a, 0 - hint);
  }

  /** How far back a hint reaches. */
  lemma HintReach(off: int, a: int, low: int, pos: int, hint: nat)
    requires Behind(off, a, low, hint) && hint != NO_HINT && Slot(pos) == Slot(off + a)
    ensures hint < WINDOW && Slot(pos - hint) <= a - low
  {
    hide Slot;
    SlotCongruent(pos, off + a, 0 - hint);
  }

  lemma DistanceTo(x: int, pos: int)
    ensures Slot(pos) < WINDOW && Slot(x - Slot(pos)) == Slot(x - pos)
  {
  }

  lemma Between(x: int, p: int, q: int)
    requires Slot(p) == Slot(q)
    ensures Slot(x - p) == Slot(x - q)
  {
  }

  // ----- literals

  lemma ExpandSnoc(h: seq<byte>, toks: seq<Token>, t: Token)
    requires WINDOW <= |h| && ValidTokens(toks) && ValidToken(t)
    ensures ValidTokens(toks + [t])
    ensures Expand(h, toks + [t]) == Emit(Expand(h, toks), t)
  {
    assert (toks + [t])[..|toks|] == toks;
  }

  lemma {:induction false} ExpandLiterals(h: seq<byte>, toks: seq<Token>, raw: seq<byte>)
    requires WINDOW <= |h| && ValidTokens(toks)
    ensures ValidTokens(toks + Literals(raw))
    ensures Expand(h, toks + Literals(raw)) == Expand(h, toks) + raw
  {
    if raw == [] {
      assert toks + Literals(raw) == toks;
    } else {
      hide Expand, Literals, ValidToken;
      var init, b := raw[..|raw| - 1], raw[|raw| - 1];
      ExpandLiterals(h, toks, init);
      LiteralsSnoc(toks, raw);
      ExpandSnoc(h, toks + Literals(init), Literal(b));
      RawSnoc(Expand(h, toks), raw);
    }
  }

  /** Literals and a match that repeat the stream bring its meaning from one cursor to the next. */
  lemma ExpandMatch(h: seq<byte>, toks: seq<Token>, stream: seq<byte>, at: nat, c: nat, len: nat, disp: nat, low: int)
    requires WINDOW <= |h| && ValidTokens(toks) && at <= c && Repeats(stream, c, len, disp)
    requires ValidToken(Match(len, disp)) && Expand(h, toks) == stream[..at]
    requires Within(h, toks, low) && low <= c - disp
    ensures ValidTokens(toks + Literals(stream[at..c]) + [Match(len, disp)])
    ensures Expand(h, toks + Literals(stream[at..c]) + [Match(len, disp)]) == stream[..c + len]
    ensures Within(h, toks + Literals(stream[at..c]) + [Match(len, disp)], low)
  {
    hide Within, CopyFrom;
    WithinLiterals(h, toks, stream[at..c], low);
    ExpandLiterals(h, toks, stream[at..c]);
    assert stream[..at] + stream[at..c] == stream[..c];
    ExpandSnoc(h, toks + Literals(stream[at..c]), Match(len, disp));
    WithinSnoc(h, toks + Literals(stream[at..c]), Match(len, disp), low);
    RepeatsCopy(stream, c, len, disp);
  }
}
