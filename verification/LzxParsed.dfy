// Data that has been taken apart into literals and repetitions of earlier bytes: whatever the
// repetitions are, as long as they stay within the window, there is a stream that says just this, and
// the decoder gives the data.
module LzxParsed {
  import opened Wrappers
  import opened Powers
  import opened CanonicalCode
  import opened BitStream
  import opened LzWindow
  import opened LzxSpec
  import opened LzxProps
  import opened LzxTokens
  import opened LzxLengths
  import opened LzxBlocks
  import opened LzxTrees
  import opened LzxEncode
  import opened LzxFrames
  import opened LzxOutput
  import opened LzxHistory
  import opened LzxStored
  import IntelE8

  // ---------- codes for all symbols ----------

  // a complete code of n symbols, of k and of k + 1 bits
  function Full(n: nat, k: nat, size: nat): (lens: seq<nat>)
    requires Pow2(k) <= n <= Pow2(k + 1) && n <= size
    ensures |lens| == size
  {
    assert Pow2(k + 1) == 2 * Pow2(k);
    var short := Pow2(k + 1) - n;
    seq(short, _ => k) + seq(n - short, _ => k + 1) + seq(size - n, _ => 0)
  }

  lemma CodeWeights(k: nat)
    requires 1 <= k < MAX_BITS
    ensures Weight(0) == 0 && Weight(k) == 2 * Weight(k + 1) && Pow2(k + 1) * Weight(k + 1) == Pow2(MAX_BITS)
  {
    hide Pow2;
    Pow2Half(MAX_BITS - k);
    Pow2Add(k + 1, MAX_BITS - k - 1);
  }

  lemma FullSum(n: nat, k: nat, size: nat, cap: nat)
    requires Pow2(k) <= n <= Pow2(k + 1) && n <= size && 1 <= k < cap && k < MAX_BITS
    ensures Kraft(Full(n, k, size), cap) == Pow2(MAX_BITS)
  {
    hide Weight, Pow2, Kraft;
    Pow2Half(k + 1);
    CodeWeights(k);
    ThreeRuns(Pow2(k + 1) - n, k, 2 * n - Pow2(k + 1), size - n, cap);
    assert n - (Pow2(k + 1) - n) == 2 * n - Pow2(k + 1);
    Balance(Pow2(k + 1) - n, n, Pow2(k + 1), Weight(k + 1));
  }

  lemma ThreeRuns(a: nat, k: nat, b: nat, c: nat, cap: nat)
    requires k < cap && Weight(0) == 0
    ensures Kraft(seq(a, _ => k) + seq(b, _ => k + 1) + seq(c, _ => 0), cap) == a * Weight(k) + b * Weight(k + 1)
  {
    hide Weight, Kraft;
    OneRun(a, k, cap);
    RepeatedWeigh(seq(a, _ => k), b, k + 1, cap);
    NoWeight(seq(a, _ => k) + seq(b, _ => k + 1), c, cap);
  }

  lemma OneRun(a: nat, k: nat, cap: nat)
    requires k <= cap
    ensures Kraft(seq(a, _ => k), cap) == a * Weight(k)
  {
    hide Weight;
    assert [] + seq(a, _ => k) == seq(a, _ => k);
    RepeatedWeigh([], a, k, cap);
  }

  lemma NoWeight(lens: seq<nat>, c: nat, cap: nat)
    requires Weight(0) == 0
    ensures Kraft(lens + seq(c, _ => 0), cap) == Kraft(lens, cap)
  {
    hide Weight, Kraft;
    RepeatedWeigh(lens, c, 0, cap);
    assert c * 0 == 0;
  }

  lemma Balance(short: nat, n: nat, all: nat, w: nat)
    requires short <= n && short + n == all
    ensures short * (2 * w) + (n - short) * w == all * w
  {
  }

  lemma FullOk(n: nat, k: nat, size: nat, nbits: nat)
    requires Pow2(k) <= n <= Pow2(k + 1) && n <= size && 1 <= k < nbits <= MAX_BITS
    ensures Buildable(Full(n, k, size), nbits)
    ensures forall s :: 0 <= s < n ==> Writable(Full(n, k, size), s)
  {
    hide Kraft, Pow2, Writable;
    FullSum(n, k, size, nbits);
    FullSum(n, k, size, MAX_BITS);
    forall s | 0 <= s < n
      ensures Writable(Full(n, k, size), s)
    {
      CompleteFits(Full(n, k, size), s);
    }
  }

  // a shorter code of the main tree for this many symbols
  function ShortCode(n: nat): (k: nat)
    requires 256 <= n < 4096
    ensures 8 <= k < 12 && Pow2(k) <= n <= Pow2(k + 1)
  {
    Pow2Values();
    assert Pow2(9) == 512 && Pow2(10) == 1024 && Pow2(11) == 2048;
    if n < 512 then 8 else if n < 1024 then 9 else if n < 2048 then 10 else 11
  }

  function FullMain(n: nat, size: nat): (lens: seq<nat>)
    requires 256 <= n < 4096 && n <= size
    ensures |lens| == size
  {
    Full(n, ShortCode(n), size)
  }

  function FullLengths(size: nat): (lens: seq<nat>)
    requires size >= LENGTH_SYMBOLS - 1
    ensures |lens| == size
  {
    assert Pow2(7) == 128 && Pow2(8) == 256;
    Full(LENGTH_SYMBOLS - 1, 7, size)
  }

  // ---------- written matches ----------

  // A match that was written at any place of the window, with any offset that reaches back neither
  // further than the window's size nor further than the stream and its reference data, is decoded to
  // the bytes that far back in the history.
  lemma WrittenMatch(src: seq<nat>, st: Lzx, t: Token, h: seq<nat>, rest: seq<nat>)
    requires Inside(st, h) && t.Copy? && TokenOk(st, t) && st.windowPosn + t.length <= st.p.windowSize
    requires 1 <= Offset(st, t.slot, t.above) <= st.p.windowSize
    requires Offset(st, t.slot, t.above) <= |h| - st.p.windowSize + st.p.refDataSize
    requires Holds(src, st.cur, TokenBits(st, t), rest)
    ensures Element(src, st).Ok?
    ensures var st' := Element(src, st).value;
      st'.windowPosn == st.windowPosn + t.length && Reached(src, st.cur, st'.cur, rest) &&
      Inside(st', h + st'.window[st.windowPosn..st'.windowPosn]) &&
      Repeats(h + st'.window[st.windowPosn..st'.windowPosn], t.length, Offset(st, t.slot, t.above))
  {
    hide TokenBits, StOk, Element, CopyMatch, Shows, Repeats, IsBytes, Remaining, Offset, Writable, MatchFits, Pow2;
    InsideOk(st, h);
    InsideFits(st, h, Offset(st, t.slot, t.above), t.length);
    TokenIsRead(src, st, t, rest);
    CopyRepeats(st.window, st.windowPosn, Offset(st, t.slot, t.above), t.length, h);
    var st' := Element(src, st).value;
    RepeatsBytes(h, st'.window[st.windowPosn..st'.windowPosn], Offset(st, t.slot, t.above));
  }

  // ---------- pieces of data ----------

  // a byte as it is, or bytes that stand some distance before already
  datatype Piece = Literal(byte: nat) | Back(length: nat, distance: nat)

  function PieceLength(piece: Piece): nat
  {
    if piece.Literal? then 1 else piece.length
  }

  // Behind the history h the piece stands for d.  The distance can reach into the reference data, and
  // the three largest ones of the window have no name.
  predicate Says(p: Params, h: seq<nat>, piece: Piece, d: seq<nat>)
  {
    |d| == PieceLength(piece) &&
    match piece
    case Literal(byte) => byte < 256 && d == [byte]
    case Back(length, distance) =>
      2 <= length <= 257 && 1 <= distance <= p.windowSize - 3 && distance <= |h| - p.windowSize + p.refDataSize &&
      Repeats(h + d, length, distance)
  }

  // the pieces stand for data
  predicate Parses(p: Params, h: seq<nat>, pieces: seq<Piece>, data: seq<nat>)
    decreases |pieces|
  {
    if pieces == [] then data == []
    else
      var n := PieceLength(pieces[0]);
      n <= |data| && Says(p, h, pieces[0], data[..n]) && Parses(p, h + data[..n], pieces[1..], data[n..])
  }

  // the parameters of a window of 2^bits bytes
  predicate Real(p: Params, bits: nat)
  {
    15 <= bits <= 25 && p.windowSize == Pow2(bits) && p.numOffsets == 8 * POSITION_SLOTS[bits - 15]
  }

  lemma RealSize(p: Params, bits: nat)
    requires Real(p, bits)
    ensures p.windowSize % FRAME_SIZE == 0 && p.windowSize >= FRAME_SIZE && p.numOffsets <= MAIN_SYMBOLS - NUM_CHARS
  {
    hide Pow2;
    Pow2Add(bits - 15, 15);
    Pow2Values();
    WholeFrames(Pow2(bits - 15));
  }

  lemma WholeFrames(q: nat)
    requires q >= 1
    ensures q * 32768 % 32768 == 0 && q * 32768 >= 32768
  {
  }

  // every distance has a slot
  lemma SlotForDistance(st: Lzx, bits: nat, distance: nat) returns (slot: nat, above: nat)
    requires Real(st.p, bits) && 1 <= distance <= st.p.windowSize - 3
    ensures 3 <= slot && 8 * slot + 8 <= st.p.numOffsets && Offset(st, slot, above) == distance
    ensures slot >= 4 ==> above < Pow2(ExtraBits(slot))
  {
    hide Pow2, PositionBase;
    SlotsReachWindow(bits);
    if distance == 1 {
      slot, above := 3, 0;
    } else {
      slot := SlotForOffset(distance + 2, POSITION_SLOTS[bits - 15]);
      LowSlots(slot, distance + 2);
      above := distance + 2 - PositionBase(slot);
    }
  }

  lemma LowSlots(slot: nat, v: nat)
    requires v >= 4 && v < PositionBase(slot) + Pow2(ExtraBits(slot))
    ensures slot >= 4
  {
    assert PositionBase(1) == 1 && PositionBase(2) == 2;
  }

  // all symbols of both trees have codes
  predicate AllCoded(st: Lzx)
    requires StOk(st)
  {
    st.blockType == VERBATIM && !st.lengthEmpty &&
    (forall s :: 0 <= s < MainLast(st) ==> Writable(MainLens(st), s)) &&
    forall s :: 0 <= s < LENGTH_SYMBOLS - 1 ==> Writable(LengthLens(st), s)
  }

  // the token that writes a piece, never with a repeated offset
  predicate Writes(piece: Piece, t: Token)
  {
    match piece
    case Literal(byte) => t == Byte(byte)
    case Back(length, distance) =>
      t.Copy? && t.length == length && t.slot >= 3 &&
      distance == if t.slot == 3 then 1 else PositionBase(t.slot) - 2 + t.above
  }

  lemma PieceToken(st: Lzx, bits: nat, h: seq<nat>, piece: Piece, d: seq<nat>) returns (t: Token)
    requires Inside(st, h) && Real(st.p, bits) && AllCoded(st) && Says(st.p, h, piece, d)
    requires st.windowPosn + |d| <= st.p.windowSize
    ensures Writes(piece, t) && TokenOk(st, t) && Fits(st, t) && Length(t) == |d| > 0
    ensures Apply(st, t, st.cur).window == Spliced(st.window, st.windowPosn, d)
  {
    hide Pow2, PositionBase, Writable, IsBytes, Shows, Spliced, MatchFits, CopyMatch;
    InsideOk(st, h);
    match piece {
      case Literal(byte) =>
        t := Byte(byte);
        OneSpliced(st.window, st.windowPosn, byte);
      case Back(length, distance) =>
        var slot, above := SlotForDistance(st, bits, distance);
        t := Copy(length, slot, above);
        SymbolInRange(st, t);
        InsideFits(st, h, distance, length);
        CopyIsSpliced(st.window, st.windowPosn, distance, h, d);
    }
  }

  lemma SymbolInRange(st: Lzx, t: Token)
    requires t.Copy? && t.length >= 2 && 8 * t.slot + 8 <= st.p.numOffsets
    ensures MainSymbol(t) < MainLast(st)
  {
  }

  lemma OneSpliced(w: seq<nat>, posn: nat, b: nat)
    requires posn < |w|
    ensures w[posn := b] == Spliced(w, posn, [b])
  {
  }

  // what the history says is what the match copies
  lemma CopyIsSpliced(w: seq<nat>, posn: nat, e: nat, h: seq<nat>, d: seq<nat>)
    requires Shows(w, posn, h) && posn + |d| <= |w| && 1 <= e <= |w| && Repeats(h + d, |d|, e)
    ensures CopyMatch(w, posn, e, |d|) == Spliced(w, posn, d)
  {
    hide CopyMatch, Shows, Repeats;
    CopyRepeats(w, posn, e, |d|, h);
    CopyMatchElsewhere(w, posn, e, |d|);
    var w' := CopyMatch(w, posn, e, |d|);
    RepeatsUnique(h, w'[posn..posn + |d|], d, e);
    assert w' == w'[..posn] + w'[posn..posn + |d|] + w'[posn + |d|..];
  }

  lemma {:induction false} RepeatsUnique(h: seq<nat>, d: seq<nat>, d': seq<nat>, e: nat)
    requires |d| == |d'| && 1 <= e && Repeats(h + d, |d|, e) && Repeats(h + d', |d'|, e)
    ensures d == d'
    decreases |d|
  {
    if d != [] {
      var last := |d| - 1;
      RepeatsFits(h, d, e);
      FewerRepeat(h, d, e);
      FewerRepeat(h, d', e);
      RepeatsUnique(h, d[..last], d'[..last], e);
      SameSource(h, d, d', e, |h| + last);
      assert d == d[..last] + [d[last]] && d' == d'[..last] + [d'[last]];
    }
  }

  lemma RepeatsFits(h: seq<nat>, d: seq<nat>, e: nat)
    requires Repeats(h + d, |d|, e)
    ensures e <= |h|
  {
  }

  lemma SameSource(h: seq<nat>, d: seq<nat>, d': seq<nat>, e: nat, j: nat)
    requires |d| == |d'| > 0 && 1 <= e <= |h| && Repeats(h + d, |d|, e) && Repeats(h + d', |d'|, e)
    requires j == |h| + |d| - 1 && d[..|d| - 1] == d'[..|d| - 1]
    ensures d[|d| - 1] == d'[|d| - 1]
  {
    assert (h + d)[j] == (h + d)[j - e] && (h + d')[j] == (h + d')[j - e];
    assert (h + d[..|d| - 1])[j - e] == (h + d'[..|d| - 1])[j - e];
  }

  // behind the token the state is as it was behind the bytes that it stands for
  lemma PieceDone(st: Lzx, h: seq<nat>, t: Token, d: seq<nat>)
    requires Inside(st, h) && AllCoded(st) && Fits(st, t) && Length(t) == |d| && IsBytes(h + d)
    requires st.windowPosn + |d| <= st.p.windowSize
    requires Apply(st, t, st.cur).window == Spliced(st.window, st.windowPosn, d)
    ensures var st1 := Apply(st, t, st.cur);
      Inside(st1, h + d) && AllCoded(st1) && st1.p == st.p && st1.windowPosn == st.windowPosn + |d|
  {
    hide Pow2, Writable, IsBytes, Shows, Spliced, MatchFits, CopyMatch, AllCoded;
    SplicedShows(st.window, st.windowPosn, h, d);
    SameCodes(st, Apply(st, t, st.cur));
  }

  lemma SameCodes(st: Lzx, st1: Lzx)
    requires StOk(st) && StOk(st1) && AllCoded(st) && st1.p == st.p && st1.blockType == st.blockType
    requires st1.mainLens == st.mainLens && st1.lengthLens == st.lengthLens && st1.lengthEmpty == st.lengthEmpty
    ensures AllCoded(st1)
  {
    hide Writable, StOk;
    assert MainLens(st1) == MainLens(st) && LengthLens(st1) == LengthLens(st);
  }

  lemma SplicedShows(w: seq<nat>, posn: nat, h: seq<nat>, d: seq<nat>)
    requires Shows(w, posn, h) && posn + |d| <= |w|
    ensures Shows(Spliced(w, posn, d), posn + |d|, h + d)
  {
    hide Shows;
    var w' := Spliced(w, posn, d);
    assert w'[posn..posn + |d|] == d;
    ShowsMore(w, w', posn, posn + |d|, h);
  }

  lemma SpliceBoth(w: seq<nat>, posn: nat, d: seq<nat>, rest: seq<nat>)
    requires posn + |d| + |rest| <= |w|
    ensures Spliced(Spliced(w, posn, d), posn + |d|, rest) == Spliced(w, posn, d + rest)
  {
  }

  lemma SaysBytes(p: Params, h: seq<nat>, piece: Piece, d: seq<nat>)
    requires Says(p, h, piece, d) && IsBytes(h) && |h| >= p.windowSize
    ensures IsBytes(h + d)
  {
    if piece.Back? {
      RepeatsFits(h, d, piece.distance);
      RepeatsBytes(h, d, piece.distance);
    }
  }

  // Pieces can be written as tokens, and these put the data into the window.
  lemma {:induction false} PiecesTokens(st: Lzx, bits: nat, h: seq<nat>, pieces: seq<Piece>, data: seq<nat>)
    returns (ts: seq<Token>)
    requires Inside(st, h) && Real(st.p, bits) && AllCoded(st) && Parses(st.p, h, pieces, data)
    requires st.windowPosn + |data| <= |st.window|
    ensures |ts| == |pieces| && forall i :: 0 <= i < |ts| ==> Writes(pieces[i], ts[i])
    ensures TokensOk(st, ts) && TotalLength(ts) == |data|
    ensures ApplyAll(st, ts).window == Spliced(st.window, st.windowPosn, data)
    decreases |pieces|
  {
    hide Pow2, Writes, Writable, TokenOk, Fits, AllCoded, StOk, Says, IsBytes, Shows, Spliced, Apply;
    InsideOk(st, h);
    if pieces == [] {
      ts := [];
      assert Spliced(st.window, st.windowPosn, []) == st.window by {
        NothingSpliced(st.window, st.windowPosn);
      }
    } else {
      var d, rest := data[..PieceLength(pieces[0])], data[PieceLength(pieces[0])..];
      assert |d| == PieceLength(pieces[0]) && data == d + rest;
      var t := PieceToken(st, bits, h, pieces[0], d);
      SaysBytes(st.p, h, pieces[0], d);
      PieceDone(st, h, t, d);
      var later := PiecesTokens(Apply(st, t, st.cur), bits, h + d, pieces[1..], rest);
      ts := [t] + later;
      assert ts[1..] == later;
      SpliceBoth(st.window, st.windowPosn, d, rest);
    }
  }

  lemma NothingSpliced(w: seq<nat>, posn: nat)
    requires posn <= |w|
    ensures Spliced(w, posn, []) == w
  {
  }

  // ---------- a block of pieces ----------

  function FullTrees(st: Lzx): Trees
    requires StOk(st) && LensReady(st)
  {
    hide Full, ShortCode;
    TreesFor(st, FullMain(MainLast(st), |st.mainLens|), FullLengths(|st.lengthLens|))
  }

  lemma FullIs(n: nat, k: nat, size: nat)
    requires Pow2(k) <= n <= Pow2(k + 1) && n <= size && 1 <= k < MAX_BITS
    ensures Changeable(Full(n, k, size), n) && forall i :: 0 <= i < n ==> Full(n, k, size)[i] > 0
    ensures forall m :: n <= m <= size ==> Full(n, k, size)[..m] == Full(n, k, m)
  {
    hide Pow2;
  }

  lemma MainCoded(n: nat, size: nat)
    requires 256 <= n <= MAIN_SYMBOLS <= size
    ensures var lens := FullMain(n, size);
      Changeable(lens, n) && lens[IntelE8.E8] != 0 && Buildable(lens[..MAIN_SYMBOLS], MAIN_BITS) &&
      forall s :: 0 <= s < n ==> Writable(lens[..MAIN_SYMBOLS], s)
  {
    hide Full, ShortCode, Buildable, Writable, Pow2;
    var k := ShortCode(n);
    FullIs(n, k, size);
    FullOk(n, k, MAIN_SYMBOLS, MAIN_BITS);
  }

  lemma LengthsCoded(size: nat)
    requires LENGTH_SYMBOLS <= size
    ensures var lens := FullLengths(size);
      Changeable(lens, LENGTH_SYMBOLS - 1) && Buildable(lens[..LENGTH_SYMBOLS], LENGTH_BITS) &&
      forall s :: 0 <= s < LENGTH_SYMBOLS - 1 ==> Writable(lens[..LENGTH_SYMBOLS], s)
  {
    assert Pow2(7) == 128 && Pow2(8) == 256;
    hide Full, Buildable, Writable, Pow2;
    FullIs(LENGTH_SYMBOLS - 1, 7, size);
    FullOk(LENGTH_SYMBOLS - 1, 7, LENGTH_SYMBOLS, LENGTH_BITS);
  }

  // the trees of the last block had a code for every symbol
  predicate FullyCoded(st: Lzx)
  {
    st.p.numOffsets <= MAIN_SYMBOLS - NUM_CHARS && |st.mainLens| >= MAIN_SYMBOLS && |st.lengthLens| >= LENGTH_SYMBOLS &&
    st.mainLens == FullMain(MainLast(st), |st.mainLens|) && st.lengthLens == FullLengths(|st.lengthLens|)
  }

  function PieceHead(st: Lzx, n: nat): Head
    requires StOk(st) && LensReady(st)
  {
    Head(VERBATIM, n, FullTrees(st))
  }

  lemma TreesAreFull(st: Lzx, n: nat)
    requires StOk(st) && LensReady(st) && 0 < n <= FRAME_SIZE
    ensures HeadOk(st, PieceHead(st, n))
    ensures var st1 := Begun(st, PieceHead(st, n), st.cur);
      StOk(st1) && AllCoded(st1) && FullyCoded(st1) && st1.intelStarted && st1.blockRemaining == n &&
      st1.window == st.window && st1.windowPosn == st.windowPosn && SameFrame(st, st1)
  {
    hide FullMain, FullLengths, TreesFor, Buildable, Writable, Pow2, RunsOk, RunLens, LensReady;
    MainCoded(MainLast(st), |st.mainLens|);
    LengthsCoded(|st.lengthLens|);
    TreesBecome(st, FullMain(MainLast(st), |st.mainLens|), FullLengths(|st.lengthLens|));
  }

  // a block whose tokens write the pieces
  ghost predicate BlockWrites(pieces: seq<Piece>, part: Part)
  {
    part.Compressed? && part.head.Some? && part.head.value.kind == VERBATIM && |part.tokens| == |pieces| &&
    forall i :: 0 <= i < |pieces| ==> Writes(pieces[i], part.tokens[i])
  }

  lemma BlockOfPieces(st: Lzx, bits: nat, h: seq<nat>, pieces: seq<Piece>, data: seq<nat>) returns (part: Part)
    requires Inside(st, h) && Real(st.p, bits) && LensReady(st) && st.blockRemaining == 0
    requires Parses(st.p, h, pieces, data) && 0 < |data| <= FRAME_SIZE && st.windowPosn + |data| <= |st.window|
    ensures BlockWrites(pieces, part) && PartOk(st, part, |data|) && Size(part) == |data|
    ensures var r := After(st, part, |data|);
      r.window == Spliced(st.window, st.windowPosn, data) && r.blockRemaining == 0 && r.intelStarted && FullyCoded(r)
  {
    hide Pow2, StOk, Begun, TreesOk, HeadOk, LensReady, AllCoded, FullyCoded, Spliced, Writes, TokensOk, ApplyAll, Parses,
      IsBytes, Shows;
    var n := |data|;
    TreesAreFull(st, n);
    var st1 := Less(Begun(st, PieceHead(st, n), st.cur), n);
    LessIs(Begun(st, PieceHead(st, n), st.cur), n);
    StillInside(st, st1, h);
    var tokens := PiecesTokens(st1, bits, h, pieces, data);
    part := Compressed(Some(PieceHead(st, n)), tokens);
    ApplyAllKeeps(st1, tokens);
    StillFull(st1, ApplyAll(st1, tokens));
  }

  lemma LessIs(st: Lzx, n: nat)
    requires StOk(st) && n <= st.blockRemaining && AllCoded(st) && FullyCoded(st)
    ensures StOk(Less(st, n)) && AllCoded(Less(st, n)) && FullyCoded(Less(st, n))
  {
    hide AllCoded, FullMain, FullLengths, Pow2;
    SameCodes(st, Less(st, n));
  }

  lemma StillInside(st: Lzx, st1: Lzx, h: seq<nat>)
    requires Inside(st, h) && StOk(st1) && SameFrame(st, st1) && st1.window == st.window && st1.windowPosn == st.windowPosn
    ensures Inside(st1, h)
  {
    hide StOk, Shows, IsBytes;
  }

  lemma StillFull(st: Lzx, st1: Lzx)
    requires FullyCoded(st) && Decoded(st, st1)
    ensures FullyCoded(st1)
  {
    hide FullMain, FullLengths;
  }

  // ---------- frames of pieces ----------

  // what the encoder's E8 transform makes of a frame of data
  function Laid(filesize: int, frame: nat, chunk: seq<nat>): (laid: seq<nat>)
    ensures |laid| == |chunk|
  {
    if filesize != 0 && frame <= 32768 && |chunk| > 10
    then IntelE8.Transform(IntelE8.Encode, chunk, frame * FRAME_SIZE, filesize)
    else chunk
  }

  function FileNumber(file: Option<nat>): int
  {
    if file.None? then 0 else file.value
  }

  // ready for a block of its own in the next frame
  predicate Open(st: Lzx, file: Option<nat>, h: seq<nat>)
  {
    Ready(st) && StOk(st) && LensReady(st) && Placed(st, h) && SignedFile(file) &&
    (st.headerRead ==> st.intelFilesize == FileNumber(file))
  }

  lemma LaidIsStored(st: Lzx, file: Option<nat>, h: seq<nat>, chunk: seq<nat>)
    requires Open(st, file, h) && |chunk| == FrameSize(st) > 0
    ensures Stored(WithHeader(st, file), chunk) == Laid(FileNumber(file), st.frame, chunk)
    ensures WithHeader(st, file).intelFilesize == FileNumber(file)
  {
    hide StOk, LensReady, IntelE8.Transform, Shows, IsBytes;
  }

  lemma PieceFrame(st: Lzx, bits: nat, h: seq<nat>, file: Option<nat>, pieces: seq<Piece>, chunk: seq<nat>)
    returns (part: Part)
    requires Open(st, file, h) && Real(st.p, bits) && IsBytes(chunk) && |chunk| == FrameSize(st) > 0
    requires Parses(st.p, h, pieces, Laid(FileNumber(file), st.frame, chunk))
    ensures BlockWrites(pieces, part) && OneOk(st, file, [part])
    ensures var r := FrameAfter(st, file, [part]);
      r.pending == chunk && r.p == st.p && r.offset == st.offset && r.frame == st.frame + 1 &&
      Open(Flushed(r), file, h + Laid(FileNumber(file), st.frame, chunk))
  {
    hide Pow2, FrameOk, StOk, PartOk, After, Stored, OneOk, FrameAfter, Spliced, BlockWrites, Parses, Writable, Laid,
      LensReady, Ready, IsBytes, Shows, Inside, Real, FullyCoded, Placed;
    LaidIsStored(st, file, h, chunk);
    var laid := Stored(WithHeader(st, file), chunk);
    FrameBegins(st, file, h, chunk);
    part := BlockOfPieces(WithHeader(st, file), bits, h, pieces, laid);
    ChunkComesOut(st, file, chunk, part);
    FrameEnds(st, file, h, laid, part);
    OpenAgain(FrameAfter(st, file, [part]), file, h + laid);
  }

  lemma FrameBegins(st: Lzx, file: Option<nat>, h: seq<nat>, chunk: seq<nat>)
    requires Open(st, file, h) && IsBytes(chunk) && |chunk| == FrameSize(st) > 0
    ensures var st1 := WithHeader(st, file);
      StOk(st1) && Inside(st1, h) && LensReady(st1) && st1.blockRemaining == 0 && st1.p == st.p &&
      st1.windowPosn + |chunk| <= |st1.window| && |chunk| <= FRAME_SIZE && IsBytes(Stored(st1, chunk))
  {
    hide Pow2, FrameOk, Stored, Changeable, IsBytes, Shows;
    StartOfFrame(st, h);
    FrameStart(st, file);
    HeaderKeeps(st, file);
    StoredBack(WithHeader(st, file), chunk);
  }

  // the frame is the end of the history
  lemma FrameEnds(st: Lzx, file: Option<nat>, h: seq<nat>, laid: seq<nat>, part: Part)
    requires Open(st, file, h) && IsBytes(laid) && |laid| == FrameSize(st) > 0 && OneOk(st, file, [part])
    requires StOk(WithHeader(st, file)) && PartOk(WithHeader(st, file), part, |laid|) && Size(part) == |laid|
    requires st.windowPosn + |laid| <= |st.window|
    requires var st1 := After(WithHeader(st, file), part, |laid|);
      st1.window == Spliced(st.window, st.windowPosn, laid) && FullyCoded(st1)
    ensures var r := FrameAfter(st, file, [part]);
      Placed(r, h + laid) && FullyCoded(r) && r.intelFilesize == WithHeader(st, file).intelFilesize &&
      r.frame == st.frame + 1
  {
    hide Pow2, FrameOk, StOk, PartOk, PartsOk, After, AfterAll, OneOk, FrameBytes, Spliced, LensReady, IsBytes, Shows,
      Wrapped, FullyCoded;
    var st0, n := WithHeader(st, file), |laid|;
    StartOfFrame(st, h);
    HeaderKeeps(st, file);
    OnlyPart(st0, part, n);
    FrameAfterOk(st, file, [part]);
    var st1, r := After(st0, part, n), FrameAfter(st, file, [part]);
    SplicedShows(st.window, st.windowPosn, h, laid);
    BytesTogether(h, laid);
    assert Advances(st1, n, r);
    PlacedBehind(st, st1, n, h, h + laid, r);
    FullStays(st1, r);
  }

  lemma FullStays(st: Lzx, r: Lzx)
    requires FullyCoded(st) && r.p == st.p && r.mainLens == st.mainLens && r.lengthLens == st.lengthLens
    ensures FullyCoded(r)
  {
    hide FullMain, FullLengths;
  }

  lemma OpenAgain(r: Lzx, file: Option<nat>, h: seq<nat>)
    requires Ready(Flushed(r)) && Placed(r, h) && FullyCoded(r) && SignedFile(file)
    requires r.intelFilesize == FileNumber(file)
    ensures Open(Flushed(r), file, h)
  {
    hide Pow2, Shows, IsBytes, FullMain, FullLengths;
    WritePlaced(r, h, |r.pending|);
    MainCoded(MainLast(r), |r.mainLens|);
    LengthsCoded(|r.lengthLens|);
  }

  // ---------- streams of pieces ----------

  // the bytes of the next frame
  function NextChunk(data: seq<nat>): (chunk: seq<nat>)
  {
    if |data| < FRAME_SIZE then data else data[..FRAME_SIZE]
  }

  // Behind the history h, from the given frame on, the pieces of every frame stand for its data, as the
  // encoder's E8 transform lays it down.
  predicate ParsesAll(p: Params, filesize: int, frame: nat, h: seq<nat>, parses: seq<seq<Piece>>, data: seq<nat>)
    decreases |parses|
  {
    if parses == [] then data == []
    else
      var chunk := NextChunk(data);
      var laid := Laid(filesize, frame, chunk);
      data != [] && Parses(p, h, parses[0], laid) &&
      ParsesAll(p, filesize, frame + 1, h + laid, parses[1..], data[|chunk|..])
  }

  // every frame is one block that writes its pieces; an empty one, which a request for all of the data
  // decodes ahead, comes last
  ghost predicate FramesWrite(parses: seq<seq<Piece>>, frames: seq<seq<Part>>)
  {
    |frames| == |parses| + 1 && frames[|parses|] == [] &&
    forall i :: 0 <= i < |parses| ==> |frames[i]| == 1 && BlockWrites(parses[i], frames[i][0])
  }

  lemma FirstWrites(pieces: seq<Piece>, part: Part, parses: seq<seq<Piece>>, frames: seq<seq<Part>>)
    requires BlockWrites(pieces, part) && FramesWrite(parses, frames)
    ensures FramesWrite([pieces] + parses, [[part]] + frames)
  {
    hide BlockWrites;
  }

  lemma {:induction false} DataIsParsed(st: Lzx, bits: nat, h: seq<nat>, file: Option<nat>, parses: seq<seq<Piece>>,
                                        data: seq<nat>) returns (frames: seq<seq<Part>>)
    requires Open(st, file, h) && Real(st.p, bits) && IsBytes(data)
    requires st.p.length == st.offset + |data| && st.p.length > 0
    requires ParsesAll(st.p, FileNumber(file), st.frame, h, parses, data)
    ensures FramesWrite(parses, frames) && FramesOk(st, file, frames) && Meaning(st, file, frames) == data
    ensures |frames| * FRAME_SIZE > |data|
    decreases |parses|
  {
    hide FrameOk, OneOk, FrameAfter, AtFrame, LensReady, StOk, FramesOk, Meaning, Open, Real, Parses, Laid, FramesWrite,
      BlockWrites;
    if parses == [] {
      OpenReady(st, file, h);
      EmptyFrame(st, file);
      frames := [[]];
      assert FramesWrite(parses, frames) by {
        NoPieces();
      }
    } else {
      var chunk := NextChunk(data);
      var rest := data[|chunk|..];
      assert data == chunk + rest && |chunk| == FrameSize(st);
      var part := PieceFrame(st, bits, h, file, parses[0], chunk);
      var st1 := FrameAfter(st, file, [part]);
      FlushedIs(st1);
      var later := DataIsParsed(Flushed(st1), bits, h + Laid(FileNumber(file), st.frame, chunk), file, parses[1..], rest);
      frames := [[part]] + later;
      FrameBefore(st, file, [part], later);
      FirstWrites(parses[0], part, parses[1..], later);
      assert parses == [parses[0]] + parses[1..];
    }
  }

  lemma OpenReady(st: Lzx, file: Option<nat>, h: seq<nat>)
    requires Open(st, file, h)
    ensures Ready(st)
  {
  }

  lemma NoPieces()
    ensures FramesWrite([], [[]])
  {
  }

  lemma FlushedIs(st: Lzx)
    ensures Flushed(st).p == st.p && Flushed(st).frame == st.frame && Flushed(st).offset == st.offset + |st.pending|
  {
  }

  // However the data is taken apart into literals and repetitions, frame by frame, whatever the window
  // holds before and whatever the file size is: there is a stream that writes just these pieces, and
  // its decoder gives any first part of the data that is asked for.
  lemma EveryParsingHasAStream(data: seq<nat>, parses: seq<seq<Piece>>, p: Params, bits: nat, window: seq<nat>,
                               file: Option<nat>) returns (frames: seq<seq<Part>>)
    requires IsBytes(data) && data != [] && p.length == |data| && Real(p, bits) && SignedFile(file)
    requires IsBytes(window) && |window| == p.windowSize
    requires ParsesAll(p, FileNumber(file), 0, window, parses, data)
    ensures FramesWrite(parses, frames) && FramesOk(Initial(p, window), file, frames)
    ensures var st, src := Initial(p, window), FramesCode(Initial(p, window), file, frames) + [0, 0];
      FrameOk(st) && IsBytes(src) &&
      forall n :: 0 <= n <= |data| ==> Decompress(src, st, n).Ok? && Decompress(src, st, n).value.1 == data[..n]
  {
    hide StOk, FrameOk, Decompress, FramesOk, Meaning, FramesCode, Pow2, FramesWrite, ParsesAll, Real, IsBytes, Placed;
    RealSize(p, bits);
    InitialPlaced(p, window);
    InitialOpen(p, window, file);
    frames := DataIsParsed(Initial(p, window), bits, window, file, parses, data);
    AllIsServed(p, window, file, frames, data);
  }

  lemma InitialOpen(p: Params, window: seq<nat>, file: Option<nat>)
    requires Placed(Initial(p, window), window) && SignedFile(file)
    ensures Open(Initial(p, window), file, window) && FileOk(file)
  {
    hide Pow2, Shows, IsBytes;
  }
}
