// Literals and matches as they are written in a compressed block, and that the decoder gets back
// exactly what was written.
module LzxTokens {
  import opened Powers
  import opened CanonicalCode
  import opened BitStream
  import opened HuffRead
  import opened LzWindow
  import opened LzxSpec

  // a match names its offset by a position slot and the number above the base of the slot
  datatype Token = Byte(value: nat) | Copy(length: nat, slot: nat, above: nat)

  const MAX_MATCH := 257

  // ---------- writing ----------

  // The symbol has a code that fits its length.
  predicate Writable(lens: seq<nat>, s: nat)
  {
    Coded(lens, s) && Code(lens, s) < Pow2(lens[s])
  }

  function MainLens(st: Lzx): seq<nat>
    requires StOk(st)
  {
    st.mainLens[..MAIN_SYMBOLS]
  }

  function LengthLens(st: Lzx): seq<nat>
    requires StOk(st)
  {
    st.lengthLens[..LENGTH_SYMBOLS]
  }

  // three bits of the length are in the main symbol, the rest in a symbol of the length tree
  function LengthHeader(length: nat): nat
    requires length >= MIN_MATCH
  {
    if length - MIN_MATCH < NUM_PRIMARY_LENGTHS then length - MIN_MATCH else NUM_PRIMARY_LENGTHS
  }

  function MainSymbol(t: Token): nat
    requires t.Copy? ==> t.length >= MIN_MATCH
  {
    match t
    case Byte(byte) => byte
    case Copy(length, slot, _) => NUM_CHARS + 8 * slot + LengthHeader(length)
  }

  // do the low three bits of the offset go through the aligned tree?
  predicate UsesAligned(st: Lzx, slot: nat)
  {
    st.blockType == ALIGNED && ExtraBits(slot) >= 3
  }

  predicate TokenOk(st: Lzx, t: Token)
    requires StOk(st)
  {
    match t
    case Byte(byte) => byte < NUM_CHARS && Writable(MainLens(st), byte)
    case Copy(length, slot, above) =>
      MIN_MATCH <= length <= MAX_MATCH && Writable(MainLens(st), MainSymbol(t)) &&
      (LengthHeader(length) == NUM_PRIMARY_LENGTHS ==>
         !st.lengthEmpty && Writable(LengthLens(st), length - MIN_MATCH - NUM_PRIMARY_LENGTHS)) &&
      (slot >= 4 ==>
         above < Pow2(ExtraBits(slot)) && (UsesAligned(st, slot) ==> Writable(st.alignedLens, above % 8)))
  }

  function LengthBits(st: Lzx, length: nat): seq<Bit>
    requires StOk(st) && length >= MIN_MATCH
    requires LengthHeader(length) == NUM_PRIMARY_LENGTHS ==> length - MIN_MATCH - NUM_PRIMARY_LENGTHS < LENGTH_SYMBOLS
  {
    if LengthHeader(length) == NUM_PRIMARY_LENGTHS
    then CodeBits(LengthLens(st), length - MIN_MATCH - NUM_PRIMARY_LENGTHS)
    else []
  }

  function OffsetBits(st: Lzx, slot: nat, above: nat): seq<Bit>
    requires StOk(st)
  {
    if slot < 4 then []
    else if UsesAligned(st, slot) then BitsOf(above / 8, ExtraBits(slot) - 3) + CodeBits(st.alignedLens, above % 8)
    else BitsOf(above, ExtraBits(slot))
  }

  function TokenBits(st: Lzx, t: Token): seq<Bit>
    requires StOk(st) && TokenOk(st, t)
  {
    CodeBits(MainLens(st), MainSymbol(t)) +
    match t
    case Byte(_) => []
    case Copy(length, slot, above) => LengthBits(st, length) + OffsetBits(st, slot, above)
  }

  // ---------- what a token means ----------

  // the repeated offsets: one of them is used and changes places with the first one, or a new one
  // goes to the front
  function Queue(st: Lzx): seq<nat>
  {
    [st.R0, st.R1, st.R2]
  }

  function Offset(st: Lzx, slot: nat, above: nat): nat
  {
    if slot < 3 then Queue(st)[slot]
    else if slot == 3 then 1
    else PositionBase(slot) - 2 + above
  }

  function NewQueue(q: seq<nat>, slot: nat, offset: nat): seq<nat>
    requires |q| == 3
  {
    if slot < 3 then q[0 := q[slot]][slot := q[0]] else [offset] + q[..2]
  }

  predicate Fits(st: Lzx, t: Token)
  {
    match t
    case Byte(_) => st.windowPosn < |st.window|
    case Copy(length, slot, above) => MatchFits(st, Offset(st, slot, above), length)
  }

  function Length(t: Token): nat
  {
    if t.Byte? then 1 else t.length
  }

  // the state after the token, with the reader at c
  function Apply(st: Lzx, t: Token, c: Cursor): (r: Lzx)
    requires StOk(st) && Fits(st, t) && CursorOk(c)
    ensures StOk(r) && r.windowPosn == st.windowPosn + Length(t) && |r.window| == |st.window|
  {
    match t
    case Byte(byte) =>
      st.(window := st.window[st.windowPosn := byte], windowPosn := st.windowPosn + 1, cur := c)
    case Copy(length, slot, above) =>
      var offset := Offset(st, slot, above);
      var q := NewQueue(Queue(st), slot, offset);
      st.(window := CopyMatch(st.window, st.windowPosn, offset, length), windowPosn := st.windowPosn + length,
          R0 := q[0], R1 := q[1], R2 := q[2], cur := c)
  }

  // ---------- reading ----------

  // the stream holds these bits next, and at least 16 bits behind them
  predicate Holds(src: seq<nat>, c: Cursor, bits: seq<nat>, rest: seq<nat>)
  {
    Input(src, c) && Remaining(src, c) == bits + rest && |rest| >= MAX_BITS
  }

  // the reader has come from c to c', and rest follows
  predicate Reached(src: seq<nat>, c: Cursor, c': Cursor, rest: seq<nat>)
  {
    Input(src, c') && Remaining(src, c') == rest && c'.taken % 2 == c.taken % 2 &&
    (c.taken <= |src| ==> c'.taken <= |src|)
  }

  lemma {:induction false} EnsureByWords(src: seq<nat>, c: Cursor, n: nat)
    ensures Ensure(src, c, n).Some? ==> Ensure(src, c, n).value.taken % 2 == c.taken % 2
    ensures Ensure(src, c, n).Some? && c.taken <= |src| ==> Ensure(src, c, n).value.taken <= |src|
    decreases if n > c.left then n - c.left else 0
  {
    if c.left < n && Fetch(src, c).Some? {
      EnsureByWords(src, Fetch(src, c).value, n);
    }
  }

  lemma SymbolIsRead(src: seq<nat>, lens: seq<nat>, c: Cursor, s: nat, rest: seq<nat>)
    requires Writable(lens, s) && Holds(src, c, CodeBits(lens, s), rest)
    ensures Symbol(src, lens, c).Ok?
    ensures var (s', c') := Symbol(src, lens, c).value;
      s' == s && Reached(src, c, c', rest)
  {
    hide Pow2, BitsOf, Remaining, Code, Coded;
    EnsureByWords(src, c, MAX_BITS);
    CodedLength(lens, s);
    PrefixIsDecoded(src, lens, c, s);
    DecodeSymbolIsPrefix(src, lens, c);
  }

  lemma CodedLength(lens: seq<nat>, s: nat)
    requires Coded(lens, s)
    ensures |CodeBits(lens, s)| == lens[s] && s < |lens|
  {
  }

  lemma NumberIsRead(src: seq<nat>, c: Cursor, n: nat, v: nat, rest: seq<nat>)
    requires n <= 17 && v < Pow2(n) && Holds(src, c, BitsOf(v, n), rest)
    ensures Bits(src, c, n).Ok?
    ensures var (v', c') := Bits(src, c, n).value;
      v' == v && Reached(src, c, c', rest)
  {
    hide Pow2, BitsOf, Remaining;
    EnsureByWords(src, c, n);
    ReadBitsIsNextBits(src, c, n);
    BitsOfInjective(ReadBits(src, c, n).value.0, v, n);
  }

  lemma NothingIsRead(src: seq<nat>, c: Cursor, rest: seq<nat>)
    requires Holds(src, c, [], rest)
    ensures Remaining(src, c) == rest
  {
    assert [] + rest == rest;
  }

  lemma LengthIsRead(src: seq<nat>, st: Lzx, length: nat, rest: seq<nat>)
    requires StOk(st) && MIN_MATCH <= length <= MAX_MATCH
    requires LengthHeader(length) == NUM_PRIMARY_LENGTHS ==>
      !st.lengthEmpty && Writable(LengthLens(st), length - MIN_MATCH - NUM_PRIMARY_LENGTHS)
    requires Holds(src, st.cur, LengthBits(st, length), rest)
    ensures MatchLength(src, st, LengthHeader(length)).Ok?
    ensures var (n, c) := MatchLength(src, st, LengthHeader(length)).value;
      n == length && Reached(src, st.cur, c, rest)
  {
    hide Symbol, CodeBits, Writable, Remaining, Input, Pow2;
    if LengthHeader(length) == NUM_PRIMARY_LENGTHS {
      SymbolIsRead(src, LengthLens(st), st.cur, length - MIN_MATCH - NUM_PRIMARY_LENGTHS, rest);
    } else {
      NothingIsRead(src, st.cur, rest);
    }
  }

  lemma SmallNumbers()
    ensures Pow2(3) == 8 && Pow2(0) == 1
  {
  }

  // the bits above the low three
  lemma HighBits(above: nat, extra: nat)
    requires extra >= 3 && above < Pow2(extra)
    ensures above / 8 < Pow2(extra - 3)
  {
    SmallNumbers();
    Pow2Add(extra - 3, 3);
    hide Pow2;
  }

  lemma LongOffsetIsRead(src: seq<nat>, st: Lzx, slot: nat, above: nat, rest: seq<nat>)
    requires StOk(st) && slot >= 4 && above < Pow2(ExtraBits(slot))
    requires UsesAligned(st, slot) ==> Writable(st.alignedLens, above % 8)
    requires Holds(src, st.cur, OffsetBits(st, slot, above), rest)
    ensures LongOffset(src, st, slot).Ok?
    ensures var (offset, c) := LongOffset(src, st, slot).value;
      offset == PositionBase(slot) - 2 + above && Reached(src, st.cur, c, rest)
  {
    hide Symbol, Bits, BitsOf, CodeBits, Writable, Remaining, PositionBase, Pow2;
    var extra := ExtraBits(slot);
    if UsesAligned(st, slot) {
      HighBits(above, extra);
      SmallNumbers();
      var high, low := BitsOf(above / 8, extra - 3), CodeBits(st.alignedLens, above % 8);
      assert high + low + rest == high + (low + rest);
      var c := st.cur;
      if extra > 3 {
        NumberIsRead(src, st.cur, extra - 3, above / 8, low + rest);
        c := Bits(src, st.cur, extra - 3).value.1;
      } else {
        assert high == [];
        NothingIsRead(src, st.cur, low + rest);
      }
      SymbolIsRead(src, st.alignedLens, c, above % 8, rest);
    } else {
      NumberIsRead(src, st.cur, extra, above, rest);
    }
  }

  lemma OffsetIsRead(src: seq<nat>, st: Lzx, slot: nat, above: nat, rest: seq<nat>)
    requires StOk(st)
    requires slot >= 4 ==>
      above < Pow2(ExtraBits(slot)) && (UsesAligned(st, slot) ==> Writable(st.alignedLens, above % 8))
    requires Holds(src, st.cur, OffsetBits(st, slot, above), rest)
    ensures MatchOffset(src, st, slot).Ok?
    ensures var (offset, st') := MatchOffset(src, st, slot).value;
      offset == Offset(st, slot, above) && Queue(st') == NewQueue(Queue(st), slot, offset) &&
      Reached(src, st.cur, st'.cur, rest)
  {
    hide LongOffset, BitsOf, CodeBits, Writable, Remaining, PositionBase, Pow2, UsesAligned, ExtraBits;
    if slot >= 4 {
      LongOffsetIsRead(src, st, slot, above, rest);
    } else {
      NothingIsRead(src, st.cur, rest);
    }
  }

  // a match whose length and offset are known
  lemma MatchOf(src: seq<nat>, st: Lzx, t: Token, c1: Cursor, st2: Lzx)
    requires IsBytes(src) && StOk(st) && t.Copy? && t.length >= MIN_MATCH && Fits(st, t) && StOk(st.(cur := c1))
    requires MatchLength(src, st, LengthHeader(t.length)) == Ok((t.length, c1))
    requires MatchOffset(src, st.(cur := c1), t.slot) == Ok((Offset(st, t.slot, t.above), st2))
    requires Queue(st2) == NewQueue(Queue(st), t.slot, Offset(st, t.slot, t.above)) && CursorOk(st2.cur)
    ensures Match(src, st, 8 * t.slot + LengthHeader(t.length)) == Ok(Apply(st, t, st2.cur))
    ensures Apply(st, t, st2.cur).cur == st2.cur
  {
    hide MatchLength, MatchOffset, Pow2, CopyMatch, StOk, Offset, LzxSpec.Ahead, MatchFits, NewQueue, Decoded, CursorOk;
    DivUnique(8 * t.slot + LengthHeader(t.length), 8, t.slot, LengthHeader(t.length));
  }

  // A match is read back: its length, then its offset, and then it is copied.
  lemma MatchIsRead(src: seq<nat>, st: Lzx, t: Token, rest: seq<nat>)
    requires StOk(st) && t.Copy? && TokenOk(st, t) && Fits(st, t)
    requires Holds(src, st.cur, LengthBits(st, t.length) + OffsetBits(st, t.slot, t.above), rest)
    ensures Match(src, st, 8 * t.slot + LengthHeader(t.length)).Ok?
    ensures var st' := Match(src, st, 8 * t.slot + LengthHeader(t.length)).value;
      st' == Apply(st, t, st'.cur) && Reached(src, st.cur, st'.cur, rest)
  {
    hide Match, MatchLength, MatchOffset, LengthBits, OffsetBits, Writable, Remaining, Pow2, Apply, Fits, UsesAligned,
      ExtraBits, StOk, Queue,
      PositionBase, Offset, NewQueue, Decoded, LzxSpec.Ahead, MainSymbol, MainLens, LengthLens;
    var length, offset := LengthBits(st, t.length), OffsetBits(st, t.slot, t.above);
    assert length + offset + rest == length + (offset + rest);
    LengthIsRead(src, st, t.length, offset + rest);
    var c1 := MatchLength(src, st, LengthHeader(t.length)).value.1;
    var st1 := st.(cur := c1);
    StillOk(st, c1);
    SameBits(st, c1, t);
    OffsetIsRead(src, st1, t.slot, t.above, rest);
    MatchOf(src, st, t, c1, MatchOffset(src, st1, t.slot).value.1);
  }

  lemma MainSymbolOk(st: Lzx, t: Token)
    requires StOk(st) && TokenOk(st, t)
    ensures Writable(MainLens(st), MainSymbol(t)) && MainSymbol(t) < |MainLens(st)|
  {
    hide Pow2, Code;
  }

  lemma CurOk(st: Lzx)
    requires StOk(st)
    ensures CursorOk(st.cur)
  {
    hide Pow2;
  }

  lemma StillOk(st: Lzx, c: Cursor)
    requires StOk(st) && CursorOk(c)
    ensures StOk(st.(cur := c))
  {
    hide Pow2;
  }

  // where the reader stands does not matter for what is to be written
  lemma SameBits(st: Lzx, c: Cursor, t: Token)
    requires StOk(st) && StOk(st.(cur := c))
    ensures TokenOk(st.(cur := c), t) == TokenOk(st, t)
    ensures t.Copy? ==> OffsetBits(st.(cur := c), t.slot, t.above) == OffsetBits(st, t.slot, t.above)
    ensures t.Copy? && TokenOk(st, t) ==> LengthBits(st.(cur := c), t.length) == LengthBits(st, t.length)
    ensures t.Copy? ==> Offset(st.(cur := c), t.slot, t.above) == Offset(st, t.slot, t.above)
    ensures t.Copy? ==> UsesAligned(st.(cur := c), t.slot) == UsesAligned(st, t.slot)
    ensures Fits(st.(cur := c), t) == Fits(st, t) && Queue(st.(cur := c)) == Queue(st)
    ensures Fits(st, t) ==> forall c' :: CursorOk(c') ==> Apply(st.(cur := c), t, c') == Apply(st, t, c')
  {
    hide Pow2, StOk, CopyMatch, CodeBits, BitsOf, Writable, PositionBase;
  }

  // What was written for a token is read back as that token, and nothing else is used up.
  lemma TokenIsRead(src: seq<nat>, st: Lzx, t: Token, rest: seq<nat>)
    requires StOk(st) && TokenOk(st, t) && Fits(st, t) && st.windowPosn < |st.window|
    requires Holds(src, st.cur, TokenBits(st, t), rest)
    ensures Element(src, st).Ok?
    ensures var st' := Element(src, st).value;
      st' == Apply(st, t, st'.cur) && Reached(src, st.cur, st'.cur, rest)
  {
    hide Match, Symbol, CodeBits, LengthBits, OffsetBits, Writable, Remaining, Pow2, CopyMatch, StOk;
    MainSymbolOk(st, t);
    var main := CodeBits(MainLens(st), MainSymbol(t));
    if t.Byte? {
      assert main + [] == main;
      SymbolIsRead(src, MainLens(st), st.cur, MainSymbol(t), rest);
    } else {
      var others := LengthBits(st, t.length) + OffsetBits(st, t.slot, t.above);
      assert main + others + rest == main + (others + rest);
      SymbolIsRead(src, MainLens(st), st.cur, MainSymbol(t), others + rest);
      var c := Symbol(src, MainLens(st), st.cur).value.1;
      StillOk(st, c);
      SameBits(st, c, t);
      MatchIsRead(src, st.(cur := c), t, rest);
    }
  }

  // ---------- a run of tokens ----------

  function TotalLength(ts: seq<Token>): nat
  {
    if ts == [] then 0 else Length(ts[0]) + TotalLength(ts[1..])
  }

  // can all tokens be written, one after the other, and do they fit in the window?
  predicate TokensOk(st: Lzx, ts: seq<Token>)
    requires StOk(st)
    decreases |ts|
  {
    ts == [] ||
    (TokenOk(st, ts[0]) && Fits(st, ts[0]) && st.windowPosn < |st.window| &&
     TokensOk(Apply(st, ts[0], st.cur), ts[1..]))
  }

  function TokensBits(st: Lzx, ts: seq<Token>): seq<Bit>
    requires StOk(st) && TokensOk(st, ts)
    decreases |ts|
  {
    if ts == [] then [] else TokenBits(st, ts[0]) + TokensBits(Apply(st, ts[0], st.cur), ts[1..])
  }

  // the state after all of them, with the reader where it was
  function ApplyAll(st: Lzx, ts: seq<Token>): Lzx
    requires StOk(st) && TokensOk(st, ts)
    decreases |ts|
  {
    if ts == [] then st else ApplyAll(Apply(st, ts[0], st.cur), ts[1..])
  }

  lemma {:induction false} ApplyAllKeeps(st: Lzx, ts: seq<Token>)
    requires StOk(st) && TokensOk(st, ts)
    ensures StOk(ApplyAll(st, ts)) && Decoded(st, ApplyAll(st, ts)) && ApplyAll(st, ts).cur == st.cur
    ensures ApplyAll(st, ts).windowPosn == st.windowPosn + TotalLength(ts)
    ensures |ApplyAll(st, ts).window| == |st.window|
    decreases |ts|
  {
    hide Pow2, StOk, TokenOk, Fits, CopyMatch;
    CurOk(st);
    if ts != [] {
      ApplyAllKeeps(Apply(st, ts[0], st.cur), ts[1..]);
    }
  }

  // where the reader stands does not matter for what the tokens mean
  lemma {:induction false} SameMeaning(st: Lzx, c: Cursor, ts: seq<Token>)
    requires StOk(st) && CursorOk(c) && TokensOk(st, ts)
    ensures StOk(st.(cur := c)) && TokensOk(st.(cur := c), ts)
    ensures TokensBits(st.(cur := c), ts) == TokensBits(st, ts)
    ensures ApplyAll(st.(cur := c), ts) == ApplyAll(st, ts).(cur := c)
    decreases |ts|
  {
    hide Pow2, StOk, CodeBits, BitsOf, Writable, CopyMatch, TokenOk, TokenBits, Fits, Apply;
    StillOk(st, c);
    CurOk(st);
    if ts != [] {
      SameToken(st, c, ts[0]);
      SameMeaning(Apply(st, ts[0], st.cur), c, ts[1..]);
    }
  }

  lemma SameToken(st: Lzx, c: Cursor, t: Token)
    requires StOk(st) && CursorOk(c) && TokenOk(st, t) && Fits(st, t)
    ensures StOk(st.(cur := c)) && TokenOk(st.(cur := c), t) && Fits(st.(cur := c), t)
    ensures TokenBits(st.(cur := c), t) == TokenBits(st, t)
    ensures Apply(st.(cur := c), t, c) == Apply(st, t, st.cur).(cur := c)
  {
    hide Pow2, StOk, CodeBits, BitsOf, Writable, CopyMatch;
    StillOk(st, c);
    SameBits(st, c, t);
  }

  // Whatever tokens were written, the decoder gets back what they mean, and stands behind them.
  lemma {:induction false} TokensAreRead(src: seq<nat>, st: Lzx, ts: seq<Token>, rest: seq<nat>)
    requires StOk(st) && TokensOk(st, ts) && st.windowPosn + TotalLength(ts) <= |st.window|
    requires Holds(src, st.cur, TokensBits(st, ts), rest)
    ensures Run(src, st, TotalLength(ts)).Ok?
    ensures var (st', left) := Run(src, st, TotalLength(ts)).value;
      left == 0 && st' == ApplyAll(st, ts).(cur := st'.cur) &&
      Reached(src, st.cur, st'.cur, rest)
    decreases |ts|
  {
    hide Pow2, StOk, Element, TokenOk, TokenBits, Fits, Apply, Remaining;
    CurOk(st);
    if ts == [] {
      NothingIsRead(src, st.cur, rest);
    } else {
      var t := ts[0];
      var st0 := Apply(st, t, st.cur);
      var later := TokensBits(st0, ts[1..]);
      assert TokenBits(st, t) + later + rest == TokenBits(st, t) + (later + rest);
      TokenIsRead(src, st, t, later + rest);
      var st1 := Element(src, st).value;
      SameApply(st, t, st1.cur);
      SameMeaning(st0, st1.cur, ts[1..]);
      TokensAreRead(src, st1, ts[1..], rest);
    }
  }

  lemma SameApply(st: Lzx, t: Token, c: Cursor)
    requires StOk(st) && Fits(st, t) && CursorOk(c)
    ensures Apply(st, t, c) == Apply(st, t, st.cur).(cur := c)
  {
    hide Pow2, StOk, CopyMatch;
  }
}
