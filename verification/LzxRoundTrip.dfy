// The decoder reads back every stream that LzxEncode writes.
module LzxRoundTrip {
  import opened Wrappers
  import opened Powers
  import opened BitStream
  import opened BitPack
  import opened LzxSpec
  import opened LzxTokens
  import opened LzxBlocks
  import opened LzxProps
  import opened LzxEncode

  // ---------- places in the input ----------

  // The reader is at c: the bits of the code come next, up to byte k, and then its bytes and the tail.
  predicate At(src: seq<nat>, c: Cursor, k: nat, code: Code, tail: seq<nat>)
  {
    Input(src, c) && c.taken <= |src| && k <= |src| && c.taken % 2 == k % 2 && |tail| >= 2 &&
    Remaining(src, c) == code.bits + WordBits(src, k) && src[k..] == code.bytes + tail
  }

  lemma {:induction false} WordBitsLength(src: seq<nat>, k: nat)
    ensures |WordBits(src, k)| == if k <= |src| then 16 * ((|src| - k) / 2) else 0
    decreases |src| - k
  {
    if k + 2 <= |src| {
      WordBitsLength(src, k + 2);
    }
  }

  lemma TailBits(src: seq<nat>, k: nat, bytes: seq<nat>, tail: seq<nat>)
    requires k <= |src| && src[k..] == bytes + tail && |tail| >= 2
    ensures k + 2 <= |src| && |WordBits(src, k)| >= 16
  {
    assert |src[k..]| >= 2;
    WordBitsLength(src, k);
  }

  // as many bits left as there are before byte k: the reader has taken the words up to there
  lemma TakenUpTo(src: seq<nat>, c: Cursor, k: nat, n: nat)
    requires k + 2 <= |src| && c.taken % 2 == k % 2 && c.left == n && |Remaining(src, c)| == n + |WordBits(src, k)|
    ensures c.taken == k
  {
    hide WordBits, BitsOf;
    WordBitsLength(src, k);
    WordBitsLength(src, c.taken);
    HalfOfEven(|src|, c.taken, k);
  }

  lemma BytesNext(src: seq<nat>, c: Cursor, k: nat, code: Code, tail: seq<nat>)
    requires At(src, c, k, code, tail) && code.bits == [] && c.left == 0
    ensures c == Cursor(k, 0, 0)
  {
    TailBits(src, k, code.bytes, tail);
    TakenUpTo(src, c, k, 0);
  }

  // a byte position at which packed code starts
  lemma FlushNext(src: seq<nat>, k: nat, code: Code, tail: seq<nat>) returns (k': nat)
    requires IsBytes(src) && k <= |src| && FillsWords(0, code) && src[k..] == Flush(code) + tail && |tail| >= 2
    ensures At(src, Cursor(k, 0, 0), k', code, tail)
    ensures k' <= |src| && k' % 2 == k % 2 && src[k'..] == code.bytes + tail
    ensures WordBits(src, k) == code.bits + WordBits(src, k')
  {
    hide WordBits, Words;
    assert Words(code.bits) + code.bytes + tail == Words(code.bits) + (code.bytes + tail);
    WordsHoldBits(src, k, code.bits, code.bytes + tail);
    k' := k + |code.bits| / 8;
    EvenBytes(|code.bits|, k);
    assert BitsOf(0, 0) == [];
    assert [] + WordBits(src, k) == WordBits(src, k);
  }

  lemma EvenBytes(n: nat, k: nat)
    requires n % 16 == 0
    ensures (k + n / 8) % 2 == k % 2
  {
  }

  lemma TakeBytes(src: seq<nat>, k: nat, b: seq<nat>, rest: seq<nat>)
    requires k <= |src| && src[k..] == b + rest
    ensures k + |b| <= |src| && src[k..k + |b|] == b && src[k + |b|..] == rest
  {
    assert |src[k..]| == |b| + |rest|;
    assert src[k..k + |b|] == src[k..][..|b|];
    assert src[k + |b|..] == src[k..][|b|..];
  }

  // ---------- the header of a part ----------

  // behind the padding byte, if there is one
  lemma PadIsRead(src: seq<nat>, c: Cursor, k: nat, bits: seq<Bit>, raw: Option<seq<nat>>, pad: bool, m: nat,
                  next: Code, tail: seq<nat>) returns (k': nat)
    requires (m + |bits| + if raw.None? then |next.bits| else 0) % 16 == 0
    requires (raw.Some? ==> FillsWords(0, next)) && (pad ==> m == 0 && c.left == 0)
    requires At(src, c, k, Pack(bits, raw, pad, m, next), tail)
    ensures Padded(c, pad).taken <= |src| && Input(src, Padded(c, pad))
    ensures At(src, Padded(c, pad), k', Pack(bits, raw, false, m, next), tail)
    ensures !pad ==> k' == k
  {
    hide Words, WordBits, Remaining;
    k' := k;
    if pad {
      BytesNext(src, c, k, Pack(bits, raw, pad, m, next), tail);
      var body := Pack(bits, raw, false, m, next);
      assert [0] + Flush(body) + tail == [0] + (Flush(body) + tail);
      TakeBytes(src, k, [0], Flush(body) + tail);
      k' := FlushNext(src, k + 1, body, tail);
    }
  }

  // ---------- compressed parts ----------

  function HeadPart(st: Lzx, part: Part): seq<Bit>
    requires StOk(st) && HeaderOk(st, part) && part.Compressed?
  {
    if part.head.Some? then HeadBits(st, part.head.value) else []
  }

  lemma SameHead(st: Lzx, c: Cursor, h: Head, c': Cursor)
    requires StOk(st) && CursorOk(c) && HeadOk(st, h)
    ensures StOk(st.(cur := c)) && HeadOk(st.(cur := c), h) && HeadBits(st.(cur := c), h) == HeadBits(st, h)
    ensures Begun(st.(cur := c), h, c') == Begun(st, h, st.cur).(cur := c')
  {
    StillOk(st, c);
    HeadSame(st, st.(cur := c), h);
    hide StOk, TreesOk, RunsOk, MainOf, LengthsOf, TreesBits, AlignedBits, StartBits, AlignedOk;
  }

  lemma HeaderOfPart(src: seq<nat>, st: Lzx, c: Cursor, part: Part, rest: seq<Bit>) returns (c1: Cursor)
    requires StOk(st) && Input(src, c) && HeaderOk(st, part) && part.Compressed?
    requires Padded(c, New(part) && NeedsPad(st)).taken <= |src|
    requires Holds(src, Padded(c, New(part) && NeedsPad(st)), HeadPart(st, part), rest)
    ensures StOk(st.(cur := c)) && NewBlock(src, st.(cur := c)) == Ok(Entered(st, part).(cur := c1))
    ensures Reached(src, Padded(c, New(part) && NeedsPad(st)), c1, rest)
  {
    hide StOk, HeadOk, HeadBits, Begun, ReadBlock, Remaining, LzxSpec.Ahead, SamePlace;
    StillOk(st, c);
    if part.head.Some? {
      SameHead(st, c, part.head.value, c);
      HeadIsRead(src, st.(cur := c), part.head.value, rest);
      c1 := NewBlock(src, st.(cur := c)).value.cur;
      SameHead(st, c, part.head.value, c1);
    } else {
      c1 := c;
      NothingIsRead(src, c, rest);
    }
  }

  lemma RunOfTokens(src: seq<nat>, st: Lzx, c: Cursor, tokens: seq<Token>, rest: seq<Bit>) returns (c': Cursor)
    requires StOk(st) && (st.blockType == VERBATIM || st.blockType == ALIGNED) && TotalLength(tokens) <= st.blockRemaining
    requires StOk(Less(st, TotalLength(tokens))) && TokensOk(Less(st, TotalLength(tokens)), tokens)
    requires st.windowPosn + TotalLength(tokens) <= |st.window|
    requires Holds(src, c, TokensBits(Less(st, TotalLength(tokens)), tokens), rest)
    ensures StOk(st.(cur := c)) && Reached(src, c, c', rest)
    ensures RunOfBlock(src, st.(cur := c), TotalLength(tokens)) ==
            Ok(ApplyAll(Less(st, TotalLength(tokens)), tokens).(cur := c'))
  {
    hide StOk, TokensOk, TokensBits, ApplyAll, Run, Remaining, LzxSpec.Ahead, Decoded;
    StillOk(st, c);
    var n := TotalLength(tokens);
    var st0 := Less(st, n);
    SameMeaning(st0, c, tokens);
    TokensAreRead(src, st0.(cur := c), tokens, rest);
    var st2 := Run(src, st0.(cur := c), n).value.0;
    c' := st2.cur;
    SameBlockType(st0, tokens);
    assert st2.(blockRemaining := st2.blockRemaining + 0) == st2;
  }

  lemma SameBlockType(st: Lzx, tokens: seq<Token>)
    requires StOk(st) && TokensOk(st, tokens)
    ensures ApplyAll(st, tokens).blockRemaining == st.blockRemaining && ApplyAll(st, tokens).blockType == st.blockType
  {
    ApplyAllKeeps(st, tokens);
  }

  // A compressed part is read back, and the next code follows.
  lemma CompressedIsRead(src: seq<nat>, st: Lzx, c: Cursor, part: Part, todo: nat, m: nat, next: Code, k: nat,
          tail: seq<nat>)
    returns (c': Cursor)
    requires StOk(st) && todo > 0 && st.windowPosn + todo <= |st.window| && Input(src, c) && part.Compressed?
    requires PartOk(st, part, todo)
    requires At(src, Padded(c, New(part) && NeedsPad(st)), k,
                Code(PartBits(st, part, todo, m) + next.bits, next.bytes), tail)
    ensures StOk(st.(cur := c)) && At(src, c', k, next, tail)
    ensures BlockStep(src, st.(cur := c), todo) == Ok((After(st, part, todo).(cur := c'), todo - Size(part)))
  {
    hide StOk, HeaderOk, TokensOk, TokensBits, HeadPart, Entered, ApplyAll, RunOfBlock, NewBlock, Remaining, WordBits,
      PartBits, After,
      LzxSpec.Ahead, SameFrame, SamePlace;
    var c0 := Padded(c, New(part) && NeedsPad(st));
    PartBitsAre(st, part, todo, m);
    var n := Size(part);
    var st1 := Entered(st, part);
    var head, tokens := HeadPart(st, part), TokensBits(Less(st1, n), part.tokens);
    var rest := next.bits + WordBits(src, k);
    TailBits(src, k, next.bytes, tail);
    assert head + tokens + next.bits + WordBits(src, k) == head + (tokens + rest);
    var c1 := HeaderOfPart(src, st, c, part, tokens + rest);
    EnteredKeeps(st, part);
    c' := RunOfTokens(src, st1, c1, part.tokens, rest);
  }

  lemma PartBitsAre(st: Lzx, part: Part, todo: nat, m: nat)
    requires StOk(st) && PartOk(st, part, todo) && part.Compressed?
    ensures HeaderOk(st, part)
    ensures PartBits(st, part, todo, m) == HeadPart(st, part) + TokensBits(Less(Entered(st, part), Size(part)), part.tokens)
    ensures After(st, part, todo) == ApplyAll(Less(Entered(st, part), Size(part)), part.tokens)
  {
    hide StOk, HeaderOk, TokensOk, TokensBits, Entered, ApplyAll;
  }

  // ---------- uncompressed parts ----------

  // dropping 1 to 16 bits leads to byte k
  lemma AlignsTo(src: seq<nat>, c: Cursor, k: nat, g: nat)
    requires Input(src, c) && c.left <= 15 && c.taken % 2 == k % 2 && k + 2 <= |src| && 1 <= g <= 16
    requires Remaining(src, c) == ZeroBits(g) + WordBits(src, k)
    ensures var e := if c.left == 0 then Ensure(src, c, 16) else Some(c); e.Some? && e.value.taken == k
  {
    hide Input, WordBits, BitsOf, Ensure;
    WordBitsLength(src, k);
    WordBitsLength(src, c.taken);
    assert c.left + |WordBits(src, c.taken)| == g + |WordBits(src, k)|;
    SameWords(|src|, c.taken, k, c.left, g);
    if c.left == 0 {
      EnsuredWord(src, c);
    }
  }

  lemma EnsuredWord(src: seq<nat>, c: Cursor)
    requires c.left == 0 && c.taken + 2 <= |src|
    ensures Ensure(src, c, 16).Some? && Ensure(src, c, 16).value.taken == c.taken + 2
  {
    hide Word, Shl;
    var c1 := Fetch(src, c).value;
    assert Ensure(src, c1, 16) == Some(c1);
  }

  // the words behind a, with l bits before them, are as many bits as those behind b with g bits before
  lemma SameWords(n: nat, a: nat, b: nat, l: nat, g: nat)
    requires b + 2 <= n && a % 2 == b % 2 && l <= 15 && 1 <= g <= 16
    requires l + (if a <= n then 16 * ((n - a) / 2) else 0) == g + 16 * ((n - b) / 2)
    ensures if l == 0 then a + 2 <= n && a + 2 == b else a == b
  {
    HalfOfEven(n, a, b);
  }

  lemma HalfOfEven(n: nat, a: nat, b: nat)
    requires b <= n && a % 2 == b % 2
    ensures a <= n ==> b == a + 2 * ((n - a) / 2 - (n - b) / 2)
  {
  }

  lemma OffsetsBack(h: RawHead)
    requires h.R0 < IntelE8.TWO32 && h.R1 < IntelE8.TWO32 && h.R2 < IntelE8.TWO32
    ensures LittleEndian(OffsetBytes(h), 0) == h.R0 && LittleEndian(OffsetBytes(h), 4) == h.R1
    ensures LittleEndian(OffsetBytes(h), 8) == h.R2
  {
    FourBack(h.R0);
    FourBack(h.R1);
    FourBack(h.R2);
    hide IntelE8.ToBytes;
    var b := OffsetBytes(h);
    assert forall i :: 0 <= i < 4 ==> b[i] == IntelE8.ToBytes(h.R0)[i];
    assert forall i :: 0 <= i < 4 ==> b[i + 4] == IntelE8.ToBytes(h.R1)[i];
    assert forall i :: 0 <= i < 4 ==> b[i + 8] == IntelE8.ToBytes(h.R2)[i];
  }

  lemma FourBack(v: nat)
    requires v < IntelE8.TWO32
    ensures LittleEndian(IntelE8.ToBytes(v), 0) == v
  {
    IntelE8.Shifts(v);
  }

  // block type, length, alignment and offsets of an uncompressed block
  lemma RawHeaderIsRead(src: seq<nat>, st: Lzx, c: Cursor, h: RawHead, g: nat, k: nat, more: seq<nat>, tail: seq<nat>)
    requires StOk(st) && st.blockRemaining == 0 && Input(src, c) && HeaderOk(st, Raw(Some(h), [])) && 1 <= g <= 16
    requires At(src, Padded(c, NeedsPad(st)), k,
                Code(StartBits(UNCOMPRESSED, h.length) + ZeroBits(g), OffsetBytes(h) + more), tail)
    ensures StOk(st.(cur := c)) && k + 12 <= |src| && src[k + 12..] == more + tail
    ensures NewBlock(src, st.(cur := c)) == Ok(RawBegun(st, h).(cur := Cursor(k + 12, 0, 0)))
  {
    hide StOk, StartBits, OffsetBytes, Remaining, WordBits, LzxSpec.Ahead, SamePlace, SameBlock, BlockNumbers,
      LittleEndian, Ensure, Pow2;
    StillOk(st, c);
    var bytes := OffsetBytes(h) + more;
    TailBits(src, k, bytes, tail);
    var start := StartBits(UNCOMPRESSED, h.length);
    assert start + ZeroBits(g) + WordBits(src, k) == start + (ZeroBits(g) + WordBits(src, k));
    NumbersOfBlock(src, c, NeedsPad(st), UNCOMPRESSED, h.length, ZeroBits(g) + WordBits(src, k));
    AlignDropsOneWord(src, st.(cur := c));
    var c1 := BlockNumbers(src, c, NeedsPad(st)).value.1;
    AlignsTo(src, c1, k, g);
    assert OffsetBytes(h) + more + tail == OffsetBytes(h) + (more + tail);
    TakeBytes(src, k, OffsetBytes(h), more + tail);
    OffsetsBack(h);
    assert StoredOffsets(src, c1) == Ok(([h.R0, h.R1, h.R2], Cursor(k + 12, 0, 0)));
  }

  lemma RawDataIsRead(src: seq<nat>, st: Lzx, k: nat, data: seq<nat>, rest: seq<nat>)
    requires IsBytes(src) && StOk(st) && st.blockType == UNCOMPRESSED && |data| <= st.blockRemaining
    requires st.windowPosn + |data| <= |st.window| && k <= |src| && src[k..] == data + rest
    ensures StOk(st.(cur := Cursor(k, 0, 0))) && k + |data| <= |src| && src[k + |data|..] == rest
    ensures RunOfBlock(src, st.(cur := Cursor(k, 0, 0)), |data|) ==
            Ok(Less(st, |data|).(window := Spliced(st.window, st.windowPosn, data), windowPosn := st.windowPosn + |data|,
                                 cur := Cursor(k + |data|, 0, 0)))
  {
    hide LzxSpec.Ahead, Spliced;
    TakeBytes(src, k, data, rest);
  }

  lemma SameStart(st: Lzx, start: Option<RawHead>, data: seq<nat>)
    requires StOk(st) && HeaderOk(st, Raw(start, data))
    ensures HeaderOk(st, Raw(start, []))
  {
    hide StOk;
  }

  // an uncompressed part behind its header
  lemma RawBodyIsRead(src: seq<nat>, st: Lzx, c: Cursor, part: Part, todo: nat, next: Code, j: nat, tail: seq<nat>)
    returns (c': Cursor, k': nat)
    requires StOk(st) && todo > 0 && st.windowPosn + todo <= |st.window| && part.Raw? && PartOk(st, part, todo)
    requires Input(src, c) && StOk(st.(cur := c))
    requires NewBlock(src, st.(cur := c)) == Ok(Entered(st, part).(cur := Cursor(j, 0, 0)))
    requires FillsWords(0, next) && |tail| >= 2 && j <= |src| && src[j..] == part.data + (Flush(next) + tail)
    ensures At(src, c', k', next, tail) && c'.left == 0
    ensures BlockStep(src, st.(cur := c), todo) == Ok((After(st, part, todo).(cur := c'), todo - Size(part)))
  {
    hide StOk, HeaderOk, Entered, Flush, NewBlock, RunOfBlock, WordBits, Remaining, LzxSpec.Ahead, SameFrame,
      SamePlace, Spliced;
    EnteredKeeps(st, part);
    var n := |part.data|;
    RawDataIsRead(src, Entered(st, part), j, part.data, Flush(next) + tail);
    c' := Cursor(j + n, 0, 0);
    k' := FlushNext(src, j + n, next, tail);
  }

  // the first part of an uncompressed block
  lemma RawStartIsRead(src: seq<nat>, st: Lzx, c: Cursor, part: Part, todo: nat, m: nat, next: Code, k: nat,
          tail: seq<nat>)
    returns (j: nat)
    requires StOk(st) && Input(src, c) && part.Raw? && part.start.Some? && PartOk(st, part, todo) && FillsWords(0, next)
    requires At(src, Padded(c, NeedsPad(st)), k, Code(PartBits(st, part, todo, m), RawBytes(part) + Flush(next)), tail)
    ensures StOk(st.(cur := c)) && NewBlock(src, st.(cur := c)) == Ok(Entered(st, part).(cur := Cursor(j, 0, 0)))
    ensures j <= |src| && src[j..] == part.data + (Flush(next) + tail)
  {
    hide StOk, OffsetBytes, StartBits, Flush, RawGap, WordBits, Remaining, LzxSpec.Ahead, BlockStep, After, NewBlock;
    StillOk(st, c);
    var h, more := part.start.value, Flush(next);
    SameStart(st, part.start, part.data);
    assert OffsetBytes(h) + part.data + more == OffsetBytes(h) + (part.data + more);
    RawHeaderIsRead(src, st, c, h, RawGap(m), k, part.data + more, tail);
    assert part.data + more + tail == part.data + (more + tail);
    j := k + 12;
  }

  // An uncompressed part is read back, and the next code follows.
  lemma RawIsRead(src: seq<nat>, st: Lzx, c: Cursor, part: Part, todo: nat, m: nat, next: Code, k: nat, tail: seq<nat>)
    returns (c': Cursor, k': nat)
    requires StOk(st) && todo > 0 && st.windowPosn + todo <= |st.window| && Input(src, c) && part.Raw?
    requires PartOk(st, part, todo) && (st.blockType == UNCOMPRESSED ==> c.left == 0) && FillsWords(0, next)
    requires At(src, Padded(c, New(part) && NeedsPad(st)), k,
                Code(PartBits(st, part, todo, m), RawBytes(part) + Flush(next)), tail)
    ensures StOk(st.(cur := c)) && At(src, c', k', next, tail) && c'.left == 0
    ensures BlockStep(src, st.(cur := c), todo) == Ok((After(st, part, todo).(cur := c'), todo - Size(part)))
  {
    if part.start.Some? {
      hide StOk, PartOk, PartBits, RawBytes, Entered, Flush, At, LzxSpec.Ahead, BlockStep, After, NewBlock;
      var j := RawStartIsRead(src, st, c, part, todo, m, next, k, tail);
      TailIsLong(src, Padded(c, New(part) && NeedsPad(st)), k, Code(PartBits(st, part, todo, m), RawBytes(part) + Flush(next)), tail);
      c', k' := RawBodyIsRead(src, st, c, part, todo, next, j, tail);
    } else {
      c', k' := RawRestIsRead(src, st, c, part, todo, m, next, k, tail);
    }
  }

  lemma TailIsLong(src: seq<nat>, c: Cursor, k: nat, code: Code, tail: seq<nat>)
    requires At(src, c, k, code, tail)
    ensures |tail| >= 2
  {
    hide Remaining, WordBits;
  }

  // a further part of an uncompressed block
  lemma RawRestIsRead(src: seq<nat>, st: Lzx, c: Cursor, part: Part, todo: nat, m: nat, next: Code, k: nat,
          tail: seq<nat>)
    returns (c': Cursor, k': nat)
    requires StOk(st) && todo > 0 && st.windowPosn + todo <= |st.window| && Input(src, c) && part.Raw?
    requires part.start.None?
    requires PartOk(st, part, todo) && c.left == 0 && FillsWords(0, next)
    requires At(src, c, k, Code(PartBits(st, part, todo, m), RawBytes(part) + Flush(next)), tail)
    ensures StOk(st.(cur := c)) && At(src, c', k', next, tail) && c'.left == 0
    ensures BlockStep(src, st.(cur := c), todo) == Ok((After(st, part, todo).(cur := c'), todo - Size(part)))
  {
    hide StOk, Flush, WordBits, Remaining, LzxSpec.Ahead, BlockStep, After;
    StillOk(st, c);
    var more := Flush(next);
    BytesNext(src, c, k, Code(PartBits(st, part, todo, m), RawBytes(part) + more), tail);
    assert [] + part.data + more + tail == part.data + (more + tail);
    c', k' := RawBodyIsRead(src, st, c, part, todo, next, k, tail);
  }

  // Any part is read back.
  lemma PartIsRead(src: seq<nat>, st: Lzx, c: Cursor, part: Part, todo: nat, m: nat, next: Code, k: nat, tail: seq<nat>)
    returns (c': Cursor, k': nat)
    requires StOk(st) && todo > 0 && st.windowPosn + todo <= |st.window| && PartOk(st, part, todo)
    requires (st.blockType == UNCOMPRESSED ==> m == 0 && c.left == 0) && FillsWords(NextM(st, part, todo, m), next)
    requires At(src, c, k, PartCode(st, part, todo, m, next), tail)
    ensures StOk(st.(cur := c)) && At(src, c', k', next, tail) && (part.Raw? ==> c'.left == 0)
    ensures BlockStep(src, st.(cur := c), todo) == Ok((After(st, part, todo).(cur := c'), todo - Size(part)))
  {
    hide StOk, PartOk, PartBits, Pack, Flush, WordBits, Remaining, LzxSpec.Ahead, BlockStep, After, RawBytes;
    BodyAligned(st, part, todo, m, next);
    var bits, pad := PartBits(st, part, todo, m), New(part) && NeedsPad(st);
    var k1 := PadIsRead(src, c, k, bits, RawPart(part), pad, m, next, tail);
    Unpadded(bits, RawPart(part), m, next);
    if part.Compressed? {
      k' := k1;
      c' := CompressedIsRead(src, st, c, part, todo, m, next, k1, tail);
    } else {
      c', k' := RawIsRead(src, st, c, part, todo, m, next, k1, tail);
    }
  }

  lemma Unpadded(bits: seq<Bit>, raw: Option<seq<nat>>, m: nat, next: Code)
    requires (m + |bits| + if raw.None? then |next.bits| else 0) % 16 == 0 && (raw.Some? ==> FillsWords(0, next))
    ensures Pack(bits, raw, false, m, next) ==
            if raw.None? then Code(bits + next.bits, next.bytes) else Code(bits, raw.value + Flush(next))
  {
  }

  // ---------- frames ----------

  // Every part of a frame is read back.
  lemma {:induction false} PartsAreRead(src: seq<nat>, st: Lzx, c: Cursor, parts: seq<Part>, todo: nat, m: nat,
          k: nat, tail: seq<nat>)
    returns (c': Cursor, k': nat, m': nat)
    requires StOk(st) && (todo > 0 ==> st.windowPosn + todo <= |st.window|) && PartsOk(st, parts, todo)
    requires st.blockType == UNCOMPRESSED ==> m == 0 && c.left == 0
    requires At(src, c, k, PartsCode(st, parts, todo, m), tail)
    ensures StOk(st.(cur := c)) && At(src, c', k', LastCode(m'), tail)
    ensures BlockLoop(src, st.(cur := c), todo) == Ok(AfterAll(st, parts, todo).(cur := c'))
    ensures AfterAll(st, parts, todo).blockType == UNCOMPRESSED ==> c'.left == 0
    decreases |parts|
  {
    hide StOk, PartOk, PartCode, LastCode, LzxSpec.Ahead, BlockStep, NextM, At, SameFrame, Entered;
    if todo == 0 {
      c', k', m' := c, k, m;
      AtInput(src, c, k, LastCode(m), tail);
      StillOk(st, c);
    } else {
      var part := parts[0];
      var st1, left, m1 := After(st, part, todo), todo - Size(part), NextM(st, part, todo, m);
      RawNextM(st, part, todo, m);
      var c1, k1 := PartIsRead(src, st, c, part, todo, m, PartsCode(st1, parts[1..], left, m1), k, tail);
      c', k', m' := PartsAreRead(src, st1, c1, parts[1..], left, m1, k1, tail);
    }
  }

  lemma AtInput(src: seq<nat>, c: Cursor, k: nat, code: Code, tail: seq<nat>)
    requires At(src, c, k, code, tail)
    ensures Input(src, c)
  {
    hide Remaining, WordBits;
  }

  lemma RawNextM(st: Lzx, part: Part, todo: nat, m: nat)
    requires StOk(st) && PartOk(st, part, todo)
    ensures part.Raw? ==> NextM(st, part, todo, m) == 0
  {
    hide StOk, PartOk, PartBits;
  }

  // between two frames: whole words, or bytes, from byte k on
  predicate Aligned(src: seq<nat>, c: Cursor, k: nat, tail: seq<nat>)
  {
    Input(src, c) && c.taken <= |src| && k <= |src| && c.taken % 2 == k % 2 && |tail| >= 2 &&
    Remaining(src, c) == WordBits(src, k) && src[k..] == tail
  }

  // the bits left in the current word are those of the gap
  lemma LeftIsGap(src: seq<nat>, c: Cursor, k: nat, g: nat)
    requires g < 16 && k <= |src| && Remaining(src, c) == ZeroBits(g) + WordBits(src, k)
    ensures c.left % 16 == g
  {
    hide WordBits, BitsOf;
    WordBitsLength(src, k);
    WordBitsLength(src, c.taken);
    assert |Remaining(src, c)| == c.left + |WordBits(src, c.taken)|;
    BelowAWord(c.left, if c.taken <= |src| then (|src| - c.taken) / 2 else 0, (|src| - k) / 2, g);
  }

  lemma BelowAWord(l: nat, a: int, b: int, g: nat)
    requires l + 16 * a == g + 16 * b && g < 16
    ensures l % 16 == g
  {
    DivUnique(l, 16, b - a, g);
  }

  lemma DropGap(src: seq<nat>, c: Cursor, k: nat, g: nat)
    requires Input(src, c) && g < 16 && k <= |src| && Remaining(src, c) == ZeroBits(g) + WordBits(src, k)
    ensures c.left % 16 == g <= c.left && CursorOk(Drop(c, g)) && Remaining(src, Drop(c, g)) == WordBits(src, k)
  {
    hide WordBits, Remaining, Pow2;
    LeftIsGap(src, c, k, g);
    DropTakes(src, c, g);
  }

  // The input is aligned after a frame.
  lemma EndIsRead(src: seq<nat>, c: Cursor, k: nat, m: nat, tail: seq<nat>) returns (c': Cursor)
    requires At(src, c, k, LastCode(m), tail)
    ensures Realign(src, c) == Ok(c') && Aligned(src, c', k, tail) && (c.left == 0 ==> c'.left == 0)
  {
    hide WordBits, Remaining, Pow2, Gap, Ensure, CursorOk, IsBytes;
    TailBits(src, k, [], tail);
    assert [] + tail == tail;
    EnsureKeeps(src, c, 16);
    EnsureByWords(src, c, 16);
    var c1 := if c.left > 0 then Ensure(src, c, 16).value else c;
    DropGap(src, c1, k, Gap(m));
    c' := Drop(c1, Gap(m));
  }
}
