// LZX streams as they are written: the parts of blocks that make up a frame, each with its header if it
// begins the block, and its literals and matches or its bytes, packed into words.  That they are read
// back is shown in LzxRoundTrip and LzxFrames.
module LzxEncode {
  import opened Wrappers
  import opened Powers
  import opened BitStream
  import opened BitPack
  import opened LzxSpec
  import opened LzxTokens
  import opened LzxBlocks

  // ---------- parts of blocks ----------

  // the header of an uncompressed block
  datatype RawHead = RawHead(length: nat, R0: nat, R1: nat, R2: nat)

  // what a frame holds of one block: all of it, or its beginning or end; the first part of a block
  // has its header
  datatype Part = Compressed(head: Option<Head>, tokens: seq<Token>) | Raw(start: Option<RawHead>, data: seq<nat>)

  function Size(part: Part): nat
  {
    match part
    case Compressed(_, tokens) => TotalLength(tokens)
    case Raw(_, data) => |data|
  }

  predicate New(part: Part)
  {
    if part.Compressed? then part.head.Some? else part.start.Some?
  }

  predicate HeaderOk(st: Lzx, part: Part)
    requires StOk(st)
  {
    (New(part) <==> st.blockRemaining == 0) &&
    match part
    case Compressed(head, _) => if head.Some? then HeadOk(st, head.value) else st.blockType == VERBATIM || st.blockType == ALIGNED
    case Raw(start, _) =>
      if start.Some? then
        start.value.length < 0x100_0000 && start.value.R0 < IntelE8.TWO32 && start.value.R1 < IntelE8.TWO32 &&
        start.value.R2 < IntelE8.TWO32
      else st.blockType == UNCOMPRESSED
  }

  // the state behind the header
  function Entered(st: Lzx, part: Part): (r: Lzx)
    requires StOk(st) && HeaderOk(st, part)
  {
    match part
    case Compressed(head, _) => if head.Some? then Begun(st, head.value, st.cur) else st
    case Raw(start, _) => if start.Some? then RawBegun(st, start.value) else st
  }

  function RawBegun(st: Lzx, h: RawHead): Lzx
  {
    st.(blockType := UNCOMPRESSED, blockLength := h.length, blockRemaining := h.length,
        R0 := h.R0, R1 := h.R1, R2 := h.R2, intelStarted := true)
  }

  function Less(st: Lzx, n: nat): Lzx
    requires n <= st.blockRemaining
  {
    st.(blockRemaining := st.blockRemaining - n)
  }

  // Can the part be written in this state, with todo bytes of the frame to come?  It holds as much of
  // its block as there is and as the frame needs.
  predicate PartOk(st: Lzx, part: Part, todo: nat)
    requires StOk(st)
  {
    HeaderOk(st, part) &&
    var st1 := Entered(st, part);
    StOk(st1) && Size(part) == Min(st1.blockRemaining, todo) && st1.windowPosn + Size(part) <= |st1.window| &&
    StOk(Less(st1, Size(part))) &&
    match part
    case Compressed(_, tokens) => TokensOk(Less(st1, Size(part)), tokens)
    case Raw(_, data) => IsBytes(data)
  }

  // the state after the part
  function After(st: Lzx, part: Part, todo: nat): (r: Lzx)
    requires StOk(st) && PartOk(st, part, todo)
    ensures StOk(r) && r.windowPosn == st.windowPosn + Size(part) && |r.window| == |st.window|
    ensures SameFrame(st, r) && r.cur == st.cur && (r.blockType == UNCOMPRESSED <==> part.Raw?)
  {
    EnteredKeeps(st, part);
    var st1 := Less(Entered(st, part), Size(part));
    match part
    case Compressed(_, tokens) => ApplyAllKeeps(st1, tokens); ApplyAll(st1, tokens)
    case Raw(_, data) =>
      RawKeeps(st1, data);
      st1.(window := Spliced(st1.window, st1.windowPosn, data), windowPosn := st1.windowPosn + |data|)
  }

  lemma EnteredKeeps(st: Lzx, part: Part)
    requires StOk(st) && HeaderOk(st, part)
    ensures var r := Entered(st, part);
      r.windowPosn == st.windowPosn && r.window == st.window && SameFrame(st, r) && r.cur == st.cur &&
      (r.blockType == UNCOMPRESSED <==> part.Raw?) &&
      (part.Compressed? ==> r.blockType == VERBATIM || r.blockType == ALIGNED)
  {
    hide StOk, TreesOk, RunsOk, MainOf, LengthsOf, Pow2;
  }

  lemma RawKeeps(st: Lzx, data: seq<nat>)
    requires StOk(st) && st.windowPosn + |data| <= |st.window|
    ensures StOk(st.(window := Spliced(st.window, st.windowPosn, data), windowPosn := st.windowPosn + |data|))
  {
    hide Pow2;
  }

  // ---------- packing ----------

  // bits to be read next, up to the end of a word, and the bytes behind them
  datatype Code = Code(bits: seq<Bit>, bytes: seq<nat>)

  // with m bits before them the bits fill words
  predicate FillsWords(m: nat, code: Code)
  {
    (m + |code.bits|) % 16 == 0
  }

  // the end of a frame
  function LastCode(m: nat): (code: Code)
    ensures FillsWords(m, code)
  {
    Code(ZeroBits(Gap(m)), [])
  }

  function Flush(code: Code): seq<nat>
    requires FillsWords(0, code)
  {
    Words(code.bits) + code.bytes
  }

  // the bits of a part, with m bits before them in their word; the header of an uncompressed block
  // ends with 1 to 16 bits that are dropped
  function PartBits(st: Lzx, part: Part, todo: nat, m: nat): seq<Bit>
    requires StOk(st) && PartOk(st, part, todo)
  {
    match part
    case Compressed(head, tokens) =>
      (if head.Some? then HeadBits(st, head.value) else []) + TokensBits(Less(Entered(st, part), Size(part)), tokens)
    case Raw(start, _) =>
      if start.Some? then StartBits(UNCOMPRESSED, start.value.length) + ZeroBits(RawGap(m)) else []
  }

  function RawGap(m: nat): (g: nat)
    ensures 1 <= g <= 16 && (m + 27 + g) % 16 == 0
  {
    16 - (m + 27) % 16
  }

  function OffsetBytes(h: RawHead): (b: seq<nat>)
    ensures |b| == 12
  {
    IntelE8.ToBytes(h.R0) + IntelE8.ToBytes(h.R1) + IntelE8.ToBytes(h.R2)
  }

  function RawBytes(part: Part): seq<nat>
    requires part.Raw?
  {
    (if part.start.Some? then OffsetBytes(part.start.value) else []) + part.data
  }

  // the number of bits in the current word after the part
  function NextM(st: Lzx, part: Part, todo: nat, m: nat): (r: nat)
    requires StOk(st) && PartOk(st, part, todo)
    ensures r < 16
  {
    if part.Compressed? then (m + |PartBits(st, part, todo, m)|) % 16 else 0
  }

  // bits, then the next bits or else bytes, behind a padding byte if there is one
  function Pack(bits: seq<Bit>, raw: Option<seq<nat>>, pad: bool, m: nat, next: Code): (code: Code)
    requires (m + |bits| + if raw.None? then |next.bits| else 0) % 16 == 0
    requires raw.Some? ==> FillsWords(0, next)
    requires pad ==> m == 0
    ensures FillsWords(m, code)
  {
    var body :=
      if raw.None? then Code(bits + next.bits, next.bytes)
      else Code(bits, raw.value + Flush(next));
    if pad then Code([], [0] + Flush(body)) else body
  }

  // can the part be written, with m bits before it, and then next?
  predicate Follows(st: Lzx, part: Part, todo: nat, m: nat, next: Code)
  {
    hide StOk, PartOk, PartBits, Entered;
    StOk(st) && PartOk(st, part, todo) && (st.blockType == UNCOMPRESSED ==> m == 0) &&
    FillsWords(NextM(st, part, todo, m), next)
  }

  // the part, followed by next
  function PartCode(st: Lzx, part: Part, todo: nat, m: nat, next: Code): (code: Code)
    requires Follows(st, part, todo, m, next)
    ensures FillsWords(m, code)
  {
    hide StOk, PartOk, Entered, PartBits, FillsWords, NextM, RawPart, NeedsPad, New;
    BodyAligned(st, part, todo, m, next);
    Pack(PartBits(st, part, todo, m), RawPart(part), New(part) && NeedsPad(st), m, next)
  }

  function RawPart(part: Part): Option<seq<nat>>
  {
    if part.Compressed? then None else Some(RawBytes(part))
  }

  lemma BodyAligned(st: Lzx, part: Part, todo: nat, m: nat, next: Code)
    requires StOk(st) && PartOk(st, part, todo) && (st.blockType == UNCOMPRESSED ==> m == 0)
    requires FillsWords(NextM(st, part, todo, m), next)
    ensures (m + |PartBits(st, part, todo, m)| + if RawPart(part).None? then |next.bits| else 0) % 16 == 0
    ensures RawPart(part).Some? ==> FillsWords(0, next)
    ensures NeedsPad(st) ==> m == 0
  {
    hide StOk, PartOk, Entered, HeadBits, TokensBits, BitsOf;
    if part.Raw? {
      RawBitsAligned(st, part, todo, m);
    }
  }

  lemma RawBitsAligned(st: Lzx, part: Part, todo: nat, m: nat)
    requires StOk(st) && PartOk(st, part, todo) && (st.blockType == UNCOMPRESSED ==> m == 0) && part.Raw?
    ensures (m + |PartBits(st, part, todo, m)|) % 16 == 0
  {
    hide StOk, BitsOf;
  }

  // ---------- the parts of a frame ----------

  predicate PartsOk(st: Lzx, parts: seq<Part>, todo: nat)
    requires StOk(st)
    decreases |parts|
  {
    if todo == 0 then parts == []
    else
      parts != [] && PartOk(st, parts[0], todo) && Size(parts[0]) <= todo &&
      PartsOk(After(st, parts[0], todo), parts[1..], todo - Size(parts[0]))
  }

  // the state after all of them
  function AfterAll(st: Lzx, parts: seq<Part>, todo: nat): (r: Lzx)
    requires StOk(st) && PartsOk(st, parts, todo)
    ensures StOk(r) && r.windowPosn == st.windowPosn + todo && |r.window| == |st.window|
    ensures SameFrame(st, r) && r.cur == st.cur
    decreases |parts|
  {
    if todo == 0 then st
    else AfterAll(After(st, parts[0], todo), parts[1..], todo - Size(parts[0]))
  }

  // The parts, with m bits before them in their word; the frame ends at the end of a word.
  function PartsCode(st: Lzx, parts: seq<Part>, todo: nat, m: nat): (code: Code)
    requires StOk(st) && PartsOk(st, parts, todo) && (st.blockType == UNCOMPRESSED ==> m == 0)
    ensures FillsWords(m, code)
    decreases |parts|
  {
    hide StOk, PartOk, Entered, PartBits, PartCode, FillsWords, Gap;
    if todo == 0 then LastCode(m)
    else
      var st1 := After(st, parts[0], todo);
      PartCode(st, parts[0], todo, m, PartsCode(st1, parts[1..], todo - Size(parts[0]), NextM(st, parts[0], todo, m)))
  }
}
