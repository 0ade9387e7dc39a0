// READ_HUFFSYM: decoding one symbol with the two-level table, against decoding it straight from
// the canonical code.
module HuffRead {
  import opened Wrappers
  import opened Powers
  import opened CanonicalCode
  import opened HuffTable
  import opened HuffBuild
  import opened BitStream
  import opened BitReader

  // the first symbol below n, if any, that the 16-bit number v begins with the code of
  function SymbolBelow(lens: seq<nat>, n: nat, v: nat): (r: Option<nat>)
    requires n <= |lens|
    ensures r.Some? ==> r.value < n && Decodes(lens, r.value, v)
  {
    if n == 0 then None
    else if Decodes(lens, n - 1, v) then Some(n - 1)
    else SymbolBelow(lens, n - 1, v)
  }

  // the symbol that v begins with the code of
  function SymbolAt(lens: seq<nat>, v: nat): Option<nat>
  {
    SymbolBelow(lens, |lens|, v)
  }

  lemma {:induction false} SymbolBelowFinds(lens: seq<nat>, n: nat, v: nat, s: nat)
    requires s < n <= |lens| && Decodes(lens, s, v)
    ensures SymbolBelow(lens, n, v) == Some(s)
  {
    hide Start, Weight;
    if s < n - 1 {
      if Decodes(lens, n - 1, v) {
        DecodesUnique(lens, s, n - 1, v);
      } else {
        SymbolBelowFinds(lens, n - 1, v, s);
      }
    }
  }

  // one symbol from the stream: 16 bits are looked at, and the bits of the code are removed
  function DecodeSymbol(src: seq<nat>, lens: seq<nat>, c: Cursor): Option<(nat, Cursor)>
  {
    match Ensure(src, c, MAX_BITS)
    case None => None
    case Some(c') =>
      match SymbolAt(lens, Peek(c', MAX_BITS))
      case None => None
      case Some(s) => Some((s, Drop(c', lens[s])))
  }

  // the bits of the code that RFC 1951 assigns to s
  function CodeBits(lens: seq<nat>, s: nat): seq<Bit>
    requires s < |lens|
  {
    BitsOf(Code(lens, s), lens[s])
  }

  // The symbol decoded is the one whose code the stream begins with, and exactly that code is gone.
  lemma DecodeSymbolIsPrefix(src: seq<nat>, lens: seq<nat>, c: Cursor)
    requires IsBytes(src) && CursorOk(c) && DecodeSymbol(src, lens, c).Some?
    ensures var (s, c') := DecodeSymbol(src, lens, c).value;
      Coded(lens, s) && CodeBits(lens, s) <= Remaining(src, c) &&
      CursorOk(c') && Remaining(src, c') == Remaining(src, c)[lens[s]..]
  {
    hide Pow2, BitsOf, Remaining, Code, Start, Weight, Peek, Drop, CursorOk;
    EnsureKeeps(src, c, MAX_BITS);
    var c1 := Ensure(src, c, MAX_BITS).value;
    var v := Peek(c1, MAX_BITS);
    var s := SymbolAt(lens, v).value;
    DropTakes(src, c1, lens[s]);
    DecodesIsRfcCode(lens, s, v);
    PeekShorter(c1, lens[s]);
    var rem := Remaining(src, c);
    assert CodeBits(lens, s) == rem[..lens[s]];
  }

  // the first n of the 16 bits looked at are the first n bits
  lemma PeekShorter(c: Cursor, n: nat)
    requires CursorOk(c) && n <= MAX_BITS <= c.left
    ensures Peek(c, MAX_BITS) / Pow2(MAX_BITS - n) == Peek(c, n)
  {
    DivDiv(c.pend, Pow2(c.left - MAX_BITS), Pow2(MAX_BITS - n));
    Pow2Add(c.left - MAX_BITS, MAX_BITS - n);
  }

  // Conversely, when the stream begins with the code of t, t is the symbol decoded.  (Codes that
  // do not fit their length exist only next to codes that already own every number.)
  lemma PrefixIsDecoded(src: seq<nat>, lens: seq<nat>, c: Cursor, t: nat)
    requires IsBytes(src) && CursorOk(c) && |Remaining(src, c)| >= MAX_BITS
    requires Coded(lens, t) && Code(lens, t) < Pow2(lens[t]) && CodeBits(lens, t) <= Remaining(src, c)
    ensures DecodeSymbol(src, lens, c).Some? && DecodeSymbol(src, lens, c).value.0 == t
  {
    hide Pow2, BitsOf, Remaining, Code, Start, Weight, Peek, Drop, CursorOk;
    EnsureKeeps(src, c, MAX_BITS);
    var c1 := Ensure(src, c, MAX_BITS).value;
    var v := Peek(c1, MAX_BITS);
    DropTakes(src, c1, lens[t]);
    BitsOfInjective(Peek(c1, lens[t]), Code(lens, t), lens[t]);
    PeekShorter(c1, lens[t]);
    DecodesIsRfcCode(lens, t, v);
    SymbolBelowFinds(lens, |lens|, v, t);
  }

  // With a Kraft sum of at most 1 every code fits its length.
  lemma CodeFits(lens: seq<nat>, s: nat)
    requires Coded(lens, s) && Kraft(lens, MAX_BITS) <= Pow2(MAX_BITS)
    ensures Code(lens, s) < Pow2(lens[s])
  {
    hide Kraft, Code, PlaceTo;
    PlaceStep(lens, |lens|, lens[s], s);
    PlaceMono(lens, |lens|, lens[s], s + 1, MAX_BITS + 1, 0);
    PlaceIsKraft(lens, MAX_BITS);
    DecodesIsRfcCode(lens, s, Start(lens, s));
    Pow2Add(lens[s], MAX_BITS - lens[s]);
    hide Pow2;
    CodeBelow(Code(lens, s), Pow2(lens[s]), Pow2(MAX_BITS - lens[s]));
  }

  lemma CodeBelow(code: nat, p: nat, w: nat)
    requires code * w + w <= p * w && w > 0
    ensures code < p
  {
    if code >= p {
      MulMono(p, code, w);
    }
  }

  // with a code that make_decode_table accepts every 16-bit number begins with a code
  lemma BuildableDecodes(lens: seq<nat>, nbits: nat, v: nat)
    requires nbits <= MAX_BITS && Buildable(lens, nbits) && v < Pow2(MAX_BITS)
    ensures SymbolAt(lens, v).Some?
  {
    hide Pow2, Kraft, SymbolBelow;
    var cap := if Kraft(lens, nbits) == Pow2(MAX_BITS) then nbits else MAX_BITS;
    PlaceIsKraft(lens, cap);
    var s := OwnerOf(lens, cap + 1, 0, v);
    SymbolBelowFinds(lens, |lens|, v, s);
  }

  // so decoding a symbol fails only when fewer than 16 bits are left
  lemma DecodeFailsAtEnd(src: seq<nat>, lens: seq<nat>, nbits: nat, c: Cursor)
    requires nbits <= MAX_BITS && Buildable(lens, nbits) && IsBytes(src) && CursorOk(c)
    ensures DecodeSymbol(src, lens, c).Some? <==> |Remaining(src, c)| >= MAX_BITS
  {
    hide Pow2, Kraft, Buildable, SymbolBelow, Remaining;
    EnsureKeeps(src, c, MAX_BITS);
    if |Remaining(src, c)| >= MAX_BITS {
      var c' := Ensure(src, c, MAX_BITS).value;
      PeekBelow(c', MAX_BITS);
      BuildableDecodes(lens, nbits, Peek(c', MAX_BITS));
    }
  }

  // ---------- walking the table ----------

  // the entry reached after following j bits of v below its direct entry
  ghost predicate Walking(lens: seq<nat>, tr: Tree, t: seq<int>, v: nat, j: nat, i: int)
  {
    TableInv(lens, tr, t, Pow2(MAX_BITS), MAX_BITS) && v < Pow2(MAX_BITS) && OnPath(tr, t, v, j, i)
  }

  // HUFF_TRAVERSE never meets an empty entry; a symbol it meets is the right one, and otherwise
  // there is one more bit to follow.
  lemma WalkStep(lens: seq<nat>, tr: Tree, t: seq<int>, v: nat, j: nat, i: int)
    requires Walking(lens, tr, t, v, j, i)
    ensures t[i] != EMPTY && t[i] >= 0
    ensures t[i] < |lens| ==> Decodes(lens, t[i], v)
    ensures t[i] >= |lens| ==>
      tr.nbits + j < MAX_BITS && Walking(lens, tr, t, v, j + 1, 2 * t[i] + Top(v, tr.nbits + j + 1) % 2)
  {
    assert EntryOk(lens, tr, t, Pow2(MAX_BITS), MAX_BITS, i);
    NeverEmpty(lens, tr, t, i);
    PrefixInterval(v, tr.nbits + j);
    hide Pow2, Top, Start, First, Weight;
    if t[i] >= |lens| {
      PathStep(lens, tr, t, Pow2(MAX_BITS), MAX_BITS, v, j, i);
    }
  }

  // the bit that the mask i = 2^(32 - d) selects is bit d of the 16 bits looked at
  lemma MaskBit(r: BitReader, d: nat)
    requires r.Valid() && 1 <= d <= MAX_BITS <= r.bitsLeft
    ensures r.PeekBits(d) == Top(r.PeekBits(MAX_BITS), d)
  {
    r.PeekBitsIs(MAX_BITS);
    r.PeekBitsIs(d);
    PeekShorter(r.Cur(), d);
  }

  // READ_HUFFSYM(tbl, var): false only at the end of the input; the HUFF_ERROR in HUFF_TRAVERSE
  // is never reached with a table that make_decode_table accepted
  method ReadHuffSym(reader: BitReader, nbits: nat, lens: seq<nat>, table: array<int>)
    returns (ok: bool, sym: int)
    requires reader.Valid() && reader.inbuf as object != table && TableFor(lens, nbits, table[..])
    modifies reader, reader.inbuf
    ensures reader.Valid()
    ensures ok <==> DecodeSymbol(reader.Source(), lens, old(reader.Cur())).Some?
    ensures ok <==> Ensure(reader.Source(), old(reader.Cur()), MAX_BITS).Some?
    ensures ok ==> DecodeSymbol(reader.Source(), lens, old(reader.Cur())).value == (sym, reader.Cur())
  {
    hide Pow2, Start, Weight, EntryOk, TableInv;
    sym := 0;
    ok := reader.EnsureBits(MAX_BITS);
    if !ok {
      return;
    }
    ghost var t := table[..];
    ghost var tr: Tree :| tr.nbits == nbits && TableInv(lens, tr, t, Pow2(MAX_BITS), MAX_BITS);
    reader.PeekBitsIs(MAX_BITS);
    sym := Lookup(reader, nbits, lens, table, tr);
    SymbolBelowFinds(lens, |lens|, Peek(reader.Cur(), MAX_BITS), sym);
    reader.RemoveBits(lens[sym]);
  }

  lemma WalkStart(r: BitReader, lens: seq<nat>, tr: Tree, t: seq<int>)
    requires r.Valid() && r.bitsLeft >= MAX_BITS
    requires TableInv(lens, tr, t, Pow2(MAX_BITS), MAX_BITS)
    ensures Walking(lens, tr, t, r.PeekBits(MAX_BITS), 0, r.PeekBits(tr.nbits))
  {
    assert 1 <= tr.nbits < MAX_BITS && Pow2(tr.nbits) <= |t|;
    hide TableInv;
    PeekBelow(r.Cur(), MAX_BITS);
    r.PeekBitsIs(MAX_BITS);
    MaskBit(r, tr.nbits);
    PathStart(tr, t, r.PeekBits(MAX_BITS), r.PeekBits(tr.nbits));
    assert OnPath(tr, t, r.PeekBits(MAX_BITS), 0, [r.PeekBits(tr.nbits)][0]);
  }

  // (x & i) != 0, for a power of two i
  predicate TestBit(x: nat, i: nat)
    requires i > 0
  {
    x / i % 2 == 1
  }

  // one round of HUFF_TRAVERSE from entry i; the mask is 2^(32 - depth)
  lemma WalkRound(r: BitReader, lens: seq<nat>, tr: Tree, t: seq<int>, depth: nat, i: int)
    requires r.Valid() && r.bitsLeft >= MAX_BITS && tr.nbits <= depth <= MAX_BITS
    requires Walking(lens, tr, t, r.PeekBits(MAX_BITS), depth - tr.nbits, i) && i < |t| && t[i] >= |lens|
    ensures depth < MAX_BITS && Pow2(BITBUF_WIDTH - depth) / 2 == Pow2(BITBUF_WIDTH - depth - 1)
    ensures var bit := if TestBit(r.bitBuffer, Pow2(BITBUF_WIDTH - depth - 1)) then 1 else 0;
      Walking(lens, tr, t, r.PeekBits(MAX_BITS), depth + 1 - tr.nbits, 2 * t[i] + bit)
  {
    hide Top, Walking, Pow2;
    WalkStep(lens, tr, t, r.PeekBits(MAX_BITS), depth - tr.nbits, i);
    MaskBit(r, depth + 1);
    Pow2Half(BITBUF_WIDTH - depth);
  }

  // HUFF_TRAVERSE, from the tree node that the direct entry at names
  method HuffTraverse(reader: BitReader, nbits: nat, lens: seq<nat>, table: array<int>, node: int,
                      ghost tr: Tree, ghost v: nat, ghost start: int)
    returns (sym: int)
    requires reader.Valid() && reader.bitsLeft >= MAX_BITS && v == reader.PeekBits(MAX_BITS)
    requires tr.nbits == nbits < MAX_BITS && Walking(lens, tr, table[..], v, 0, start)
    requires 0 <= start < table.Length && table[start] == node >= |lens|
    ensures 0 <= sym < |lens| && Decodes(lens, sym, v)
  {
    hide Pow2, Walking, Decodes, TestBit;
    sym := node;
    ghost var at, depth := start, nbits;
    var i := Pow2(BITBUF_WIDTH - nbits);
    while sym >= |lens|
      invariant nbits <= depth <= MAX_BITS && i == Pow2(BITBUF_WIDTH - depth)
      invariant 0 <= at < table.Length && sym == table[at] && Walking(lens, tr, table[..], v, depth - nbits, at)
      decreases MAX_BITS - depth
    {
      WalkRound(reader, lens, tr, table[..], depth, at);
      i := i / 2;
      assert i != 0;    // so HUFF_ERROR is not reached
      depth := depth + 1;
      at := 2 * sym + if TestBit(reader.bitBuffer, i) then 1 else 0;
      EntryInTable(lens, tr, table[..], v, depth - nbits, at);
      sym := table[2 * sym + if TestBit(reader.bitBuffer, i) then 1 else 0];
    }
    WalkStep(lens, tr, table[..], v, depth - nbits, at);
  }

  // the direct lookup, and HUFF_TRAVERSE when it finds a tree node
  method Lookup(reader: BitReader, nbits: nat, lens: seq<nat>, table: array<int>, ghost tr: Tree)
    returns (sym: int)
    requires reader.Valid() && reader.bitsLeft >= MAX_BITS
    requires tr.nbits == nbits && TableInv(lens, tr, table[..], Pow2(MAX_BITS), MAX_BITS)
    ensures 0 <= sym < |lens| && Decodes(lens, sym, reader.PeekBits(MAX_BITS))
  {
    assert nbits < MAX_BITS;
    hide Pow2, TableInv, Walking, Decodes;
    WalkStart(reader, lens, tr, table[..]);
    ghost var v := reader.PeekBits(MAX_BITS);
    var first := reader.PeekBits(nbits);
    EntryInTable(lens, tr, table[..], v, 0, first);
    WalkStep(lens, tr, table[..], v, 0, first);
    sym := table[first];
    if sym >= |lens| {
      sym := HuffTraverse(reader, nbits, lens, table, sym, tr, v, first);
    }
  }

  lemma EntryInTable(lens: seq<nat>, tr: Tree, t: seq<int>, v: nat, j: nat, i: int)
    requires Walking(lens, tr, t, v, j, i)
    ensures 0 <= i < |t|
  {
  }

  lemma PeekBelow(c: Cursor, n: nat)
    requires CursorOk(c) && n <= c.left
    ensures Peek(c, n) < Pow2(n)
  {
    DropTakes([], c, n);
  }
}
