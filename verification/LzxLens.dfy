// lzxd_read_lens and the other runs of fixed-width numbers, read through the bit buffer.
module LzxLens {
  import opened Wrappers
  import opened Powers
  import opened CanonicalCode
  import opened HuffTable
  import opened HuffBuild
  import opened HuffSize
  import opened BitStream
  import opened BitReader
  import opened HuffRead
  import opened LzxSpec
  import opened LzxTables

  // READ_BITS, with the error code
  method ReadNumber(r: BitReader, n: nat) returns (res: Result<nat>)
    requires r.Valid() && n <= 17
    modifies r, r.inbuf
    ensures r.Valid()
    ensures var spec := Bits(r.Source(), old(r.Cur()), n);
      (res.Ok? <==> spec.Ok?) && (res.Ok? ==> spec.value == (res.value, r.Cur())) &&
      (res.Fail? ==> spec == Fail(res.error))
  {
    var ok, val := r.ReadBits(n);
    res := if ok then Ok(val) else Fail(ReadError);
  }

  method ReadSymbol(r: BitReader, nbits: nat, lens: seq<nat>, table: array<int>) returns (res: Result<nat>)
    requires r.Valid() && r.inbuf as object != table && TableFor(lens, nbits, table[..])
    modifies r, r.inbuf
    ensures r.Valid()
    ensures var spec := Symbol(r.Source(), lens, old(r.Cur()));
      (res.Ok? <==> spec.Ok?) && (res.Ok? ==> spec.value == (res.value, r.Cur())) &&
      (res.Fail? ==> spec == Fail(res.error))
  {
    var ok, sym := ReadHuffSym(r, nbits, lens, table);
    res := if ok then Ok(sym) else Fail(ReadError);
  }

  // for (x = 0; x < n; x++) { READ_BITS(y, width); len[x] = y; }
  method ReadNumbers(r: BitReader, width: nat, n: nat) returns (res: Result<seq<nat>>)
    requires r.Valid() && width <= 17
    modifies r, r.inbuf
    ensures r.Valid()
    ensures var spec := Numbers(r.Source(), old(r.Cur()), width, n);
      (res.Ok? <==> spec.Ok?) && (res.Ok? ==> spec.value == (res.value, r.Cur())) &&
      (res.Fail? ==> spec == Fail(res.error))
  {
    var vals: seq<nat> := [];
    for x := 0 to n
      invariant r.Valid()
      invariant Numbers(r.Source(), old(r.Cur()), width, x) == Ok((vals, r.Cur()))
    {
      var y := ReadNumber(r, width);
      if y.Fail? {
        NumbersFail(r.Source(), old(r.Cur()), width, x + 1, n);
        return Fail(y.error);
      }
      vals := vals + [y.value];
    }
    res := Ok(vals);
  }

  lemma {:induction false} NumbersFail(src: seq<nat>, c: Cursor, width: nat, x: nat, n: nat)
    requires Input(src, c) && width <= 17 && x <= n && Numbers(src, c, width, x).Fail?
    ensures Numbers(src, c, width, n) == Numbers(src, c, width, x)
    decreases n - x
  {
    if x < n {
      assert Numbers(src, c, width, x + 1) == Numbers(src, c, width, x);
      NumbersFail(src, c, width, x + 1, n);
    }
  }

  // BUILD_TABLE
  method BuildTable(nbits: nat, lens: seq<nat>, table: array<int>) returns (ok: bool)
    requires 1 <= nbits < MAX_BITS && RoomFor(lens, nbits, table.Length)
    modifies table
    ensures ok <==> Buildable(lens, nbits)
    ensures ok ==> TableFor(lens, nbits, table[..])
    ensures forall i :: TableSize(lens, nbits) <= i < table.Length ==> table[i] == old(table[i])
  {
    hide Pow2, Buildable, TableFor, RoomFor, AllWritten, InUse, TableSize;
    LastInUse(lens, nbits);
    var r := MakeDecodeTable(nbits, lens, table);
    ok := r == 0;
  }

  // while (y--) lens[x++] = v
  method FillLens(lens: seq<nat>, x: nat, y: nat, v: nat) returns (lens': seq<nat>)
    requires x + y <= |lens|
    ensures lens' == Fill(lens, x, y, v)
  {
    lens' := lens;
    for k := 0 to y
      invariant |lens'| == |lens|
      invariant lens' == Fill(lens, x, k, v)
    {
      lens' := lens'[x + k := v];
    }
  }

  // one pretree symbol and the lengths it stands for
  method LensRound(r: BitReader, pretree: array<int>, pre: seq<nat>, lens: seq<nat>, x: nat)
    returns (res: Result<(seq<nat>, nat)>)
    requires r.Valid() && r.inbuf as object != pretree && TableFor(pre, PRETREE_BITS, pretree[..])
    requires x + SAFETY <= |lens|
    modifies r, r.inbuf
    ensures r.Valid()
    ensures var spec := LensStep(r.Source(), pre, lens, x, old(r.Cur()));
      (res.Ok? <==> spec.Ok?) && (res.Ok? ==> spec.value == (res.value.0, res.value.1, r.Cur())) &&
      (res.Fail? ==> spec == Fail(res.error))
  {
    hide TableFor, Fill, Ahead, Bits, Symbol, Pow2, Delta;
    var z := ReadSymbol(r, PRETREE_BITS, pre, pretree);
    if z.Fail? {
      return Fail(z.error);
    }
    SmallNumbers();
    if z.value == 17 {
      res := ZeroRun(r, lens, x, 4, 4);
    } else if z.value == 18 {
      res := ZeroRun(r, lens, x, 5, 20);
    } else if z.value == 19 {
      res := SameRun(r, pretree, pre, lens, x);
    } else {
      res := Ok((lens[x := Delta(lens[x], z.value)], x + 1));
    }
  }

  lemma SmallNumbers()
    ensures Pow2(1) == 2 && Pow2(4) == 16 && Pow2(5) == 32
  {
  }

  // a run of ([read width bits] + base) zeros
  method ZeroRun(r: BitReader, lens: seq<nat>, x: nat, width: nat, base: nat) returns (res: Result<(seq<nat>, nat)>)
    requires r.Valid() && width <= 17 && x + base + Pow2(width) <= |lens| + 1
    modifies r, r.inbuf
    ensures r.Valid()
    ensures var spec := Bits(r.Source(), old(r.Cur()), width);
      if spec.Fail? then res == Fail(spec.error)
      else
        var (y, c) := spec.value;
        r.Cur() == c && x + y + base <= |lens| && res == Ok((Fill(lens, x, y + base, 0), x + y + base))
  {
    hide Fill, Ahead, Bits, Pow2;
    var y := ReadNumber(r, width);
    if y.Fail? {
      return Fail(y.error);
    }
    var lens' := FillLens(lens, x, y.value + base, 0);
    res := Ok((lens', x + y.value + base));
  }

  // four lengths, or five if the next bit is set, that all become what one symbol makes of the first
  method SameRun(r: BitReader, pretree: array<int>, pre: seq<nat>, lens: seq<nat>, x: nat)
    returns (res: Result<(seq<nat>, nat)>)
    requires r.Valid() && r.inbuf as object != pretree && TableFor(pre, PRETREE_BITS, pretree[..])
    requires x + 6 <= |lens|
    modifies r, r.inbuf
    ensures r.Valid()
    ensures var first := Bits(r.Source(), old(r.Cur()), 1);
      if first.Fail? then res == Fail(first.error)
      else
        var (y, c2) := first.value;
        var second := Symbol(r.Source(), pre, c2);
        if second.Fail? then res == Fail(second.error)
        else
          var (z, c3) := second.value;
          y < 2 && r.Cur() == c3 && res == Ok((Fill(lens, x, y + 4, Delta(lens[x], z)), x + y + 4))
  {
    hide TableFor, Fill, Ahead, Bits, Symbol, Pow2, Delta;
    SmallNumbers();
    var y := ReadNumber(r, 1);
    if y.Fail? {
      return Fail(y.error);
    }
    var z := ReadSymbol(r, PRETREE_BITS, pre, pretree);
    if z.Fail? {
      return Fail(z.error);
    }
    var lens' := FillLens(lens, x, y.value + 4, Delta(lens[x], z.value));
    res := Ok((lens', x + y.value + 4));
  }

  // lzxd_read_lens.  When it succeeds it has used the pretree table of the stream only, and not the
  // room behind it.
  method ReadLensInto(r: BitReader, pretree: array<int>, lens: seq<nat>, first: nat, last: nat)
    returns (res: Result<seq<nat>>)
    requires r.Valid() && r.inbuf as object != pretree && pretree.Length == PRETREE_ROOM
    requires last + SAFETY <= |lens| + 1
    modifies r, r.inbuf, pretree
    ensures r.Valid()
    ensures var spec := ReadLens(r.Source(), lens, first, last, old(r.Cur()));
      (res.Ok? <==> spec.Ok?) && (res.Ok? ==> spec.value == (res.value, r.Cur())) &&
      (res.Fail? ==> spec == Fail(res.error))
    ensures res.Ok? ==> pretree[PRETREE_TABLE..] == old(pretree[PRETREE_TABLE..])
  {
    hide TableFor, Buildable, RoomFor, LensLoop, Numbers, Ahead, TableSize, PrefixesFrom, BitReader.Valid,
      BitReader.BytesOk, BitReader.Cur;
    r.SourceIsBytes();
    var numbers := ReadNumbers(r, 4, PRETREE_SYMBOLS);
    if numbers.Fail? {
      return Fail(numbers.error);
    }
    var pre := numbers.value;
    PretreeSize(pre);
    var built := BuildTable(PRETREE_BITS, pre, pretree);
    if !built {
      return Fail(Decrunch);
    }
    res := LensRounds(r, pretree, pre, lens, first, last);
  }

  method LensRounds(r: BitReader, pretree: array<int>, pre: seq<nat>, lens: seq<nat>, first: nat, last: nat)
    returns (res: Result<seq<nat>>)
    requires r.Valid() && r.inbuf as object != pretree && TableFor(pre, PRETREE_BITS, pretree[..])
    requires last + SAFETY <= |lens| + 1
    modifies r, r.inbuf
    ensures r.Valid()
    ensures var spec := LensLoop(r.Source(), pre, lens, first, last, old(r.Cur()));
      (res.Ok? <==> spec.Ok?) && (res.Ok? ==> spec.value == (res.value, r.Cur())) &&
      (res.Fail? ==> spec == Fail(res.error))
  {
    hide TableFor, LensStep, Ahead;
    var x, lens' := first, lens;
    while x < last
      invariant r.Valid() && |lens'| == |lens| && TableFor(pre, PRETREE_BITS, pretree[..])
      invariant LensLoop(r.Source(), pre, lens', x, last, r.Cur()) ==
                LensLoop(r.Source(), pre, lens, first, last, old(r.Cur()))
      decreases last - x
    {
      var round := LensRound(r, pretree, pre, lens', x);
      if round.Fail? {
        return Fail(round.error);
      }
      lens', x := round.value.0, round.value.1;
    }
    res := Ok(lens');
  }

  // ---------- bytes ----------

  // skip to the next word, which is never nothing: a whole word is skipped when none is begun
  method AlignToBytes(r: BitReader) returns (ok: bool)
    requires r.Valid()
    modifies r, r.inbuf
    ensures r.Valid()
    ensures var c := old(r.Cur());
      var ensured := if c.left == 0 then Ensure(r.Source(), c, 16) else Some(c);
      (ok <==> ensured.Some?) && (ok ==> r.Cur() == Cursor(ensured.value.taken, 0, 0))
  {
    hide Pow2, Ensure;
    ok := true;
    if r.bitsLeft == 0 {
      ok := r.EnsureBits(16);
      if !ok {
        return;
      }
    }
    r.DropAll();
  }

  // n times READ_IF_NEEDED; b = *i_ptr++
  method ReadRaw(r: BitReader, n: nat) returns (res: Result<seq<nat>>)
    requires r.Valid()
    modifies r, r.inbuf
    ensures r.Valid()
    ensures var spec := Bytes(r.Source(), old(r.Cur()), n);
      if res.Ok? then spec == Ok((res.value, r.Cur())) else spec == Fail(res.error)
  {
    hide Pow2;
    var buf: seq<nat> := [];
    for i := 0 to n
      invariant r.Valid() && Bytes(r.Source(), old(r.Cur()), i) == Ok((buf, r.Cur()))
    {
      var ok, b := r.TakeByte();
      if !ok {
        return Fail(ReadError);
      }
      buf := buf + [b];
      SliceExtend(r.Source(), old(r.Cur().taken), i);
    }
    res := Ok(buf);
  }

  lemma SliceExtend(s: seq<nat>, a: nat, n: nat)
    requires a + n < |s|
    ensures s[a..a + n] + [s[a + n]] == s[a..a + (n + 1)]
  {
  }

  method ReadStoredOffsets(r: BitReader) returns (res: Result<seq<nat>>)
    requires r.Valid()
    modifies r, r.inbuf
    ensures r.Valid()
    ensures var spec := StoredOffsets(r.Source(), old(r.Cur()));
      if res.Ok? then spec == Ok((res.value, r.Cur())) else spec == Fail(res.error)
  {
    hide Pow2, Ensure, Ahead, Bytes, LittleEndian;
    var ok := AlignToBytes(r);
    if !ok {
      return Fail(ReadError);
    }
    var buf := ReadRaw(r, 12);
    if buf.Fail? {
      return Fail(buf.error);
    }
    res := Ok([LittleEndian(buf.value, 0), LittleEndian(buf.value, 4), LittleEndian(buf.value, 8)]);
  }

  method ReadBlockNumbers(r: BitReader, realign: bool) returns (res: Result<(nat, nat)>)
    requires r.Valid()
    modifies r, r.inbuf
    ensures r.Valid()
    ensures var spec := BlockNumbers(r.Source(), old(r.Cur()), realign);
      if res.Ok? then spec == Ok((res.value, r.Cur())) else spec == Fail(res.error)
  {
    hide Pow2, Ahead, Bits, Bytes;
    var pad := ReadRaw(r, if realign then 1 else 0);
    if pad.Fail? {
      return Fail(pad.error);
    }
    var kind := ReadNumber(r, 3);
    if kind.Fail? {
      return Fail(kind.error);
    }
    var i := ReadNumber(r, 16);
    if i.Fail? {
      return Fail(i.error);
    }
    var j := ReadNumber(r, 8);
    if j.Fail? {
      return Fail(j.error);
    }
    res := Ok((kind.value, 256 * i.value + j.value));
  }

  // the 1-bit, or 33-bit, header of the stream
  method ReadHeaderNumber(r: BitReader) returns (res: Result<int>)
    requires r.Valid()
    modifies r, r.inbuf
    ensures r.Valid()
    ensures var spec := HeaderNumber(r.Source(), old(r.Cur()));
      if res.Ok? then spec == Ok((res.value, r.Cur())) else spec == Fail(res.error)
  {
    hide Pow2, Ahead, Bits, Signed32;
    var i := ReadNumber(r, 1);
    if i.Fail? || i.value == 0 {
      return i;
    }
    i := ReadNumber(r, 16);
    if i.Fail? {
      return i;
    }
    var j := ReadNumber(r, 16);
    if j.Fail? {
      return j;
    }
    res := Ok(Signed32(0x1_0000 * i.value + j.value));
  }

  // re-align the input bit stream after a frame
  method RealignReader(r: BitReader) returns (res: Result<()>)
    requires r.Valid()
    modifies r, r.inbuf
    ensures r.Valid()
    ensures var spec := Realign(r.Source(), old(r.Cur()));
      if res.Ok? then spec == Ok(r.Cur()) else spec == Fail(res.error)
  {
    hide Pow2, Ensure;
    if r.bitsLeft > 0 {
      var ok := r.EnsureBits(16);
      if !ok {
        return Fail(ReadError);
      }
    }
    r.RemoveBits(r.bitsLeft % 16);
    res := Ok(());
  }
}
