// What the progressive reader makes of a file that is a signature followed by whole chunks
// (section 3.2 of RFC 2083): it handles exactly these chunks, one after the other.
module PngChunks {
  import opened PngQueue
  import opened PngPushSpec

  datatype RawChunk = RawChunk(name: seq<Byte>, data: seq<Byte>, crc: seq<Byte>)

  predicate Proper(c: RawChunk)
  {
    |c.name| == 4 && |c.data| <= UINT_31_MAX && |c.crc| == 4
  }

  function Bytes4(n: nat): (b: seq<Byte>)
    requires n < 0x1_0000_0000
    ensures |b| == 4
  {
    [n / 0x100_0000, n / 0x1_0000 % 0x100, n / 0x100 % 0x100, n % 0x100]
  }

  lemma BigEndianBytes(n: nat)
    requires n < 0x1_0000_0000
    ensures BigEndian(Bytes4(n)) == n
  {
    var a := n / 0x100;
    var b := a / 0x100;
    assert n / 0x1_0000 == b && n / 0x100_0000 == b / 0x100;
  }

  function Header(c: RawChunk): (b: seq<Byte>)
    requires Proper(c)
    ensures |b| == 8
  {
    Bytes4(|c.data|) + c.name
  }

  // length, name, data, CRC
  function Encode(c: RawChunk): seq<Byte>
    requires Proper(c)
  {
    Header(c) + (c.data + c.crc)
  }

  function EncodeAll(cs: seq<RawChunk>): seq<Byte>
    requires forall i :: 0 <= i < |cs| ==> Proper(cs[i])
  {
    if cs == [] then [] else Encode(cs[0]) + EncodeAll(cs[1..])
  }

  // ---------- the reader, chunk by chunk ----------

  // image data, byte by byte
  function Eat<X>(app: App<X>, p: Png<X>, data: seq<Byte>): (r: Step<X>)
    requires |data| <= p.idatSize
    ensures r.Next? ==> r.p.idatSize == p.idatSize - |data| && r.p.mode == p.mode && r.p.header == p.header
    ensures r.Next? ==> r.p.framesRead == p.framesRead
    decreases |data|
  {
    if data == [] then Next(p)
    else
      var s := IdatByte(app, p, data[0]);
      if s.Stop? then s else Eat(app, s.p, data[1..])
  }

  // the data and the CRC of an IDAT
  function EatChunk<X>(app: App<X>, p: Png<X>, c: RawChunk): Step<X>
    requires |c.data| <= p.idatSize
  {
    var s := Eat(app, p, c.data);
    if s.Stop? then s else IdatCrc(app, s.p, c.crc)
  }

  function ReadHeader<X>(app: App<X>, p: Png<X>, c: RawChunk): (r: Step<X>)
    requires Proper(c)
  {
    if p.mode == ReadIDAT then IdatHeader(app, p, Header(c)) else ChunkHeader(app, p, Header(c))
  }

  // between two chunks
  predicate Between<X>(p: Png<X>)
  {
    !p.header && p.idatSize == 0 && p.mode != ReadSig
  }

  lemma HeaderIs<X>(app: App<X>, p: Png<X>, c: RawChunk)
    requires Proper(c) && Between(p) && p.mode != ReadDone && ReadHeader(app, p, c).Next?
    ensures var p1 := ReadHeader(app, p, c).p;
      p1.header && p1.pushLength == |c.data| && p1.name == c.name &&
      (p1.mode == ReadIDAT || p1.mode == ReadChunk) && (p1.mode == ReadIDAT <==> c.name == IDAT) &&
      p1.idatSize == (if c.name == IDAT then |c.data| else 0) &&
      Handled(p1.log) == Handled(p.log) && Image(p1.log) == Image(p.log)
  {
    hide Handled, Image, BigEndian, Bytes4, IsName;
    BigEndianBytes(|c.data|);
    assert Header(c)[..4] == Bytes4(|c.data|) && Header(c)[4..] == c.name;
    LogInfo(p.log);
  }

  // a whole chunk
  function ReadOne<X>(app: App<X>, p: Png<X>, c: RawChunk): (r: Step<X>)
    requires Proper(c) && Between(p)
    ensures r.Next? ==> Between(r.p)
  {
    if p.mode == ReadDone then Next(p)
    else
      var s := ReadHeader(app, p, c);
      if s.Stop? then s
      else
        HeaderIs(app, p, c);
        if s.p.mode == ReadIDAT then EatChunk(app, s.p, c) else ChunkBody(app, s.p, c.data + c.crc)
  }

  function ReadAll<X>(app: App<X>, p: Png<X>, cs: seq<RawChunk>): (r: Step<X>)
    requires (forall i :: 0 <= i < |cs| ==> Proper(cs[i])) && Between(p)
    ensures r.Next? ==> Between(r.p)
    decreases |cs|
  {
    if cs == [] then Next(p)
    else
      var s := ReadOne(app, p, cs[0]);
      if s.Stop? then s else ReadAll(app, s.p, cs[1..])
  }

  // ---------- the machine reads the encoding of the chunks ----------

  lemma OneAct<X>(app: App<X>, p: Png<X>, q: seq<Byte>, rest: seq<Byte>)
    requires |q| == Used(p) && |q + rest| >= Need(p)
    ensures Run(app, p, q + rest) == RunStep(app, Act(app, p, q), rest)
  {
    assert (q + rest)[..Used(p)] == q && (q + rest)[Used(p)..] == rest;
  }

  lemma {:induction false} EatRuns<X>(app: App<X>, p: Png<X>, data: seq<Byte>, rest: seq<Byte>)
    requires p.mode == ReadIDAT && p.header && |data| <= p.idatSize
    ensures Run(app, p, data + rest) == RunStep(app, Eat(app, p, data), rest)
    decreases |data|
  {
    hide Run, IdatByte;
    if data == [] {
      assert data + rest == rest;
    } else {
      assert data + rest == [data[0]] + (data[1..] + rest);
      OneAct(app, p, [data[0]], data[1..] + rest);
      var s := IdatByte(app, p, data[0]);
      if s.Next? {
        IdatByteKeeps(app, p, data[0]);
        EatRuns(app, s.p, data[1..], rest);
      }
    }
  }

  lemma IdatByteKeeps<X>(app: App<X>, p: Png<X>, b: Byte)
    requires p.idatSize > 0 && IdatByte(app, p, b).Next?
    ensures var p' := IdatByte(app, p, b).p;
      p'.mode == p.mode && p'.header == p.header && p'.idatSize == p.idatSize - 1 &&
      Image(p'.log) == Image(p.log) + [b] && Handled(p'.log) == Handled(p.log)
  {
    LogData(p.log, b);
  }

  lemma HeaderRuns<X>(app: App<X>, p: Png<X>, c: RawChunk, rest: seq<Byte>)
    requires Proper(c) && Between(p) && p.mode != ReadDone && |rest| >= 4
    ensures Run(app, p, Header(c) + rest) == RunStep(app, ReadHeader(app, p, c), rest)
  {
    hide Run, IdatHeader, ChunkHeader, Header;
    OneAct(app, p, Header(c), rest);
  }

  lemma BodyRuns<X>(app: App<X>, p: Png<X>, c: RawChunk, rest: seq<Byte>)
    requires Proper(c) && p.header && (p.mode == ReadIDAT || p.mode == ReadChunk)
    requires p.pushLength == |c.data| && (p.mode == ReadIDAT ==> p.idatSize == |c.data|)
    ensures Run(app, p, c.data + c.crc + rest) ==
      RunStep(app, if p.mode == ReadIDAT then EatChunk(app, p, c) else ChunkBody(app, p, c.data + c.crc), rest)
  {
    hide Run, IdatCrc, ChunkBody, Eat;
    if p.mode == ReadChunk {
      OneAct(app, p, c.data + c.crc, rest);
    } else {
      assert c.data + c.crc + rest == c.data + (c.crc + rest);
      EatRuns(app, p, c.data, c.crc + rest);
      var s := Eat(app, p, c.data);
      if s.Next? {
        OneAct(app, s.p, c.crc, rest);
      }
    }
  }

  lemma OneRuns<X>(app: App<X>, p: Png<X>, c: RawChunk, rest: seq<Byte>)
    requires Proper(c) && Between(p) && p.mode != ReadDone
    ensures Run(app, p, Encode(c) + rest) == RunStep(app, ReadOne(app, p, c), rest)
  {
    hide Run, ReadHeader, Header, EatChunk, ChunkBody;
    assert Encode(c) + rest == Header(c) + (c.data + c.crc + rest);
    HeaderRuns(app, p, c, c.data + c.crc + rest);
    if ReadHeader(app, p, c).Next? {
      HeaderIs(app, p, c);
      BodyRuns(app, ReadHeader(app, p, c).p, c, rest);
    }
  }

  // after IEND everything is dropped
  lemma {:induction false} DoneRuns<X>(app: App<X>, p: Png<X>, q: seq<Byte>)
    requires p.mode == ReadDone
    ensures Run(app, p, q) == Ready(p, [])
    decreases |q|
  {
    if q != [] {
      DoneRuns(app, p, q[1..]);
    }
  }

  lemma {:induction false} AllRun<X>(app: App<X>, p: Png<X>, cs: seq<RawChunk>)
    requires (forall i :: 0 <= i < |cs| ==> Proper(cs[i])) && Between(p)
    ensures Run(app, p, EncodeAll(cs)) == RunStep(app, ReadAll(app, p, cs), [])
    decreases |cs|
  {
    hide Run, ReadOne, Encode;
    if p.mode == ReadDone {
      DoneRuns(app, p, EncodeAll(cs));
      DoneRuns(app, p, []);
      AllDone(app, p, cs);
    } else if cs != [] {
      OneRuns(app, p, cs[0], EncodeAll(cs[1..]));
      var s := ReadOne(app, p, cs[0]);
      if s.Next? {
        AllRun(app, s.p, cs[1..]);
      }
    }
  }

  lemma {:induction false} AllDone<X>(app: App<X>, p: Png<X>, cs: seq<RawChunk>)
    requires (forall i :: 0 <= i < |cs| ==> Proper(cs[i])) && Between(p) && p.mode == ReadDone
    ensures ReadAll(app, p, cs) == Next(p)
    decreases |cs|
  {
    if cs != [] {
      AllDone(app, p, cs[1..]);
    }
  }

  lemma {:induction false} SignatureRuns<X>(app: App<X>, p: Png<X>, rest: seq<Byte>)
    requires p.mode == ReadSig && p.sigBytes < 8
    ensures Run(app, p, SIGNATURE[p.sigBytes..] + rest) == Run(app, p.(mode := ReadChunk, sigBytes := 8), rest)
    decreases 8 - p.sigBytes
  {
    hide Run;
    var k := p.sigBytes;
    assert SIGNATURE[k..] + rest == [SIGNATURE[k]] + (SIGNATURE[k + 1..] + rest);
    OneAct(app, p, [SIGNATURE[k]], SIGNATURE[k + 1..] + rest);
    if k == 7 {
      assert SIGNATURE[8..] + rest == rest;
    } else {
      SignatureRuns(app, p.(sigBytes := k + 1), rest);
    }
  }

  // ---------- the log ----------

  // the chunks that were given to handlers
  function Handled(log: seq<Event>): seq<(seq<Byte>, seq<Byte>)>
  {
    if log == [] then []
    else
      var e := log[|log| - 1];
      Handled(log[..|log| - 1]) + if e.Chunk? then [(e.name, e.data)] else []
  }

  // the bytes of image data
  function Image(log: seq<Event>): seq<Byte>
  {
    if log == [] then []
    else
      var e := log[|log| - 1];
      Image(log[..|log| - 1]) + if e.Data? then [e.byte] else []
  }

  lemma LogData(log: seq<Event>, b: Byte)
    ensures Image(log + [Data(b)]) == Image(log) + [b] && Handled(log + [Data(b)]) == Handled(log)
  {
    assert (log + [Data(b)])[..|log|] == log;
  }

  lemma LogInfo(log: seq<Event>)
    ensures Image(log + [HaveInfo]) == Image(log) && Handled(log + [HaveInfo]) == Handled(log)
    ensures Image(log + [HaveEnd]) == Image(log) && Handled(log + [HaveEnd]) == Handled(log)
  {
    assert (log + [HaveInfo])[..|log|] == log && (log + [HaveEnd])[..|log|] == log;
  }

  lemma LogChunk(log: seq<Event>, name: seq<Byte>, data: seq<Byte>)
    ensures Image(log + [Chunk(name, data)]) == Image(log)
    ensures Handled(log + [Chunk(name, data)]) == Handled(log) + [(name, data)]
  {
    assert (log + [Chunk(name, data)])[..|log|] == log;
  }

  // the chunks of a file that handlers should see
  function Others(cs: seq<RawChunk>): seq<(seq<Byte>, seq<Byte>)>
  {
    if cs == [] then []
    else (if cs[0].name == IDAT then [] else [(cs[0].name, cs[0].data + cs[0].crc)]) + Others(cs[1..])
  }

  // the image data of a file
  function ImageData(cs: seq<RawChunk>): seq<Byte>
  {
    if cs == [] then [] else (if cs[0].name == IDAT then cs[0].data else []) + ImageData(cs[1..])
  }

  lemma {:induction false} EatLog<X>(app: App<X>, p: Png<X>, data: seq<Byte>)
    requires |data| <= p.idatSize && Eat(app, p, data).Next?
    ensures Image(Eat(app, p, data).p.log) == Image(p.log) + data
    ensures Handled(Eat(app, p, data).p.log) == Handled(p.log)
    decreases |data|
  {
    hide IdatByte, Image, Handled;
    if data != [] {
      IdatByteKeeps(app, p, data[0]);
      var p1 := IdatByte(app, p, data[0]).p;
      EatLog(app, p1, data[1..]);
      assert Image(p.log) + [data[0]] + data[1..] == Image(p.log) + data;
    } else {
      assert Image(p.log) + data == Image(p.log);
    }
  }

  lemma OneLog<X>(app: App<X>, p: Png<X>, c: RawChunk)
    requires Proper(c) && Between(p) && p.mode != ReadDone && ReadOne(app, p, c).Next?
    ensures var p' := ReadOne(app, p, c).p;
      Image(p'.log) == Image(p.log) + (if c.name == IDAT then c.data else []) &&
      Handled(p'.log) == Handled(p.log) + (if c.name == IDAT then [] else [(c.name, c.data + c.crc)]) &&
      (p'.mode == ReadDone <==> c.name == IEND)
  {
    hide Image, Handled, Eat, ReadHeader, Proper;
    HeaderIs(app, p, c);
    var p1 := ReadHeader(app, p, c).p;
    if c.name == IDAT {
      EatLog(app, p1, c.data);
    } else {
      LogChunk(p1.log, c.name, c.data + c.crc);
      LogInfo(p1.log + [Chunk(c.name, c.data + c.crc)]);
    }
  }

  lemma {:induction false} AllLog<X>(app: App<X>, p: Png<X>, cs: seq<RawChunk>)
    requires (forall i :: 0 <= i < |cs| ==> Proper(cs[i])) && Between(p)
    requires (cs != [] ==> p.mode != ReadDone) && forall i :: 0 <= i < |cs| - 1 ==> cs[i].name != IEND
    requires ReadAll(app, p, cs).Next?
    ensures var p' := ReadAll(app, p, cs).p;
      Image(p'.log) == Image(p.log) + ImageData(cs) && Handled(p'.log) == Handled(p.log) + Others(cs)
    decreases |cs|
  {
    hide Image, Handled, ReadOne, Proper;
    if cs == [] {
      assert Image(p.log) + [] == Image(p.log) && Handled(p.log) + [] == Handled(p.log);
    } else {
      OneLog(app, p, cs[0]);
      var p1 := ReadOne(app, p, cs[0]).p;
      AllLog(app, p1, cs[1..]);
      var d := if cs[0].name == IDAT then cs[0].data else [];
      var h := if cs[0].name == IDAT then [] else [(cs[0].name, cs[0].data + cs[0].crc)];
      assert Image(p.log) + d + ImageData(cs[1..]) == Image(p.log) + (d + ImageData(cs[1..]));
      assert Handled(p.log) + h + Others(cs[1..]) == Handled(p.log) + (h + Others(cs[1..]));
    }
  }

  // the state behind the signature
  function Signed<X>(info: Info<X>): Png<X>
  {
    Initial(8, info).(mode := ReadChunk)
  }

  // A file of chunks that ends with IEND, of whose signature the application has read less than all
  // 8 bytes, cut into pieces in any way: the reader fails just when one of the chunks, read as a
  // whole, makes it fail; otherwise its handlers have seen exactly the chunks of the file that are
  // not IDAT chunks, in order, and the image data is the concatenated contents of the IDAT chunks.
  lemma FileIsRead<X>(app: App<X>, info: Info<X>, sigBytes: nat, cs: seq<RawChunk>, pieces: seq<seq<Byte>>)
    requires sigBytes < 8
    requires forall i :: 0 <= i < |cs| ==> Proper(cs[i])
    requires forall i :: 0 <= i < |cs| - 1 ==> cs[i].name != [73, 69, 78, 68]
    requires Concat(pieces) == [137, 80, 78, 71, 13, 10, 26, 10][sigBytes..] + EncodeAll(cs)
    ensures var r := FeedAll(app, Ready(Initial(sigBytes, info), []), pieces);
      (r.Ready? <==> ReadAll(app, Signed(info), cs).Next?) &&
      (r.Ready? ==> r.waiting == [] && Handled(r.p.log) == Others(cs) && Image(r.p.log) == ImageData(cs))
  {
    hide Run, ReadAll, EncodeAll, Proper;
    var p := Initial(sigBytes, info);
    CutsDoNotMatter(app, Ready(p, []), pieces);
    assert [] + Concat(pieces) == SIGNATURE[p.sigBytes..] + EncodeAll(cs);
    SignatureRuns(app, p, EncodeAll(cs));
    var p1 := Signed(info);
    AllRun(app, p1, cs);
    var s := ReadAll(app, p1, cs);
    if s.Next? {
      AllLog(app, p1, cs);
      NothingLeft(app, s.p);
      assert Image(p1.log) + ImageData(cs) == ImageData(cs);
      assert Handled(p1.log) + Others(cs) == Others(cs);
    }
  }

  // An application that has read all 8 bytes of the signature gets an error instead, for any file
  // and any way of cutting it.
  lemma WholeSignatureRead<X>(app: App<X>, info: Info<X>, pieces: seq<seq<Byte>>)
    requires Concat(pieces) != []
    ensures FeedAll(app, Ready(Initial(8, info), []), pieces) == Failed(BadSignature, [])
  {
    hide Run;
    var p, q := Initial(8, info), Concat(pieces);
    CutsDoNotMatter(app, Ready(p, []), pieces);
    assert [] + q == [q[0]] + q[1..];
    OneAct(app, p, [q[0]], q[1..]);
  }

  lemma NothingLeft<X>(app: App<X>, p: Png<X>)
    ensures Run(app, p, []) == Ready(p, [])
  {
  }
}
