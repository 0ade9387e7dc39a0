// What the code outside the progressive reader is given: inflate gets exactly the contents of the IDAT
// chunks, byte by byte, every handler the name, the data and the CRC of its chunk, and the CRC check
// the checksum of name and data.
module PngImageData {
  import opened PngQueue
  import opened PngPushSpec
  import opened PngChunks

  // what inflate makes of the data, one byte after the other, until it rejects one or the stream ends
  function InflateAll<X>(app: App<X>, image: X, ended: bool, data: seq<Byte>): Handled<(X, bool)>
    decreases |data|
  {
    if data == [] || ended then Accept((image, ended))
    else
      match app.inflate(image, data[0])
      case Reject(code) => Reject(code)
      case Accept(v) => InflateAll(app, v.0, v.1, data[1..])
  }

  lemma {:induction false} InflateMore<X>(app: App<X>, image: X, ended: bool, a: seq<Byte>, b: seq<Byte>)
    ensures InflateAll(app, image, ended, a + b) ==
      match InflateAll(app, image, ended, a)
      case Reject(code) => Reject(code)
      case Accept(v) => InflateAll(app, v.0, v.1, b)
    decreases |a|
  {
    if a == [] {
      assert a + b == b;
    } else {
      assert (a + b)[1..] == a[1..] + b;
      if !ended && app.inflate(image, a[0]).Accept? {
        var v := app.inflate(image, a[0]).value;
        InflateMore(app, v.0, v.1, a[1..], b);
      }
    }
  }

  // Image data of any length goes to inflate and to the CRC, and changes nothing else that the
  // application sees.
  lemma {:induction false} EatInflates<X>(app: App<X>, p: Png<X>, data: seq<Byte>)
    requires |data| <= p.idatSize
    ensures match InflateAll(app, p.info.image, p.ended, data)
      case Reject(code) => Eat(app, p, data).Stop? && Eat(app, p, data).error == Inflate(code)
      case Accept(v) =>
        var s := Eat(app, p, data);
        s.Next? && s.p.info == p.info.(image := v.0) && s.p.ended == v.1 && s.p.crc == Crc(app, p.crc, data) &&
        s.p.name == p.name && s.p.sigBytes == p.sigBytes && s.p.pushLength == p.pushLength
    decreases |data|
  {
    if data != [] {
      hide IdatByte;
      OneInflates(app, p, data[0]);
      EndedStays(app, p.info.image, data);
      var s := IdatByte(app, p, data[0]);
      if s.Next? {
        EndedStays(app, s.p.info.image, data[1..]);
        EatInflates(app, s.p, data[1..]);
      }
    }
  }

  lemma OneInflates<X>(app: App<X>, p: Png<X>, b: Byte)
    requires p.idatSize > 0
    ensures var s := IdatByte(app, p, b);
      (!p.ended && app.inflate(p.info.image, b).Reject? ==>
         s.Stop? && s.error == Inflate(app.inflate(p.info.image, b).code)) &&
      (p.ended || app.inflate(p.info.image, b).Accept? ==>
         s.Next? && s.p.idatSize == p.idatSize - 1 && s.p.crc == app.crcStep(p.crc, b) && s.p.name == p.name &&
         s.p.sigBytes == p.sigBytes && s.p.pushLength == p.pushLength) &&
      (p.ended ==> s.p.info == p.info && s.p.ended) &&
      (!p.ended && app.inflate(p.info.image, b).Accept? ==>
         s.p.info == p.info.(image := app.inflate(p.info.image, b).value.0) &&
         s.p.ended == app.inflate(p.info.image, b).value.1)
  {
  }

  lemma EndedStays<X>(app: App<X>, image: X, data: seq<Byte>)
    ensures InflateAll(app, image, true, data) == Accept((image, true))
  {
  }

  lemma {:induction false} CrcMore<X>(app: App<X>, crc: nat, a: seq<Byte>, b: seq<Byte>)
    ensures Crc(app, crc, a + b) == Crc(app, Crc(app, crc, a), b)
    decreases |a|
  {
    if a == [] {
      assert a + b == b;
    } else {
      assert (a + b)[1..] == a[1..] + b;
      CrcMore(app, app.crcStep(crc, a[0]), a[1..], b);
    }
  }

  // ---------- one chunk ----------

  // what a chunk header that is accepted leaves
  lemma HeaderLeaves<X>(app: App<X>, p: Png<X>, c: RawChunk)
    requires Proper(c) && Between(p) && p.mode != ReadDone && ReadHeader(app, p, c).Next?
    ensures var p1 := ReadHeader(app, p, c).p;
      p1.name == c.name && p1.crc == Crc(app, 0, c.name) && p1.ended == p.ended && p1.idatSize >= 0 &&
      (c.name != IDAT ==> p1.info == p.info && p1.log == p.log && p1.mode == ReadChunk && (p.mode == ReadIDAT ==> p.ended)) &&
      (c.name == IDAT ==> p1.mode == ReadIDAT && p1.idatSize == |c.data|)
  {
    hide BigEndian, Bytes4, IsName, Crc;
    BigEndianBytes(|c.data|);
    assert Header(c)[..4] == Bytes4(|c.data|) && Header(c)[4..] == c.name;
  }

  // Outside image data a chunk header is accepted if and only if its name consists of letters, its
  // length is not too large for the application, an IHDR has 13 bytes, and an IDAT comes behind an IHDR,
  // behind a PLTE if the image has a palette, and not behind another run of IDATs if that is fatal.
  lemma HeaderAccepted<X>(app: App<X>, p: Png<X>, c: RawChunk)
    requires Proper(c) && Between(p) && p.mode == ReadChunk
    ensures ReadHeader(app, p, c).Next? <==>
      (forall i :: 0 <= i < 4 ==> 'A' <= c.name[i] as char <= 'Z' || 'a' <= c.name[i] as char <= 'z') &&
      |c.data| <= app.lengthLimit(p.info, c.name) &&
      (c.name == [73, 72, 68, 82] ==> |c.data| == 13) &&
      (c.name == [73, 68, 65, 84] ==>
         p.info.haveIHDR && (p.info.palette ==> p.info.havePLTE) && !(p.info.afterIDAT && app.benignFatal))
  {
    hide BigEndian, Bytes4, Crc;
    BigEndianBytes(|c.data|);
    assert Header(c)[..4] == Bytes4(|c.data|) && Header(c)[4..] == c.name;
  }

  // An IDAT chunk is read if and only if inflate takes its data and its CRC is right; the check gets
  // the checksum of name and data.
  lemma IdatIsRead<X>(app: App<X>, p: Png<X>, c: RawChunk)
    requires Proper(c) && c.name == IDAT && Between(p) && p.mode != ReadDone && ReadHeader(app, p, c).Next?
    ensures var p1 := ReadHeader(app, p, c).p;
      match InflateAll(app, p1.info.image, p.ended, c.data)
      case Reject(code) => ReadOne(app, p, c).Stop? && ReadOne(app, p, c).error == Inflate(code)
      case Accept(v) =>
        var s := ReadOne(app, p, c);
        if app.crcFatal(Crc(app, 0, c.name + c.data), c.crc) then s.Stop? && s.error == CrcError
        else
          s.Next? && s.p.info == p1.info.(image := v.0, afterIDAT := true) && s.p.ended == v.1 &&
          s.p.mode == ReadIDAT && s.p.framesRead == p1.framesRead
  {
    hide ReadHeader, Crc, InflateAll, Eat;
    HeaderIs(app, p, c);
    HeaderLeaves(app, p, c);
    var p1 := ReadHeader(app, p, c).p;
    EatInflates(app, p1, c.data);
    CrcMore(app, 0, c.name, c.data);
  }

  // A handler gets just what the log records: the name of the chunk, and its data with its CRC; what
  // it makes of the image and of the state is kept, and a code that it rejects the chunk with is the
  // error.  Behind image data this needs the end of the stream.
  lemma ChunkIsHandled<X>(app: App<X>, p: Png<X>, c: RawChunk)
    requires Proper(c) && c.name != IDAT && Between(p) && p.mode != ReadDone && ReadHeader(app, p, c).Next?
    ensures p.mode == ReadIDAT ==> p.ended
    ensures match app.handle(p.info, c.name, c.data + c.crc)
      case Reject(code) => ReadOne(app, p, c) == Stop(Handler(code), p.log)
      case Accept(info) =>
        var s := ReadOne(app, p, c);
        s.Next? && s.p.info == info && s.p.ended == p.ended &&
        s.p.mode == (if c.name == IEND then ReadDone else ReadChunk) &&
        s.p.log == p.log + [Chunk(c.name, c.data + c.crc)] + (if c.name == IEND then [HaveEnd] else [])
  {
    hide ReadHeader;
    HeaderIs(app, p, c);
    HeaderLeaves(app, p, c);
    assert p.log + [Chunk(c.name, c.data + c.crc)] + [] == p.log + [Chunk(c.name, c.data + c.crc)];
  }

  // ---------- a run of IDAT chunks ----------

  predicate AllIdats(cs: seq<RawChunk>)
  {
    forall i :: 0 <= i < |cs| ==> Proper(cs[i]) && cs[i].name == IDAT
  }

  // a further IDAT: its header is always accepted and changes nothing for the application
  lemma NextIdat<X>(app: App<X>, p: Png<X>, c: RawChunk)
    requires Proper(c) && c.name == IDAT && Between(p) && p.mode == ReadIDAT && p.framesRead == 0
    ensures ReadHeader(app, p, c).Next?
    ensures ReadHeader(app, p, c).p.info == p.info && ReadHeader(app, p, c).p.framesRead == 0
  {
    hide BigEndian, Bytes4, Crc;
    BigEndianBytes(|c.data|);
    assert Header(c)[..4] == Bytes4(|c.data|) && Header(c)[4..] == c.name;
  }

  lemma {:induction false} IdatsInflate<X>(app: App<X>, p: Png<X>, cs: seq<RawChunk>)
    requires AllIdats(cs) && Between(p) && p.mode == ReadIDAT && p.framesRead == 0
    ensures var (s, r) := (ReadAll(app, p, cs), InflateAll(app, p.info.image, p.ended, ImageData(cs)));
      if s.Next? then
        r == Accept((s.p.info.image, s.p.ended)) && s.p.mode == ReadIDAT && s.p.framesRead == 0
      else s.error == CrcError || (s.error.Inflate? && r == Reject(s.error.code))
    decreases |cs|
  {
    hide ReadOne, ReadHeader, InflateAll, Crc, Proper, Between;
    if cs == [] {
      InflateNothing(app, p.info.image, p.ended);
    } else {
      NextIdat(app, p, cs[0]);
      IdatIsRead(app, p, cs[0]);
      InflateMore(app, p.info.image, p.ended, cs[0].data, ImageData(cs[1..]));
      var s := ReadOne(app, p, cs[0]);
      if s.Next? {
        IdatsInflate(app, s.p, cs[1..]);
      }
    }
  }

  lemma InflateNothing<X>(app: App<X>, image: X, ended: bool)
    ensures InflateAll(app, image, ended, []) == Accept((image, ended))
  {
  }

  // the image that the first IDAT of a run starts with
  function Started<X>(app: App<X>, info: Info<X>, c: RawChunk): X
  {
    if info.haveIDAT && !info.haveChunkAfterIDAT && !info.afterIDAT && c.data == [] then info.image
    else app.start(info.image)
  }

  lemma FirstIdat<X>(app: App<X>, p: Png<X>, c: RawChunk)
    requires Proper(c) && c.name == IDAT && Between(p) && p.mode == ReadChunk && ReadHeader(app, p, c).Next?
    ensures ReadHeader(app, p, c).p.info.image == Started(app, p.info, c)
    ensures ReadHeader(app, p, c).p.framesRead == p.framesRead && p.info.haveIHDR
  {
    hide BigEndian, Bytes4, Crc, IsName;
    BigEndianBytes(|c.data|);
    assert Header(c)[..4] == Bytes4(|c.data|) && Header(c)[4..] == c.name;
  }

  // The first run of IDAT chunks of a file goes to inflate as one stream, however it is divided into
  // chunks: the image is what inflate makes of the concatenated data, and an error of inflate is the
  // error of the reader.
  lemma RunInflates<X>(app: App<X>, p: Png<X>, cs: seq<RawChunk>)
    requires AllIdats(cs) && cs != [] && Between(p) && p.mode == ReadChunk && p.framesRead == 0
    requires ReadHeader(app, p, cs[0]).Next?
    ensures var s := ReadAll(app, p, cs);
      var r := InflateAll(app, Started(app, p.info, cs[0]), p.ended, ImageData(cs));
      if s.Next? then r == Accept((s.p.info.image, s.p.ended)) && s.p.mode == ReadIDAT && s.p.framesRead == 0
      else s.error == CrcError || (s.error.Inflate? && r == Reject(s.error.code))
  {
    hide ReadOne, ReadHeader, InflateAll, Crc, Proper, Between, Started;
    FirstIdat(app, p, cs[0]);
    IdatIsRead(app, p, cs[0]);
    InflateMore(app, Started(app, p.info, cs[0]), p.ended, cs[0].data, ImageData(cs[1..]));
    var s := ReadOne(app, p, cs[0]);
    if s.Next? {
      IdatsInflate(app, s.p, cs[1..]);
    }
  }

  // ---------- a file up to the end of its image data ----------

  lemma {:induction false} ReadMore<X>(app: App<X>, p: Png<X>, front: seq<RawChunk>, back: seq<RawChunk>)
    requires (forall i :: 0 <= i < |front| ==> Proper(front[i])) && (forall i :: 0 <= i < |back| ==> Proper(back[i])) && Between(p)
    ensures forall i :: 0 <= i < |front + back| ==> Proper((front + back)[i])
    ensures ReadAll(app, p, front + back) ==
      var s := ReadAll(app, p, front);
      if s.Stop? then s else ReadAll(app, s.p, back)
    decreases |front|
  {
    hide ReadOne, Proper, Between;
    if front == [] {
      assert front + back == back;
    } else {
      assert (front + back)[1..] == front[1..] + back;
      var s := ReadOne(app, p, front[0]);
      if s.Next? {
        ReadMore(app, s.p, front[1..], back);
      }
    }
  }

  // chunks in front of the image data leave the reader ready for it
  lemma {:induction false} BeforeImage<X>(app: App<X>, p: Png<X>, cs: seq<RawChunk>)
    requires forall i :: 0 <= i < |cs| ==> Proper(cs[i]) && cs[i].name != IDAT && cs[i].name != IEND
    requires Between(p) && p.mode == ReadChunk && ReadAll(app, p, cs).Next?
    ensures var s := ReadAll(app, p, cs);
      s.p.mode == ReadChunk && s.p.framesRead == p.framesRead && s.p.ended == p.ended
    decreases |cs|
  {
    hide ReadOne, ReadHeader, Between, Proper;
    if cs != [] {
      OneBefore(app, p, cs[0]);
      BeforeImage(app, ReadOne(app, p, cs[0]).p, cs[1..]);
    }
  }

  lemma OneBefore<X>(app: App<X>, p: Png<X>, c: RawChunk)
    requires Proper(c) && c.name != IDAT && c.name != IEND && Between(p) && p.mode == ReadChunk
    requires ReadOne(app, p, c).Next?
    ensures var s := ReadOne(app, p, c);
      s.p.mode == ReadChunk && s.p.framesRead == p.framesRead && s.p.ended == p.ended
  {
    hide BigEndian, Bytes4, Crc, IsName;
    BigEndianBytes(|c.data|);
    assert Header(c)[..4] == Bytes4(|c.data|) && Header(c)[4..] == c.name;
  }

  // However the beginning of a file is cut, up to the end of its image data: the image is what inflate
  // makes of the concatenated contents of the IDAT chunks, from the image that the handlers before them
  // have left, and nothing but inflate, a CRC or the first IDAT header can make the reader fail there.
  lemma ImageIsInflated<X>(app: App<X>, info: Info<X>, sigBytes: nat, front: seq<RawChunk>, idats: seq<RawChunk>,
                           pieces: seq<seq<Byte>>)
    requires sigBytes < 8 && AllIdats(idats) && idats != []
    requires forall i :: 0 <= i < |front| ==> Proper(front[i]) && front[i].name != IDAT && front[i].name != IEND
    requires Concat(pieces) == SIGNATURE[sigBytes..] + (EncodeAll(front) + EncodeAll(idats))
    requires ReadAll(app, Signed(info), front).Next?
    ensures var r := FeedAll(app, Ready(Initial(sigBytes, info), []), pieces);
      var p := ReadAll(app, Signed(info), front).p;
      if ReadHeader(app, p, idats[0]).Stop? then r.Failed? && r.error == ReadHeader(app, p, idats[0]).error
      else
        var image := InflateAll(app, Started(app, p.info, idats[0]), false, ImageData(idats));
        if r.Ready? then r.waiting == [] && image == Accept((r.p.info.image, r.p.ended))
        else r.error == CrcError || (r.error.Inflate? && image == Reject(r.error.code))
  {
    hide Run, ReadAll, ReadHeader, EncodeAll, Proper, InflateAll, Started, Between;
    var p0, p1 := Initial(sigBytes, info), Signed(info);
    SignedIsBetween(info);
    CutsDoNotMatter(app, Ready(p0, []), pieces);
    assert [] + Concat(pieces) == SIGNATURE[p0.sigBytes..] + (EncodeAll(front) + EncodeAll(idats));
    SignatureRuns(app, p0, EncodeAll(front) + EncodeAll(idats));
    EncodeMore(front, idats);
    ReadMore(app, p1, front, idats);
    AllRun(app, p1, front + idats);
    BeforeImage(app, p1, front);
    var p := ReadAll(app, p1, front).p;
    if ReadHeader(app, p, idats[0]).Next? {
      RunInflates(app, p, idats);
      if ReadAll(app, p, idats).Next? {
        NothingLeft(app, ReadAll(app, p, idats).p);
      }
    } else {
      StopsAtOnce(app, p, idats);
    }
  }

  lemma SignedIsBetween<X>(info: Info<X>)
    ensures Between(Signed(info))
  {
  }

  lemma StopsAtOnce<X>(app: App<X>, p: Png<X>, cs: seq<RawChunk>)
    requires cs != [] && (forall i :: 0 <= i < |cs| ==> Proper(cs[i])) && Between(p) && p.mode == ReadChunk
    requires ReadHeader(app, p, cs[0]).Stop?
    ensures ReadAll(app, p, cs) == ReadHeader(app, p, cs[0])
  {
    hide ReadHeader;
  }

  lemma {:induction false} EncodeMore(front: seq<RawChunk>, back: seq<RawChunk>)
    requires (forall i :: 0 <= i < |front| ==> Proper(front[i])) && (forall i :: 0 <= i < |back| ==> Proper(back[i]))
    ensures forall i :: 0 <= i < |front + back| ==> Proper((front + back)[i])
    ensures EncodeAll(front + back) == EncodeAll(front) + EncodeAll(back)
    decreases |front|
  {
    hide Encode, Proper;
    if front == [] {
      assert front + back == back;
    } else {
      assert (front + back)[1..] == front[1..] + back;
      EncodeMore(front[1..], back);
    }
  }
}
