// The progressive PNG reader as a machine that takes the bytes it needs, when they are there.
// However the input is cut into pieces, the machine ends up in the same state with the same log.
// A plain PNG is meant: the APNG chunks are not modelled.
module PngPushSpec {
  import opened PngQueue

  datatype Error = BadSignature | OutOfRange | BadChunkName | ChunkTooLarge | MissingIHDR | MissingPLTE
    | BadIHDRLength | TooManyIDATs | NotEnoughData | CrcError | FrameData | Handler(code: nat) | Inflate(code: nat)

  datatype Mode = ReadSig | ReadChunk | ReadIDAT | ReadDone

  const SIGNATURE: seq<Byte> := [137, 80, 78, 71, 13, 10, 26, 10]
  const IHDR: seq<Byte> := [73, 72, 68, 82]
  const IDAT: seq<Byte> := [73, 68, 65, 84]
  const IEND: seq<Byte> := [73, 69, 78, 68]
  const FDAT: seq<Byte> := [102, 100, 65, 84]

  // what the chunk handlers and the reader share
  datatype Info<X> = Info(haveIHDR: bool, havePLTE: bool, palette: bool,
                          haveIDAT: bool, afterIDAT: bool, haveChunkAfterIDAT: bool, image: X)

  datatype Handled<X> = Accept(value: X) | Reject(code: nat)

  // Code outside the reader.  A handler gets the name of a chunk, its data and its 4 CRC bytes;
  // inflate takes a byte of compressed image data and tells whether that was the last one.
  datatype App<!X> = App(
    handle: (Info<X>, seq<Byte>, seq<Byte>) -> Handled<Info<X>>,
    inflate: (X, Byte) -> Handled<(X, bool)>,
    start: X -> X,
    lengthLimit: (Info<X>, seq<Byte>) -> nat,
    crcStep: (nat, Byte) -> nat,
    crcFatal: (nat, seq<Byte>) -> bool,
    benignFatal: bool)          // are benign errors errors, or only warnings?

  datatype Event = Chunk(name: seq<Byte>, data: seq<Byte>) | HaveInfo | Data(byte: Byte) | HaveEnd

  datatype Png<X> = Png(
    mode: Mode,
    sigBytes: nat,
    header: bool,               // PNG_HAVE_CHUNK_HEADER
    name: seq<Byte>,
    pushLength: nat,
    idatSize: nat,
    crc: nat,
    ended: bool,                // PNG_FLAG_ZSTREAM_ENDED
    framesRead: nat,
    info: Info<X>,
    log: seq<Event>)

  datatype Step<X> = Next(p: Png<X>) | Stop(error: Error, log: seq<Event>)

  function Initial<X>(sigBytes: nat, info: Info<X>): Png<X>
  {
    Png(ReadSig, sigBytes, false, [], 0, 0, 0, false, 0, info, [])
  }

  // ---------- one step ----------

  // how many bytes must be waiting
  function Need<X>(p: Png<X>): (n: nat)
    ensures n > 0
  {
    match p.mode
    case ReadSig => 1
    case ReadChunk => if p.header then p.pushLength + 4 else 8
    case ReadIDAT => if !p.header then 12 else if p.idatSize > 0 then 1 else 4
    case ReadDone => 1
  }

  // how many of them are used
  function Used<X>(p: Png<X>): (n: nat)
    ensures 0 < n <= Need(p)
  {
    if p.mode == ReadIDAT && !p.header then 8 else Need(p)
  }

  function BigEndian(q: seq<Byte>): nat
    requires |q| == 4
  {
    q[0] as nat * 0x100_0000 + q[1] as nat * 0x1_0000 + q[2] as nat * 0x100 + q[3]
  }

  const UINT_31_MAX := 0x7FFF_FFFF

  // png_check_chunk_name: ASCII letters
  predicate IsName(name: seq<Byte>)
  {
    |name| == 4 && forall i :: 0 <= i < 4 ==> 65 <= name[i] <= 90 || 97 <= name[i] <= 122
  }

  function Crc<X>(app: App<X>, crc: nat, q: seq<Byte>): nat
    decreases |q|
  {
    if q == [] then crc else Crc(app, app.crcStep(crc, q[0]), q[1..])
  }

  // one byte of the signature
  function SigByte<X>(p: Png<X>, b: Byte): Step<X>
  {
    if p.sigBytes >= 8 || b != SIGNATURE[p.sigBytes] then Stop(BadSignature, p.log)
    else Next(p.(sigBytes := p.sigBytes + 1, mode := if p.sigBytes + 1 >= 8 then ReadChunk else ReadSig))
  }

  // what png_push_read_chunk does with a chunk header before it waits for the data
  function Begin<X>(app: App<X>, p: Png<X>): (r: Step<X>)
    ensures r.Next? && r.p.mode == ReadChunk ==> r.p == p
    ensures p.name != IDAT && !(p.name == IHDR && p.pushLength != 13) ==> r == Next(p)
  {
    if p.name == IDAT then
      var info := p.info.(haveChunkAfterIDAT := p.info.haveChunkAfterIDAT || p.info.afterIDAT);
      if !info.haveIHDR then Stop(MissingIHDR, p.log)
      else if info.palette && !info.havePLTE then Stop(MissingPLTE, p.log)
      else if info.haveIDAT && !info.haveChunkAfterIDAT && p.pushLength == 0 then
        Next(p.(mode := ReadIDAT, info := info))
      else if info.afterIDAT && app.benignFatal then Stop(TooManyIDATs, p.log)
      else
        Next(p.(mode := ReadIDAT, idatSize := p.pushLength, log := p.log + [HaveInfo],
                info := info.(haveIDAT := true, image := app.start(info.image))))
    else if p.name == IHDR && p.pushLength != 13 then Stop(BadIHDRLength, p.log)
    else Next(p)
  }

  function ChunkHeader<X>(app: App<X>, p: Png<X>, q: seq<Byte>): Step<X>
    requires |q| == 8
  {
    var name := q[4..];
    if BigEndian(q[..4]) > UINT_31_MAX then Stop(OutOfRange, p.log)
    else if !IsName(name) then Stop(BadChunkName, p.log)
    else if BigEndian(q[..4]) > app.lengthLimit(p.info, name) then Stop(ChunkTooLarge, p.log)
    else Begin(app, p.(header := true, name := name, pushLength := BigEndian(q[..4]), crc := Crc(app, 0, name)))
  }

  // a chunk other than IDAT, with its CRC
  function ChunkBody<X>(app: App<X>, p: Png<X>, q: seq<Byte>): Step<X>
  {
    match app.handle(p.info, p.name, q)
    case Reject(code) => Stop(Handler(code), p.log)
    case Accept(info) =>
      var log := p.log + [Chunk(p.name, q)];
      Next(p.(info := info, header := false, mode := if p.name == IEND then ReadDone else p.mode,
              log := if p.name == IEND then log + [HaveEnd] else log))
  }

  // the header of the chunk behind an IDAT: another IDAT, or the end of the image data
  function NextChunk<X>(app: App<X>, p: Png<X>): Step<X>
  {
    if p.framesRead > 0 && p.name == FDAT then Stop(FrameData, p.log)
    else if p.framesRead == 0 && p.name == IDAT then Next(p.(idatSize := p.pushLength))
    else if !p.ended then Stop(NotEnoughData, p.log)
    else Begin(app, p.(mode := ReadChunk, framesRead := p.framesRead + 1))
  }

  function IdatHeader<X>(app: App<X>, p: Png<X>, q: seq<Byte>): Step<X>
    requires |q| == 8
  {
    if BigEndian(q[..4]) > UINT_31_MAX then Stop(OutOfRange, p.log)
    else
      NextChunk(app, p.(header := true, name := q[4..], pushLength := BigEndian(q[..4]), crc := Crc(app, 0, q[4..])))
  }

  // one byte of image data
  function IdatByte<X>(app: App<X>, p: Png<X>, b: Byte): Step<X>
    requires p.idatSize > 0
  {
    var p1 := p.(idatSize := p.idatSize - 1, crc := app.crcStep(p.crc, b), log := p.log + [Data(b)]);
    if p.ended then Next(p1)
    else
      match app.inflate(p.info.image, b)
      case Reject(code) => Stop(Inflate(code), p1.log)
      case Accept(v) => Next(p1.(ended := v.1, info := p.info.(image := v.0)))
  }

  function IdatCrc<X>(app: App<X>, p: Png<X>, q: seq<Byte>): Step<X>
  {
    if app.crcFatal(p.crc, q) then Stop(CrcError, p.log)
    else Next(p.(header := false, info := p.info.(afterIDAT := true)))
  }

  function Act<X>(app: App<X>, p: Png<X>, q: seq<Byte>): Step<X>
    requires |q| == Used(p)
  {
    match p.mode
    case ReadSig => SigByte(p, q[0])
    case ReadChunk => if p.header then ChunkBody(app, p, q) else ChunkHeader(app, p, q)
    case ReadIDAT =>
      if !p.header then IdatHeader(app, p, q)
      else if p.idatSize > 0 then IdatByte(app, p, q[0])
      else IdatCrc(app, p, q)
    case ReadDone => Next(p)
  }

  // ---------- runs ----------

  // the state of the reader and the bytes that wait, or how it failed
  datatype Outcome<X> = Ready(p: Png<X>, waiting: seq<Byte>) | Failed(error: Error, log: seq<Event>)

  function Run<X>(app: App<X>, p: Png<X>, q: seq<Byte>): (r: Outcome<X>)
    ensures r.Ready? ==> |r.waiting| < Need(r.p)
    decreases |q|, 0
  {
    if |q| < Need(p) then Ready(p, q)
    else RunStep(app, Act(app, p, q[..Used(p)]), q[Used(p)..])
  }

  function RunStep<X>(app: App<X>, s: Step<X>, q: seq<Byte>): (r: Outcome<X>)
    ensures r.Ready? ==> |r.waiting| < Need(r.p)
    decreases |q|, 1
  {
    match s
    case Stop(error, log) => Failed(error, log)
    case Next(p) => Run(app, p, q)
  }

  // png_process_data
  function Feed<X>(app: App<X>, r: Outcome<X>, data: seq<Byte>): Outcome<X>
  {
    if r.Failed? then r else Run(app, r.p, r.waiting + data)
  }

  function FeedAll<X>(app: App<X>, r: Outcome<X>, pieces: seq<seq<Byte>>): Outcome<X>
    decreases |pieces|
  {
    if pieces == [] then r else FeedAll(app, Feed(app, r, pieces[0]), pieces[1..])
  }

  function Concat(pieces: seq<seq<Byte>>): seq<Byte>
  {
    if pieces == [] then [] else pieces[0] + Concat(pieces[1..])
  }

  // ---------- the cuts do not matter ----------

  lemma {:induction false} RunMore<X>(app: App<X>, p: Png<X>, q: seq<Byte>, more: seq<Byte>)
    ensures Run(app, p, q + more) == Feed(app, Run(app, p, q), more)
    decreases |q|
  {
    hide Act;
    if |q| >= Need(p) {
      var n := Used(p);
      assert (q + more)[..n] == q[..n] && (q + more)[n..] == q[n..] + more;
      var s := Act(app, p, q[..n]);
      if s.Next? {
        RunMore(app, s.p, q[n..], more);
      }
    }
  }

  lemma FeedTwice<X>(app: App<X>, r: Outcome<X>, a: seq<Byte>, b: seq<Byte>)
    ensures Feed(app, Feed(app, r, a), b) == Feed(app, r, a + b)
  {
    if r.Ready? {
      RunMore(app, r.p, r.waiting + a, b);
      assert r.waiting + a + b == r.waiting + (a + b);
    }
  }

  // nothing to do before more data comes
  predicate Settled<X>(r: Outcome<X>)
  {
    r.Ready? ==> |r.waiting| < Need(r.p)
  }

  // Any way of cutting the input into calls leads to the same state with the same log: the same
  // chunks, with the same data, in the same order, and the same bytes of image data.
  lemma {:induction false} CutsDoNotMatter<X>(app: App<X>, r: Outcome<X>, pieces: seq<seq<Byte>>)
    requires Settled(r)
    ensures FeedAll(app, r, pieces) == Feed(app, r, Concat(pieces))
    decreases |pieces|
  {
    if pieces == [] {
      if r.Ready? {
        assert r.waiting + [] == r.waiting;
      }
    } else {
      CutsDoNotMatter(app, Feed(app, r, pieces[0]), pieces[1..]);
      FeedTwice(app, r, pieces[0], Concat(pieces[1..]));
    }
  }

  lemma SameInputSameOutcome<X>(app: App<X>, r: Outcome<X>, a: seq<seq<Byte>>, b: seq<seq<Byte>>)
    requires Settled(r) && Concat(a) == Concat(b)
    ensures FeedAll(app, r, a) == FeedAll(app, r, b)
  {
    CutsDoNotMatter(app, r, a);
    CutsDoNotMatter(app, r, b);
  }
}
