// The progressive PNG reader, working on its queue, against the machine of PngPushSpec.
module PngPush {
  import opened Wrappers
  import opened PngQueue
  import opened PngPushSpec
  import opened PngChunks
  import opened PngImageData

  // what is to come when the reader has p and q
  function Target<X>(app: App<X>, p: Png<X>, q: seq<Byte>): Outcome<X>
  {
    if p.mode == ReadChunk && p.header then RunStep(app, Begin(app, p), q) else Run(app, p, q)
  }

  class PngReader<X> {
    const app: App<X>
    const queue: PngQueue

    var processMode: Mode
    var sigBytes: nat
    var haveChunkHeader: bool
    var chunkName: seq<Byte>
    var pushLength: nat
    var idatSize: nat
    var crc: nat
    var zstreamEnded: bool
    var numFramesRead: nat
    var info: Info<X>
    var log: seq<Event>
    var error: Option<Error>

    function St(): Png<X>
      reads this
    {
      Png(processMode, sigBytes, haveChunkHeader, chunkName, pushLength, idatSize, crc,
          zstreamEnded, numFramesRead, info, log)
    }

    // Between two steps: a chunk header has been looked at, or there is data left to look at it
    ghost predicate Valid()
      reads this, queue, queue.saveBuffer
    {
      error.None? && queue.Valid() && sigBytes <= 8 && (processMode == ReadSig ==> !haveChunkHeader) &&
      (numFramesRead > 0 ==> zstreamEnded) &&
      (processMode == ReadChunk && haveChunkHeader ==> Begin(app, St()) == Next(St()) || queue.bufferSize > 0) &&
      if queue.bufferSize > 0 then queue.Open()
      else processMode == ReadDone || (queue.currentBufferSize == 0 && |queue.Queue()| < Need(St()))
    }

    // before and after a call
    ghost predicate Resting()
      reads this, queue, queue.saveBuffer
    {
      Valid() && queue.bufferSize == 0
    }

    function Waiting(): seq<Byte>
      reads this, queue, queue.saveBuffer
      requires queue.Valid()
    {
      if processMode == ReadDone then [] else queue.Queue()
    }

    // with sig_bytes bytes of the signature already read by the application
    constructor (app: App<X>, sigBytes: nat, info: Info<X>)
      requires sigBytes <= 8
      ensures Resting() && St() == Initial(sigBytes, info) && Waiting() == []
      ensures this.app == app && fresh(queue) && queue.saveBuffer == null
    {
      this.app := app;
      queue := new PngQueue();
      processMode, this.sigBytes, haveChunkHeader, chunkName := ReadSig, sigBytes, false, [];
      pushLength, idatSize, crc, zstreamEnded, numFramesRead := 0, 0, 0, false, 0;
      this.info, log, error := info, [], None;
    }

    // png_error
    method Fail(e: Error)
      modifies `error
      ensures error == Some(e)
    {
      error := Some(e);
    }

    // png_push_read_sig
    method ReadSigBytes()
      requires Valid() && processMode == ReadSig && queue.bufferSize > 0
      modifies this, queue
      ensures queue.saveBuffer == old(queue.saveBuffer)
      ensures error.None? ==> Valid() && queue.bufferSize < old(queue.bufferSize)
      ensures error.None? ==> Target(app, St(), queue.Queue()) == old(Target(app, St(), queue.Queue()))
      ensures error.Some? ==> old(Target(app, St(), queue.Queue())) == Failed(error.value, log)
    {
      hide Run, PngQueue.Queue, PngQueue.Saved, PngQueue.Current;
      var numChecked, numToCheck := sigBytes, 8 - sigBytes;
      if queue.bufferSize < numToCheck {
        numToCheck := queue.bufferSize;
      }
      ghost var q := queue.Queue();
      SigRuns(app, St(), q, numToCheck);
      var signature := queue.FillBuffer(numToCheck);
      sigBytes := sigBytes + numToCheck;
      if numToCheck == 0 || signature != SIGNATURE[numChecked..numChecked + numToCheck] {
        Fail(BadSignature);
      } else if sigBytes >= 8 {
        processMode := ReadChunk;
      }
    }

    // the length and the tag of a chunk
    method TakeHeader() returns (chunkLength: seq<Byte>, chunkTag: seq<Byte>)
      requires queue.Open() && queue.bufferSize >= 8
      modifies queue
      ensures queue.Open() && queue.saveBuffer == old(queue.saveBuffer)
      ensures queue.bufferSize == old(queue.bufferSize) - 8
      ensures |chunkLength| == 4 && |chunkTag| == 4
      ensures chunkLength + chunkTag == old(queue.Queue())[..8] && queue.Queue() == old(queue.Queue())[8..]
    {
      hide PngQueue.Queue, PngQueue.Saved, PngQueue.Current;
      chunkLength := queue.FillBuffer(4);
      chunkTag := queue.FillBuffer(4);
    }

    method CheckChunkHeader(chunkLength: seq<Byte>, chunkTag: seq<Byte>)
      requires |chunkLength| == 4 && |chunkTag| == 4 && error.None?
      modifies this
      ensures processMode == old(processMode) && sigBytes == old(sigBytes)
      ensures numFramesRead == old(numFramesRead) && zstreamEnded == old(zstreamEnded)
      ensures error.None? ==>
        haveChunkHeader && ChunkHeader(app, old(St()), chunkLength + chunkTag) == Begin(app, St())
      ensures error.Some? ==> ChunkHeader(app, old(St()), chunkLength + chunkTag) == Stop(error.value, log)
    {
      hide Begin, BigEndian, IsName, Crc;
      assert (chunkLength + chunkTag)[..4] == chunkLength && (chunkLength + chunkTag)[4..] == chunkTag;
      pushLength := BigEndian(chunkLength);
      if pushLength > UINT_31_MAX {
        Fail(OutOfRange);
        return;
      }
      crc := Crc(app, 0, chunkTag);
      chunkName := chunkTag;
      if !IsName(chunkName) {
        Fail(BadChunkName);
        return;
      }
      if pushLength > app.lengthLimit(info, chunkName) {
        Fail(ChunkTooLarge);
        return;
      }
      haveChunkHeader := true;
    }

    // the header of a chunk
    method ReadChunkHeader()
      requires Valid() && processMode == ReadChunk && !haveChunkHeader && queue.bufferSize >= 8
      modifies this, queue
      ensures queue.saveBuffer == old(queue.saveBuffer)
      ensures error.None? ==> HeaderRead() && queue.bufferSize == old(queue.bufferSize) - 8
      ensures error.None? ==> Target(app, St(), queue.Queue()) == old(Target(app, St(), queue.Queue()))
      ensures error.Some? ==> old(Target(app, St(), queue.Queue())) == Failed(error.value, log)
    {
      hide Run, Begin, ChunkHeader, PngQueue.Queue, PngQueue.Saved, PngQueue.Current;
      ghost var p, q := St(), queue.Queue();
      OneAct(app, p, q[..8], q[8..]);
      assert q == q[..8] + q[8..];
      var chunkLength, chunkTag := TakeHeader();
      CheckChunkHeader(chunkLength, chunkTag);
    }

    // the header of the current chunk is there, in chunk mode
    ghost predicate HeaderRead()
      reads this, queue, queue.saveBuffer
    {
      error.None? && queue.Open() && sigBytes <= 8 && (numFramesRead > 0 ==> zstreamEnded) &&
      processMode == ReadChunk && haveChunkHeader
    }

    // what must come before the image data
    method CheckOrder()
      requires error.None?
      modifies `info, `error
      ensures info == old(if info.afterIDAT then info.(haveChunkAfterIDAT := true) else info)
      ensures error == if !info.haveIHDR then Some(MissingIHDR)
                       else if info.palette && !info.havePLTE then Some(MissingPLTE) else None
    {
      if info.afterIDAT {
        info := info.(haveChunkAfterIDAT := true);
      }
      if !info.haveIHDR {
        Fail(MissingIHDR);
      } else if info.palette && !info.havePLTE {
        Fail(MissingPLTE);
      }
    }

    // the application gets the header, unless there are too many IDATs
    method StartImage()
      requires error.None?
      modifies `info, `error, `idatSize, `log
      ensures error.Some? ==> error == Some(TooManyIDATs) && old(info).afterIDAT && app.benignFatal && log == old(log)
      ensures error.None? ==>
        !(old(info).afterIDAT && app.benignFatal) && idatSize == pushLength && log == old(log) + [HaveInfo] &&
        info == old(info).(haveIDAT := true, image := app.start(old(info).image))
    {
      info := info.(haveIDAT := true);
      if info.afterIDAT && app.benignFatal {
        Fail(TooManyIDATs);
        return;
      }
      idatSize := pushLength;
      log := log + [HaveInfo];
      info := info.(image := app.start(info.image));
    }

    // an IDAT chunk: the image begins
    method BeginImage()
      requires error.None? && chunkName == IDAT
      modifies `processMode, `info, `error, `idatSize, `log
      ensures error.None? ==> processMode == ReadIDAT && Begin(app, old(St())) == Next(St())
      ensures error.Some? ==> Begin(app, old(St())) == Stop(error.value, log)
    {
      CheckOrder();
      if error.Some? {
        return;
      }
      processMode := ReadIDAT;
      if info.haveIDAT && !info.haveChunkAfterIDAT && pushLength == 0 {
        return;
      }
      StartImage();
    }

    method ApplyHandler(data: seq<Byte>)
      requires error.None?
      modifies this
      ensures sigBytes == old(sigBytes) && numFramesRead == old(numFramesRead) && zstreamEnded == old(zstreamEnded)
      ensures error.None? ==> ChunkBody(app, old(St()), data) == Next(St()) && !haveChunkHeader
      ensures error.None? ==> processMode == old(processMode) || processMode == ReadDone
      ensures error.Some? ==> ChunkBody(app, old(St()), data) == Stop(error.value, log)
    {
      var handled := app.handle(info, chunkName, data);
      if handled.Reject? {
        Fail(Handler(handled.code));
        return;
      }
      info := handled.value;
      log := log + [Chunk(chunkName, data)];
      if chunkName == IEND {
        processMode := ReadDone;
        log := log + [HaveEnd];
      }
      haveChunkHeader := false;
    }

    // a chunk whose data and CRC are there
    method HandleChunk()
      requires HeaderRead() && chunkName != IDAT && queue.bufferSize >= pushLength + 4
      modifies this, queue
      ensures queue.saveBuffer == old(queue.saveBuffer)
      ensures error.None? ==> Valid() && queue.bufferSize < old(queue.bufferSize)
      ensures error.None? ==> Target(app, St(), queue.Queue()) == old(Run(app, St(), queue.Queue()))
      ensures error.Some? ==> old(Run(app, St(), queue.Queue())) == Failed(error.value, log)
    {
      hide Run, ChunkBody, Begin, PngQueue.Queue, PngQueue.Saved, PngQueue.Current;
      ghost var p, q := St(), queue.Queue();
      OneAct(app, p, q[..pushLength + 4], q[pushLength + 4..]);
      assert q == q[..pushLength + 4] + q[pushLength + 4..];
      var data := queue.FillBuffer(pushLength + 4);
      ApplyHandler(data);
    }

    // the rest of png_push_read_chunk
    method ReadChunkData()
      requires HeaderRead()
      modifies this, queue, queue.saveBuffer
      ensures queue.saveBuffer == old(queue.saveBuffer) || fresh(queue.saveBuffer)
      ensures error.None? ==> Valid() && queue.bufferSize <= old(queue.bufferSize)
      ensures error.None? && queue.bufferSize > 0 && queue.bufferSize == old(queue.bufferSize) ==> processMode == ReadIDAT
      ensures error.None? ==> Target(app, St(), queue.Queue()) == old(Target(app, St(), queue.Queue()))
      ensures error.Some? ==> old(Target(app, St(), queue.Queue())) == Failed(error.value, log)
    {
      hide Run, PngQueue.Queue, PngQueue.Saved, PngQueue.Current;
      if chunkName == IDAT {
        BeginImage();
        return;
      }
      if chunkName == IHDR && pushLength != 13 {
        Fail(BadIHDRLength);
        return;
      }
      if pushLength + 4 > queue.bufferSize {
        queue.SaveBuffer();
        return;
      }
      HandleChunk();
    }

    // png_push_read_chunk
    method ReadNextChunk()
      requires Valid() && processMode == ReadChunk && queue.bufferSize > 0
      modifies this, queue, queue.saveBuffer
      ensures queue.saveBuffer == old(queue.saveBuffer) || fresh(queue.saveBuffer)
      ensures error.None? ==> Valid() && queue.bufferSize <= old(queue.bufferSize)
      ensures error.None? && queue.bufferSize > 0 && queue.bufferSize == old(queue.bufferSize) ==> processMode == ReadIDAT
      ensures error.None? ==> Target(app, St(), queue.Queue()) == old(Target(app, St(), queue.Queue()))
      ensures error.Some? ==> old(Target(app, St(), queue.Queue())) == Failed(error.value, log)
    {
      hide Run, Begin, PngQueue.Queue, PngQueue.Saved, PngQueue.Current;
      if !haveChunkHeader {
        if queue.bufferSize < 8 {
          queue.SaveBuffer();
          return;
        }
        ReadChunkHeader();
        if error.Some? {
          return;
        }
      }
      ReadChunkData();
    }

    // ---------- IDAT ----------

    // another IDAT, or the end of the image data
    method ChooseMode()
      requires error.None? && processMode == ReadIDAT && (numFramesRead > 0 ==> zstreamEnded)
      modifies this
      ensures sigBytes == old(sigBytes) && haveChunkHeader == old(haveChunkHeader)
      ensures error.None? ==> (processMode == ReadChunk || processMode == ReadIDAT) && (numFramesRead > 0 ==> zstreamEnded)
      ensures error.None? && processMode == ReadChunk ==> NextChunk(app, old(St())) == Begin(app, St())
      ensures error.None? && processMode == ReadIDAT ==> NextChunk(app, old(St())) == Next(St())
      ensures error.Some? ==> NextChunk(app, old(St())) == Stop(error.value, log)
    {
      hide Begin;
      if chunkName != FDAT && numFramesRead > 0 {
        // the stream has ended, as it has after every run of IDAT chunks
        processMode := ReadChunk;
        numFramesRead := numFramesRead + 1;
        return;
      } else if chunkName != IDAT && numFramesRead == 0 {
        processMode := ReadChunk;
        if !zstreamEnded {
          Fail(NotEnoughData);
          return;
        }
        numFramesRead := numFramesRead + 1;
        return;
      }
      if numFramesRead > 0 {
        Fail(FrameData);
        return;
      }
      idatSize := pushLength;
    }

    method CheckIdatHeader(chunkLength: seq<Byte>, chunkTag: seq<Byte>)
      requires |chunkLength| == 4 && |chunkTag| == 4 && error.None? && processMode == ReadIDAT
      requires numFramesRead > 0 ==> zstreamEnded
      modifies this
      ensures sigBytes == old(sigBytes) && (error.None? ==> haveChunkHeader)
      ensures error.None? ==> (processMode == ReadChunk || processMode == ReadIDAT) && (numFramesRead > 0 ==> zstreamEnded)
      ensures error.None? && processMode == ReadChunk ==>
        IdatHeader(app, old(St()), chunkLength + chunkTag) == Begin(app, St())
      ensures error.None? && processMode == ReadIDAT ==>
        IdatHeader(app, old(St()), chunkLength + chunkTag) == Next(St())
      ensures error.Some? ==> IdatHeader(app, old(St()), chunkLength + chunkTag) == Stop(error.value, log)
    {
      hide Begin, BigEndian, NextChunk;
      assert (chunkLength + chunkTag)[..4] == chunkLength && (chunkLength + chunkTag)[4..] == chunkTag;
      pushLength := BigEndian(chunkLength);
      if pushLength > UINT_31_MAX {
        Fail(OutOfRange);
        return;
      }
      crc := Crc(app, 0, chunkTag);
      chunkName := chunkTag;
      haveChunkHeader := true;
      ChooseMode();
    }

    method ReadIdatHeader()
      requires Valid() && processMode == ReadIDAT && !haveChunkHeader && queue.bufferSize >= 12
      modifies this, queue
      ensures queue.saveBuffer == old(queue.saveBuffer) && queue.bufferSize == old(queue.bufferSize) - 8
      ensures error.None? ==> Valid() && (processMode == ReadChunk || processMode == ReadIDAT) && haveChunkHeader
      ensures error.None? ==> Target(app, St(), queue.Queue()) == old(Target(app, St(), queue.Queue()))
      ensures error.Some? ==> old(Target(app, St(), queue.Queue())) == Failed(error.value, log)
    {
      hide Run, Begin, IdatHeader, PngQueue.Queue, PngQueue.Saved, PngQueue.Current;
      ghost var p, q := St(), queue.Queue();
      OneAct(app, p, q[..8], q[8..]);
      assert q == q[..8] + q[8..];
      var chunkLength, chunkTag := TakeHeader();
      CheckIdatHeader(chunkLength, chunkTag);
    }

    // png_process_IDAT_data
    method ProcessIdatData(buffer: seq<Byte>)
      requires error.None? && |buffer| <= idatSize && (numFramesRead > 0 ==> zstreamEnded)
      modifies this
      ensures sigBytes == old(sigBytes) && processMode == old(processMode)
      ensures haveChunkHeader == old(haveChunkHeader)
      ensures error.None? ==> numFramesRead > 0 ==> zstreamEnded
      ensures error.None? ==> Eat(app, old(St()), buffer) == Next(St()) && idatSize == old(idatSize) - |buffer|
      ensures error.Some? ==> Eat(app, old(St()), buffer) == Stop(error.value, log)
      ensures error == match InflateAll(app, old(info.image), old(zstreamEnded), buffer)
                       case Reject(code) => Some(Inflate(code))
                       case Accept(_) => None
      ensures error.None? ==>
        InflateAll(app, old(info.image), old(zstreamEnded), buffer) == Accept((info.image, zstreamEnded))
    {
      hide IdatByte, InflateAll;
      EatInflates(app, St(), buffer);
      var i := 0;
      while i < |buffer|
        invariant 0 <= i <= |buffer| && error.None? && idatSize == old(idatSize) - i
        invariant processMode == old(processMode) && haveChunkHeader == old(haveChunkHeader)
        invariant sigBytes == old(sigBytes) && (numFramesRead > 0 ==> zstreamEnded)
        invariant Eat(app, St(), buffer[i..]) == Eat(app, old(St()), buffer)
      {
        EatFirst(app, St(), buffer, i);
        ProcessByte(buffer[i]);
        if error.Some? {
          return;
        }
        i := i + 1;
      }
    }

    // one byte: the CRC, and inflate unless the stream has ended
    method ProcessByte(b: Byte)
      requires error.None? && idatSize > 0 && (numFramesRead > 0 ==> zstreamEnded)
      modifies `idatSize, `crc, `log, `info, `zstreamEnded, `error
      ensures idatSize == old(idatSize) - 1
      ensures error.None? ==> numFramesRead > 0 ==> zstreamEnded
      ensures error.None? ==> IdatByte(app, old(St()), b) == Next(St())
      ensures error.Some? ==> IdatByte(app, old(St()), b) == Stop(error.value, log)
    {
      CountByte(b);
      if !zstreamEnded {
        InflateByte(b);
      }
    }

    method CountByte(b: Byte)
      requires idatSize > 0
      modifies `idatSize, `crc, `log
      ensures idatSize == old(idatSize) - 1 && crc == app.crcStep(old(crc), b) && log == old(log) + [Data(b)]
    {
      idatSize := idatSize - 1;
      crc := app.crcStep(crc, b);
      log := log + [Data(b)];
    }

    // inflate, which may end the stream
    method InflateByte(b: Byte)
      requires error.None?
      modifies `info, `zstreamEnded, `error
      ensures var ret := app.inflate(old(info).image, b);
        if ret.Reject? then error == Some(Inflate(ret.code))
        else error.None? && info == old(info).(image := ret.value.0) && zstreamEnded == ret.value.1
    {
      var ret := app.inflate(info.image, b);
      if ret.Reject? {
        Fail(Inflate(ret.code));
        return;
      }
      info := info.(image := ret.value.0);
      zstreamEnded := ret.value.1;
    }

    // the image data in the saved bytes, or in the current buffer once they are used up
    method ReadIdatSegment(saved: bool)
      requires Reading() && idatSize != 0
      requires if saved then queue.saveBufferSize != 0 else queue.saveBufferSize == 0 && queue.currentBufferSize != 0
      modifies this, queue
      ensures queue.saveBuffer == old(queue.saveBuffer)
      ensures error.None? ==> Reading() && queue.bufferSize < old(queue.bufferSize)
      ensures error.None? && idatSize > 0 ==> (if saved then queue.saveBufferSize == 0 else queue.bufferSize == 0)
      ensures error.None? ==> Run(app, St(), queue.Queue()) == old(Run(app, St(), queue.Queue()))
      ensures error.Some? ==> old(Run(app, St(), queue.Queue())) == Failed(error.value, log)
    {
      hide Run, Eat, PngQueue.Queue, PngQueue.Saved, PngQueue.Current;
      ghost var q := queue.Queue();
      var saveSize := if saved then queue.saveBufferSize else queue.currentBufferSize;
      if idatSize < saveSize {
        saveSize := idatSize;
      }
      var buffer := Segment(saved, saveSize);
      assert q == buffer + q[saveSize..];
      EatRuns(app, St(), buffer, q[saveSize..]);
      ProcessIdatData(buffer);
      if error.Some? {
        return;
      }
      if saved {
        queue.SkipSaved(saveSize);
      } else {
        queue.SkipCurrent(saveSize);
      }
    }

    // the first n bytes of a segment are the first n of the queue
    function Segment(saved: bool, n: nat): (s: seq<Byte>)
      reads queue, queue.saveBuffer
      requires queue.Valid()
      requires if saved then n <= queue.saveBufferSize else queue.saveBufferSize == 0 && n <= queue.currentBufferSize
      ensures s == queue.Queue()[..n]
    {
      if saved then queue.Saved()[..n] else queue.Current()[..n]
    }

    // inside an IDAT
    ghost predicate Reading()
      reads this, queue, queue.saveBuffer
    {
      error.None? && queue.Open() && sigBytes <= 8 && (numFramesRead > 0 ==> zstreamEnded) &&
      processMode == ReadIDAT && haveChunkHeader
    }

    // the CRC behind the data of an IDAT
    method FinishIdat()
      requires Reading() && idatSize == 0 && queue.bufferSize >= 4
      modifies this, queue
      ensures queue.saveBuffer == old(queue.saveBuffer)
      ensures error.None? ==> Valid() && queue.bufferSize < old(queue.bufferSize)
      ensures error.None? ==> Target(app, St(), queue.Queue()) == old(Run(app, St(), queue.Queue()))
      ensures error.Some? ==> old(Run(app, St(), queue.Queue())) == Failed(error.value, log)
    {
      hide Run, PngQueue.Queue, PngQueue.Saved, PngQueue.Current;
      ghost var p, q := St(), queue.Queue();
      OneAct(app, p, q[..4], q[4..]);
      assert q == q[..4] + q[4..];
      var bytes := queue.FillBuffer(4);
      if app.crcFatal(crc, bytes) {
        Fail(CrcError);
        return;
      }
      haveChunkHeader := false;
      info := info.(afterIDAT := true);
    }

    // png_push_read_IDAT, behind the header
    method ReadIdatData()
      requires Reading() && queue.bufferSize > 0
      modifies this, queue, queue.saveBuffer
      ensures queue.saveBuffer == old(queue.saveBuffer) || fresh(queue.saveBuffer)
      ensures error.None? ==> Valid() && queue.bufferSize < old(queue.bufferSize)
      ensures error.None? ==> Target(app, St(), queue.Queue()) == old(Run(app, St(), queue.Queue()))
      ensures error.Some? ==> old(Run(app, St(), queue.Queue())) == Failed(error.value, log)
    {
      hide Run, PngQueue.Queue, PngQueue.Saved, PngQueue.Current;
      if idatSize != 0 && queue.saveBufferSize != 0 {
        ReadIdatSegment(true);
        if error.Some? {
          return;
        }
      }
      if idatSize != 0 && queue.currentBufferSize != 0 {
        ReadIdatSegment(false);
        if error.Some? {
          return;
        }
      }
      if idatSize == 0 {
        if queue.bufferSize < 4 {
          queue.SaveBuffer();
          return;
        }
        FinishIdat();
      }
    }

    // png_push_read_IDAT
    method ReadIdat()
      requires Valid() && processMode == ReadIDAT && queue.bufferSize > 0
      modifies this, queue, queue.saveBuffer
      ensures queue.saveBuffer == old(queue.saveBuffer) || fresh(queue.saveBuffer)
      ensures error.None? ==> Valid() && queue.bufferSize < old(queue.bufferSize)
      ensures error.None? ==> Target(app, St(), queue.Queue()) == old(Target(app, St(), queue.Queue()))
      ensures error.Some? ==> old(Target(app, St(), queue.Queue())) == Failed(error.value, log)
    {
      hide Run, Begin, PngQueue.Queue, PngQueue.Saved, PngQueue.Current;
      if !haveChunkHeader {
        if queue.bufferSize < 12 {
          queue.SaveBuffer();
          return;
        }
        ReadIdatHeader();
        if error.Some? || processMode == ReadChunk {
          return;
        }
      }
      ReadIdatData();
    }

    // png_process_some_data
    method ProcessSomeData()
      requires Valid() && queue.bufferSize > 0
      modifies this, queue, queue.saveBuffer
      ensures queue.saveBuffer == old(queue.saveBuffer) || fresh(queue.saveBuffer)
      ensures error.None? ==> Valid() && queue.bufferSize <= old(queue.bufferSize)
      ensures error.None? && queue.bufferSize > 0 && queue.bufferSize == old(queue.bufferSize) ==>
        processMode == ReadIDAT && old(processMode) == ReadChunk
      ensures error.None? && old(processMode) != ReadDone ==>
        Target(app, St(), queue.Queue()) == old(Target(app, St(), queue.Queue()))
      ensures old(processMode) == ReadDone ==> error.None? && St() == old(St()) && queue.bufferSize == 0
      ensures error.Some? ==> old(Target(app, St(), queue.Queue())) == Failed(error.value, log)
    {
      hide Run, Begin, PngQueue.Queue, PngQueue.Saved, PngQueue.Current;
      match processMode {
        case ReadSig => ReadSigBytes();
        case ReadChunk => ReadNextChunk();
        case ReadIDAT => ReadIdat();
        case ReadDone => queue.Drop();
      }
    }

    // png_process_data
    method ProcessData(buffer: seq<Byte>)
      requires Resting()
      modifies this, queue, queue.saveBuffer
      ensures queue.saveBuffer == old(queue.saveBuffer) || fresh(queue.saveBuffer)
      ensures error.None? ==> Resting()
      ensures Feed(app, old(Ready(St(), Waiting())), buffer) ==
              if error.None? then Ready(St(), Waiting()) else Failed(error.value, log)
    {
      hide Run, Begin, PngQueue.Queue, PngQueue.Saved, PngQueue.Current;
      ghost var goal := Feed(app, Ready(St(), Waiting()), buffer);
      DoneIs(app, St(), Waiting() + buffer);
      if processMode != ReadDone {
        queue.OnlySaved();
      }
      queue.RestoreBuffer(buffer);
      while queue.bufferSize > 0
        invariant Valid()
        invariant queue.saveBuffer == old(queue.saveBuffer) || fresh(queue.saveBuffer)
        invariant processMode == ReadDone ==> goal == Ready(St(), [])
        invariant processMode != ReadDone ==> goal == Target(app, St(), queue.Queue())
        decreases queue.bufferSize, processMode == ReadChunk
      {
        ProcessSomeData();
        if error.Some? {
          return;
        }
        DoneIs(app, St(), queue.Queue());
      }
      BlockedIs(app, St(), queue.Queue());
    }
  }

  lemma DoneIs<X>(app: App<X>, p: Png<X>, q: seq<Byte>)
    ensures p.mode == ReadDone ==> Target(app, p, q) == Ready(p, [])
  {
    hide Run;
    if p.mode == ReadDone {
      DoneRuns(app, p, q);
    }
  }

  lemma BlockedIs<X>(app: App<X>, p: Png<X>, q: seq<Byte>)
    ensures |q| < Need(p) && (p.mode == ReadChunk && p.header ==> Begin(app, p) == Next(p)) ==>
            Target(app, p, q) == Ready(p, q)
  {
    hide Begin;
    assert |q| < Need(p) ==> Run(app, p, q) == Ready(p, q);
  }

  lemma SigStep<X>(app: App<X>, p: Png<X>, q: seq<Byte>)
    requires p.mode == ReadSig && q != []
    ensures Run(app, p, q) ==
      if p.sigBytes < 8 && q[0] == SIGNATURE[p.sigBytes] then Run(app, SigNext(p, 1), q[1..])
      else Failed(BadSignature, p.log)
  {
    hide Run;
    OneAct(app, p, q[..1], q[1..]);
    assert q == q[..1] + q[1..];
  }

  // n more bytes of the signature have been read
  function SigNext<X>(p: Png<X>, n: nat): Png<X>
  {
    p.(sigBytes := p.sigBytes + n, mode := if p.sigBytes + n >= 8 then ReadChunk else ReadSig)
  }

  lemma SigRuns<X>(app: App<X>, p: Png<X>, q: seq<Byte>, n: nat)
    requires p.mode == ReadSig && n <= |q| && q != [] && p.sigBytes + n <= 8 && (n == 0 ==> p.sigBytes == 8)
    ensures Run(app, p, q) ==
      if n == 0 || q[..n] != SIGNATURE[p.sigBytes..p.sigBytes + n] then Failed(BadSignature, p.log)
      else Run(app, SigNext(p, n), q[n..])
  {
    hide Run, SigNext;
    if n == 0 {
      SigStep(app, p, q);
    } else {
      RestOfSig(p.sigBytes, n);
      SigRunsFrom(app, p, q, SigFrom(p.sigBytes), n);
    }
  }

  // the signature from byte k on
  function SigFrom(k: nat): (sig: seq<Byte>)
    requires k <= 8
    ensures |sig| == 8 - k
  {
    SIGNATURE[k..]
  }

  lemma RestOfSig(k: nat, n: nat)
    requires k + n <= 8 && n > 0
    ensures SigFrom(k)[0] == SIGNATURE[k] && SigFrom(k)[1..] == SigFrom(k + 1) && SigFrom(k)[..n] == SIGNATURE[k..k + n]
  {
  }

  lemma {:induction false} SigRunsFrom<X>(app: App<X>, p: Png<X>, q: seq<Byte>, sig: seq<Byte>, n: nat)
    requires p.mode == ReadSig && 0 < n <= |q| && p.sigBytes + n <= 8 && sig == SigFrom(p.sigBytes)
    ensures Run(app, p, q) == if q[..n] != sig[..n] then Failed(BadSignature, p.log) else Run(app, SigNext(p, n), q[n..])
    decreases n
  {
    hide Run, SigFrom;
    SigStep(app, p, q);
    RestOfSig(p.sigBytes, n);
    SameFirst(q, sig, n);
    if n > 1 && q[0] == sig[0] {
      SigRunsFrom(app, SigNext(p, 1), q[1..], sig[1..], n - 1);
      assert q[1..][n - 1..] == q[n..];
    }
  }

  lemma SameFirst(a: seq<Byte>, b: seq<Byte>, n: nat)
    requires 0 < n <= |a| && n <= |b|
    ensures a[..n] == b[..n] <==> a[0] == b[0] && a[1..][..n - 1] == b[1..][..n - 1]
  {
    assert a[..n] == [a[0]] + a[1..][..n - 1] && b[..n] == [b[0]] + b[1..][..n - 1];
  }

  lemma EatFirst<X>(app: App<X>, p: Png<X>, data: seq<Byte>, i: nat)
    requires i < |data| && |data| - i <= p.idatSize
    ensures Eat(app, p, data[i..]) ==
      var s := IdatByte(app, p, data[i]);
      if s.Stop? then s else Eat(app, s.p, data[i + 1..])
  {
    hide IdatByte;
    IdatByteKeepsAny(app, p, data[i]);
    assert data[i..][1..] == data[i + 1..];
  }

  lemma IdatByteKeepsAny<X>(app: App<X>, p: Png<X>, b: Byte)
    requires p.idatSize > 0
    ensures IdatByte(app, p, b).Next? ==> IdatByte(app, p, b).p.idatSize == p.idatSize - 1
  {
  }
}
