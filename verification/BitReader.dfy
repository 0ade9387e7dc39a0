// The bit buffer of readbits.h (MSB order, 32 bits wide), fed by 16-bit words through a byte
// buffer that read_input refills with reads of any size.
module BitReader {
  import opened Powers
  import opened BitStream

  const BITBUF_WIDTH := 32

  // the 32-bit buffer whose left high bits have the value pend
  function Buffer(pend: nat, left: nat): nat
    requires left <= BITBUF_WIDTH
  {
    Shl(pend, BITBUF_WIDTH - left)
  }

  lemma ShlDist(x: nat, y: nat, n: nat)
    ensures Shl(x + y, n) == Shl(x, n) + Shl(y, n)
  {
    MulDist(x, y, Pow2(n));
  }

  lemma ShlShl(x: nat, m: nat, n: nat)
    ensures Shl(Shl(x, m), n) == Shl(x, m + n)
  {
    Pow2Add(m, n);
    hide Pow2;
    MulAssoc(x, Pow2(m), Pow2(n));
  }

  lemma ShlBelow(x: nat, m: nat, n: nat)
    requires x < Pow2(m)
    ensures Shl(x, n) < Pow2(m + n)
  {
    BelowConcat(x, m, 0, n);
  }

  lemma ShlClean(x: nat, n: nat)
    ensures Shl(x, n) % Pow2(n) == 0 && Shl(x, n) / Pow2(n) == x
  {
    hide Pow2;
    DivUnique(Shl(x, n), Pow2(n), x, 0);
  }

  // ---------- shifts of the buffer ----------

  lemma PeekBuffer(pend: nat, left: nat, n: nat)
    requires n <= left <= BITBUF_WIDTH
    ensures Buffer(pend, left) / Pow2(BITBUF_WIDTH - n) == pend / Pow2(left - n)
  {
    Pow2Add(left - n, BITBUF_WIDTH - left);
    DivScale(pend, Pow2(left - n), Pow2(BITBUF_WIDTH - left));
  }

  lemma ShlIs(x: nat, n: nat)
    ensures Shl(x, n) == x * Pow2(n)
  {
  }

  // dropping the n high bits, which overflow the buffer
  lemma RemoveBuffer(pend: nat, left: nat, n: nat, lo: nat)
    requires n <= left <= BITBUF_WIDTH && pend < Pow2(left) && lo == pend % Pow2(left - n)
    ensures Shl(Buffer(pend, left), n) % Pow2(BITBUF_WIDTH) == Buffer(lo, left - n)
  {
    hide Pow2, Shl;
    DivNonNegative(pend, Pow2(left - n));
    var hi := pend / Pow2(left - n);
    SplitBits(pend, left, n, hi, lo);
    var k := BITBUF_WIDTH - left + n;
    ShlShl(pend, BITBUF_WIDTH - left, n);
    ShlDist(Shl(hi, left - n), lo, k);
    ShlShl(hi, left - n, k);
    ShlBelow(lo, left - n, k);
    ShlIs(hi, BITBUF_WIDTH);
    DivUnique(Shl(pend, k), Pow2(BITBUF_WIDTH), hi, Shl(lo, k));
  }

  // putting 16 bits behind the left bits that are there
  lemma InjectBuffer(pend: nat, left: nat, w: nat)
    requires left + 16 <= BITBUF_WIDTH && w < Pow2(16)
    ensures BitOr(Buffer(pend, left), Shl(w, BITBUF_WIDTH - 16 - left)) ==
            Buffer(Shl(pend, 16) + w, left + 16)
  {
    hide Pow2, Shl, BitOr;
    var k := BITBUF_WIDTH - 16 - left;
    ShlBelow(w, 16, k);
    ShlClean(pend, 16 + k);
    OrIsSum(Buffer(pend, left), Shl(w, k), 16 + k);
    ShlShl(pend, 16, k);
    ShlDist(Shl(pend, 16), w, k);
  }

  lemma BytesOr(b0: nat, b1: nat)
    requires b0 < 256
    ensures BitOr(b1 * 256, b0) == b0 + 256 * b1
  {
    Pow2Values();
    hide Pow2;
    DivUnique(b1 * 256, 256, b1, 0);
    OrIsSum(b1 * 256, b0, 8);
  }

  // ---------- the reader ----------

  class BitReader {
    const file: seq<nat>      // everything the input will deliver
    const breaks: bool        // does reading fail behind that, or does the input end?
    const inbuf: array<nat>
    var filePos: nat          // bytes delivered so far
    var iPtr: nat
    var iEnd: nat
    var bitBuffer: nat
    var bitsLeft: nat
    var inputEnd: bool
    ghost var pend: nat       // the value of the bitsLeft unused bits

    // the input, with the two bytes that read_input fakes at its end
    function Source(): (s: seq<nat>)
      ensures IsBytes(file) ==> IsBytes(s)
    {
      if breaks then file else file + [0, 0]
    }

    function Delivered(): nat
      reads this
    {
      filePos + if inputEnd then 2 else 0
    }

    ghost predicate BytesOk()
      reads this, inbuf
    {
      inbuf.Length >= 2 && IsBytes(file) &&
      filePos <= |file| && (inputEnd ==> filePos == |file| && !breaks) &&
      iPtr <= iEnd <= inbuf.Length && iEnd - iPtr <= Delivered() &&
      forall k :: iPtr <= k < iEnd ==> inbuf[k] == Source()[Taken() + k - iPtr]
    }

    function Taken(): int
      reads this
    {
      Delivered() - (iEnd - iPtr)
    }

    ghost predicate Valid()
      reads this, inbuf
    {
      BytesOk() && bitsLeft <= BITBUF_WIDTH && pend < Pow2(bitsLeft) && bitBuffer == Buffer(pend, bitsLeft)
    }

    ghost function Cur(): (c: Cursor)
      reads this, inbuf
      requires Valid()
      ensures CursorOk(c)
    {
      Cursor(Taken(), bitsLeft, pend)
    }

    lemma InBounds()
      requires Valid()
      ensures iPtr <= iEnd <= inbuf.Length && Cur().taken <= |Source()|
    {
    }

    lemma SourceIsBytes()
      requires Valid()
      ensures IsBytes(Source())
    {
    }

    // the buffer bits below the unused ones are zero, and the buffer is a 32-bit number
    lemma BufferIsClean()
      requires Valid()
      ensures bitBuffer < Pow2(BITBUF_WIDTH) && bitBuffer % Pow2(BITBUF_WIDTH - bitsLeft) == 0
    {
      hide Pow2;
      ShlBelow(pend, bitsLeft, BITBUF_WIDTH - bitsLeft);
      ShlClean(pend, BITBUF_WIDTH - bitsLeft);
    }

    // INIT_BITS
    constructor (input: seq<nat>, breaks: bool, inbufSize: nat)
      requires IsBytes(input) && inbufSize >= 2
      ensures Valid() && fresh(inbuf) && file == input && this.breaks == breaks && Cur() == Cursor(0, 0, 0)
    {
      hide Pow2;
      file, this.breaks := input, breaks;
      inbuf := new nat[inbufSize];
      filePos, iPtr, iEnd, bitBuffer, bitsLeft, inputEnd, pend := 0, 0, 0, 0, 0, false, 0;
    }

    // read_input, when the byte buffer is empty: false when sys->read fails, or once the two faked
    // bytes are used up
    method ReadInput() returns (ok: bool)
      requires BytesOk() && iPtr == iEnd
      modifies this`filePos, this`iPtr, this`iEnd, this`inputEnd, inbuf
      ensures BytesOk() && Taken() == old(Taken())
      ensures ok <==> Taken() < |Source()|
      ensures ok ==> iPtr < iEnd
    {
      // sys->read may deliver fewer bytes than it is asked for, but 0 only at the end
      var room := if inbuf.Length < |file| - filePos then inbuf.Length else |file| - filePos;
      if room == 0 && breaks {
        return false;
      }
      var read: nat :| read <= room && (room > 0 ==> read > 0);
      forall i | 0 <= i < read {
        inbuf[i] := file[filePos + i];
      }
      if read == 0 {
        if inputEnd {
          return false;
        }
        read := 2;
        inbuf[0], inbuf[1] := 0, 0;
        inputEnd := true;
      } else {
        filePos := filePos + read;
      }
      iPtr, iEnd := 0, read;
      return true;
    }

    // READ_IF_NEEDED; b = *i_ptr++
    method NextByte() returns (ok: bool, b: nat)
      requires BytesOk()
      modifies this`filePos, this`iPtr, this`iEnd, this`inputEnd, inbuf
      ensures BytesOk()
      ensures ok <==> old(Taken()) < |Source()|
      ensures ok ==> b == Source()[old(Taken())] && Taken() == old(Taken()) + 1
      ensures !ok ==> Taken() == old(Taken())
    {
      ok, b := true, 0;
      if iPtr >= iEnd {
        ok := ReadInput();
        if !ok {
          return;
        }
      }
      b := inbuf[iPtr];
      iPtr := iPtr + 1;
    }

    // the next byte of the input, past the bits that are held
    method TakeByte() returns (ok: bool, b: nat)
      requires Valid()
      modifies this, inbuf
      ensures Valid()
      ensures ok <==> old(Cur().taken) < |Source()|
      ensures ok ==> b == Source()[old(Cur().taken)]
      ensures ok ==> Cur() == old(Cursor(Cur().taken + 1, Cur().left, Cur().pend))
    {
      hide Pow2, Buffer;
      ok, b := NextByte();
    }

    // read_input for a run of raw bytes
    method Refill() returns (ok: bool)
      requires Valid() && iPtr == iEnd
      modifies this, inbuf
      ensures Valid() && (ok <==> Cur().taken < |Source()|) && Cur() == old(Cur())
      ensures ok ==> iPtr < iEnd
    {
      hide Pow2, Buffer;
      ok := ReadInput();
    }

    // i_ptr += n
    method Skip(n: nat)
      requires Valid() && iPtr + n <= iEnd
      modifies this`iPtr
      ensures Valid() && Cur() == old(Cursor(Cur().taken + n, Cur().left, Cur().pend))
    {
      hide Pow2, Buffer;
      iPtr := iPtr + n;
    }

    lemma BufferedBytes(n: nat)
      requires Valid() && iPtr + n <= iEnd
      ensures Cur().taken + n <= |Source()| && iEnd <= inbuf.Length
      ensures inbuf[iPtr..iPtr + n] == Source()[Cur().taken..Cur().taken + n]
    {
      hide Pow2, Buffer;
    }

    // INJECT_BITS(bitdata, 16)
    method InjectBits(bitdata: nat)
      requires Valid() && bitsLeft <= 16 && bitdata < Pow2(16)
      modifies this`bitBuffer, this`bitsLeft, this`pend
      ensures Valid() && Cur() == old(Cursor(Taken(), bitsLeft + 16, Shl(pend, 16) + bitdata))
    {
      hide Pow2, Shl, BitOr;
      InjectBuffer(pend, bitsLeft, bitdata);
      NextPend(pend, bitsLeft, bitdata);
      bitBuffer := BitOr(bitBuffer, Shl(bitdata, BITBUF_WIDTH - 16 - bitsLeft));
      bitsLeft := bitsLeft + 16;
      pend := Shl(pend, 16) + bitdata;
    }

    // READ_BYTES: INJECT_BITS((b1 << 8) | b0, 16)
    method ReadBytes() returns (ok: bool)
      requires Valid() && bitsLeft <= 16
      modifies this, inbuf
      ensures Valid()
      ensures ok <==> Fetch(Source(), old(Cur())).Some?
      ensures ok ==> Cur() == Fetch(Source(), old(Cur())).value
    {
      hide Pow2, Buffer, BitOr;
      var b0, b1;
      ok, b0 := NextByte();
      if !ok {
        return;
      }
      ok, b1 := NextByte();
      if !ok {
        return;
      }
      BytesOr(b0, b1);
      WordBelow(Source(), old(Taken()));
      InjectBits(BitOr(b1 * 256, b0));
    }

    // ENSURE_BITS(n)
    method EnsureBits(n: nat) returns (ok: bool)
      requires Valid() && n <= 17
      modifies this, inbuf
      ensures Valid()
      ensures ok <==> Ensure(Source(), old(Cur()), n).Some?
      ensures ok ==> Cur() == Ensure(Source(), old(Cur()), n).value
    {
      while bitsLeft < n
        invariant Valid() && Ensure(Source(), Cur(), n) == Ensure(Source(), old(Cur()), n)
        decreases if n > bitsLeft then n - bitsLeft else 0
      {
        ok := ReadBytes();
        if !ok {
          return;
        }
      }
      ok := true;
    }

    // PEEK_BITS(n)
    function PeekBits(n: nat): (v: nat)
      reads this
      requires n <= BITBUF_WIDTH
    {
      DivNonNegative(bitBuffer, Pow2(BITBUF_WIDTH - n));
      bitBuffer / Pow2(BITBUF_WIDTH - n)
    }

    lemma PeekBitsIs(n: nat)
      requires Valid() && n <= bitsLeft
      ensures PeekBits(n) == Peek(Cur(), n)
    {
      PeekBuffer(pend, bitsLeft, n);
    }

    // REMOVE_BITS(n)
    method RemoveBits(n: nat)
      requires Valid() && n <= bitsLeft
      modifies this`bitBuffer, this`bitsLeft, this`pend
      ensures Valid() && Cur() == Drop(old(Cur()), n)
    {
      hide Pow2, Shl, Buffer;
      var lo := Drop(Cur(), n).pend;
      RemoveBuffer(pend, bitsLeft, n, lo);
      DropBelow(Cur(), n);
      bitBuffer := Shl(bitBuffer, n) % Pow2(BITBUF_WIDTH);
      bitsLeft := bitsLeft - n;
      pend := lo;
    }

    // bits_left = 0; bit_buffer = 0
    method DropAll()
      requires Valid()
      modifies this`bitBuffer, this`bitsLeft, this`pend
      ensures Valid() && Cur() == Cursor(old(Taken()), 0, 0)
    {
      hide Pow2;
      bitBuffer, bitsLeft, pend := 0, 0, 0;
    }

    // READ_BITS(val, n)
    method ReadBits(n: nat) returns (ok: bool, val: nat)
      requires Valid() && n <= 17
      modifies this, inbuf
      ensures Valid()
      ensures ok <==> BitStream.ReadBits(Source(), old(Cur()), n).Some?
      ensures ok ==> BitStream.ReadBits(Source(), old(Cur()), n).value == (val, Cur())
    {
      hide Pow2;
      val := 0;
      ok := EnsureBits(n);
      if ok {
        PeekBitsIs(n);
        val := PeekBits(n);
        RemoveBits(n);
      }
    }
  }

  lemma NextPend(pend: nat, left: nat, w: nat)
    requires pend < Pow2(left) && w < Pow2(16)
    ensures Shl(pend, 16) + w < Pow2(left + 16)
  {
    BelowConcat(pend, left, w, 16);
  }

  lemma DropBelow(c: Cursor, n: nat)
    requires n <= c.left
    ensures Drop(c, n).pend < Pow2(c.left - n)
  {
    hide Pow2;
    DivMod(c.pend, Pow2(c.left - n));
  }
}
