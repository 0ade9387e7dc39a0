// The input queue of the progressive PNG reader: bytes saved from earlier calls, in a buffer of the
// reader's own, followed by the bytes of the current call.
module PngQueue {

  type Byte = n: nat | n < 256

  class PngQueue {
    var saveBuffer: array?<Byte>
    var saveBufferPtr: nat          // as an index into save_buffer
    var saveBufferSize: nat
    var currentBuffer: seq<Byte>     // the caller's memory
    var currentBufferPtr: nat
    var currentBufferSize: nat
    var bufferSize: nat

    function Max(): nat
      reads `saveBuffer
    {
      if saveBuffer == null then 0 else saveBuffer.Length
    }

    ghost predicate Valid()
      reads `saveBuffer, `saveBufferPtr, `saveBufferSize
      reads `currentBuffer, `currentBufferPtr, `currentBufferSize
    {
      saveBufferPtr + saveBufferSize <= Max() &&
      currentBufferPtr + currentBufferSize <= |currentBuffer|
    }

    // the saved bytes
    function Saved(): (s: seq<Byte>)
      reads `saveBuffer, `saveBufferPtr, `saveBufferSize, saveBuffer
      requires saveBufferPtr + saveBufferSize <= Max()
      ensures |s| == saveBufferSize
    {
      if saveBuffer == null then []
      else saveBuffer[saveBufferPtr..saveBufferPtr + saveBufferSize]
    }

    function Current(): (s: seq<Byte>)
      reads `currentBuffer, `currentBufferPtr, `currentBufferSize
      requires currentBufferPtr + currentBufferSize <= |currentBuffer|
      ensures |s| == currentBufferSize
    {
      currentBuffer[currentBufferPtr..currentBufferPtr + currentBufferSize]
    }

    // all that is waiting, the oldest byte first
    function Queue(): (s: seq<Byte>)
      reads this, saveBuffer
      requires Valid()
      ensures |s| == saveBufferSize + currentBufferSize
    {
      Saved() + Current()
    }

    // buffer_size counts the whole queue
    ghost predicate Open()
      reads this, saveBuffer
    {
      Valid() && bufferSize == saveBufferSize + currentBufferSize
    }

    constructor ()
      ensures Valid() && Queue() == [] && bufferSize == 0 && saveBuffer == null
    {
      saveBuffer, saveBufferPtr, saveBufferSize := null, 0, 0;
      currentBuffer, currentBufferPtr, currentBufferSize := [], 0, 0;
      bufferSize := 0;
    }

    lemma OnlySaved()
      requires Valid() && currentBufferSize == 0
      ensures Queue() == Saved()
    {
      assert Current() == [];
    }

    // the first n saved bytes are used up
    method SkipSaved(n: nat)
      requires Open() && n <= saveBufferSize
      modifies `saveBufferPtr, `saveBufferSize, `bufferSize
      ensures Open() && bufferSize == old(bufferSize) - n
      ensures Saved() == old(Saved())[n..] && Current() == old(Current()) && Queue() == old(Queue())[n..]
    {
      if saveBuffer != null {
        SliceTail(saveBuffer[..], saveBufferPtr, saveBufferPtr + saveBufferSize, n);
      }
      ConcatTail(Saved(), Current(), n);
      bufferSize := bufferSize - n;
      saveBufferSize := saveBufferSize - n;
      saveBufferPtr := saveBufferPtr + n;
    }

    // the first n bytes of the current buffer are used up
    method SkipCurrent(n: nat)
      requires Open() && n <= currentBufferSize
      modifies `currentBufferPtr, `currentBufferSize, `bufferSize
      ensures Open() && bufferSize == old(bufferSize) - n
      ensures Saved() == old(Saved()) && Current() == old(Current())[n..]
      ensures saveBufferSize == 0 ==> Queue() == old(Queue())[n..]
    {
      bufferSize := bufferSize - n;
      currentBufferSize := currentBufferSize - n;
      currentBufferPtr := currentBufferPtr + n;
    }

    // png_push_fill_buffer: the next length bytes of the queue
    method FillBuffer(length: nat) returns (buffer: seq<Byte>)
      requires Open() && length <= bufferSize
      modifies `saveBufferPtr, `saveBufferSize, `currentBufferPtr, `currentBufferSize, `bufferSize
      ensures Open() && bufferSize == old(bufferSize) - length
      ensures buffer == old(Queue())[..length] && Queue() == old(Queue())[length..]
    {
      hide Saved, Current;
      ghost var a, b := Saved(), Current();
      buffer := [];
      var saveSize := 0;
      if saveBufferSize != 0 {
        saveSize := if length < saveBufferSize then length else saveBufferSize;
        buffer := Saved()[..saveSize];
        SkipSaved(saveSize);
      }
      assert buffer == a[..saveSize] && Saved() == a[saveSize..] && Current() == b;
      var left := length - saveSize;
      TakeSplit(a, b, saveSize, left);
      if left != 0 && currentBufferSize != 0 {
        buffer := buffer + Current()[..left];
        SkipCurrent(left);
      }
      assert Current() == b[left..] && buffer == a[..saveSize] + b[..left];
    }

    // moves the saved bytes to the front of save_buffer, in place
    method MoveDown()
      requires Valid() && saveBuffer != null
      modifies saveBuffer
      ensures saveBuffer[..saveBufferSize] == old(Saved())
    {
      var i, istop := 0, saveBufferSize;
      while i < istop
        invariant 0 <= i <= istop
        invariant saveBuffer[..i] == old(Saved())[..i]
        invariant forall k :: i <= k < istop ==> saveBuffer[saveBufferPtr + k] == old(Saved())[k]
      {
        saveBuffer[i] := saveBuffer[saveBufferPtr + i];
        i := i + 1;
      }
    }

    method ToFront()
      requires Valid()
      modifies saveBuffer, `saveBufferPtr
      ensures Valid() && Saved() == old(Saved()) && saveBufferPtr == 0
    {
      if saveBufferSize != 0 && saveBufferPtr != 0 {
        MoveDown();
      }
      saveBufferPtr := 0;
    }

    // makes room behind the saved bytes, which are at the front of save_buffer
    method Grow(newMax: nat)
      requires Valid() && saveBufferPtr == 0 && saveBufferSize <= newMax
      modifies `saveBuffer
      ensures fresh(saveBuffer) && Max() == newMax && Valid() && Saved() == old(Saved())
    {
      var oldBuffer := saveBuffer;
      saveBuffer := new Byte[newMax];
      if oldBuffer != null {
        Copy(oldBuffer[..saveBufferSize], saveBuffer, 0);
      }
    }

    // png_push_save_buffer: the rest of the current buffer is saved as well, and nothing is left to
    // be read before more data comes
    method SaveBuffer()
      requires Valid()
      modifies this, saveBuffer
      ensures Valid() && bufferSize == 0 && Queue() == old(Queue())
      ensures currentBufferSize == 0 && (saveBuffer == old(saveBuffer) || fresh(saveBuffer))
    {
      hide Current, Saved;
      ghost var saved, current := Saved(), Current();
      ToFront();
      if saveBufferSize + currentBufferSize > Max() {
        Grow(saveBufferSize + currentBufferSize + 256);
      }
      if currentBufferSize > 0 {
        AppendCurrent();
      }
      bufferSize := 0;
      assert Current() == [];
      assert Saved() == saved + current;
    }

    // memcpy of the current buffer behind the saved bytes
    method AppendCurrent()
      requires Valid() && saveBufferPtr == 0 && 0 < currentBufferSize <= Max() - saveBufferSize
      modifies saveBuffer, `saveBufferSize, `currentBufferSize
      ensures Valid() && currentBufferSize == 0 && Saved() == old(Saved()) + old(Current())
    {
      hide Current;
      Copy(Current(), saveBuffer, saveBufferSize);
      assert saveBuffer[..saveBufferSize] == old(Saved());
      saveBufferSize := saveBufferSize + currentBufferSize;
      currentBufferSize := 0;
    }

    // buffer_size = 0: nothing more is to be read
    method Drop()
      requires Valid()
      modifies `bufferSize
      ensures Valid() && bufferSize == 0 && Queue() == old(Queue())
    {
      bufferSize := 0;
    }

    // png_push_restore_buffer: the data of a new call goes behind what was saved
    method RestoreBuffer(buffer: seq<Byte>)
      requires Valid()
      modifies `currentBuffer, `currentBufferSize, `currentBufferPtr, `bufferSize
      ensures Open() && Queue() == old(Saved()) + buffer
    {
      currentBuffer := buffer;
      currentBufferSize := |buffer|;
      bufferSize := |buffer| + saveBufferSize;
      currentBufferPtr := 0;
    }
  }

  lemma TakeSplit(a: seq<Byte>, b: seq<Byte>, m: nat, n: nat)
    requires n <= |b| && (m == |a| || (m <= |a| && n == 0))
    ensures (a + b)[..m + n] == a[..m] + b[..n] && (a + b)[m + n..] == a[m..] + b[n..]
    ensures a[..m] + b[..0] == a[..m] && b[0..] == b
  {
  }

  // memcpy
  method Copy(src: seq<Byte>, dst: array<Byte>, at: nat)
    requires at + |src| <= dst.Length
    modifies dst
    ensures dst[..at] == old(dst[..at]) && dst[at..at + |src|] == src
  {
    forall k | 0 <= k < |src| {
      dst[at + k] := src[k];
    }
  }

  lemma SliceTail(s: seq<Byte>, a: nat, b: nat, n: nat)
    requires a + n <= b <= |s|
    ensures s[a..b][n..] == s[a + n..b]
  {
  }

  lemma ConcatTail(s: seq<Byte>, t: seq<Byte>, n: nat)
    requires n <= |s|
    ensures (s + t)[n..] == s[n..] + t
  {
  }
}
