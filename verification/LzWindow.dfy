// The match copy of the LZX decoder: one or two forward runs inside the window, against copying
// byte by byte from a circular window.
module LzWindow {

  // the index that a match with the given offset takes the byte for index p from
  function SourceIndex(size: nat, p: nat, offset: nat): int
  {
    if offset <= p then p - offset else size + p - offset
  }

  // LZ77 on a circular window: the match is copied one byte after the other, so that it can
  // overlap itself.  (The decoder lets an offset reach back as far as once round the window from
  // the start of the match.)
  function CopyMatch(w: seq<nat>, posn: nat, offset: nat, len: nat): (r: seq<nat>)
    requires posn + len <= |w| && offset <= |w| + posn
    ensures |r| == |w|
  {
    if len == 0 then w
    else
      var w' := CopyMatch(w, posn, offset, len - 1);
      w'[posn + len - 1 := w'[SourceIndex(|w|, posn + len - 1, offset)]]
  }

  // What the copy leaves in the window: a byte of the match is the byte offset places before it,
  // which may be a byte of the match itself, or, past the start of the window, the byte that stood
  // at the end of the window; everything else is unchanged.
  lemma {:induction false} CopyMatchIs(w: seq<nat>, posn: nat, offset: nat, len: nat, p: nat)
    requires posn + len <= |w| && 1 <= offset <= |w| && p < |w|
    ensures var r := CopyMatch(w, posn, offset, len);
      if posn <= p < posn + len then
        r[p] == if offset <= p then r[p - offset] else w[|w| + p - offset]
      else r[p] == w[p]
  {
    if len > 0 {
      CopyMatchIs(w, posn, offset, len - 1, p);
      var src := SourceIndex(|w|, posn + len - 1, offset);
      CopyMatchIs(w, posn, offset, len - 1, src);
    }
  }

  // nothing outside the match is touched, whatever the offset
  lemma {:induction false} CopyMatchElsewhere(w: seq<nat>, posn: nat, offset: nat, len: nat)
    requires posn + len <= |w| && offset <= |w| + posn
    ensures CopyMatch(w, posn, offset, len)[..posn] == w[..posn]
    ensures CopyMatch(w, posn, offset, len)[posn + len..] == w[posn + len..]
  {
    if len > 0 {
      CopyMatchElsewhere(w, posn, offset, len - 1);
      var w' := CopyMatch(w, posn, offset, len - 1);
      assert w'[posn + len..] == w'[posn + len - 1..][1..];
      assert w[posn + len..] == w[posn + len - 1..][1..];
    }
  }

  // a zero offset copies every byte to itself
  lemma {:induction false} CopyMatchZero(w: seq<nat>, posn: nat, len: nat)
    requires posn + len <= |w|
    ensures CopyMatch(w, posn, 0, len) == w
  {
    if len > 0 {
      CopyMatchZero(w, posn, len - 1);
    }
  }

  // while (n-- > 0) *rundest++ = *runsrc++
  function CopyRun(w: seq<nat>, dest: nat, src: nat, n: nat): (r: seq<nat>)
    requires dest + n <= |w| && src + n <= |w|
    ensures |r| == |w|
  {
    if n == 0 then w
    else
      var w' := CopyRun(w, dest, src, n - 1);
      w'[dest + n - 1 := w'[src + n - 1]]
  }

  // a run inside the window whose source keeps its distance is a part of the match
  lemma {:induction false} RunIsMatch(w: seq<nat>, posn: nat, offset: nat, done: nat, src: nat, n: nat)
    requires posn + done + n <= |w| && offset <= |w| + posn && src + n <= |w|
    requires (posn + done + n <= offset && src == |w| + posn + done - offset) ||
             (offset <= posn + done && src == posn + done - offset)
    ensures CopyRun(CopyMatch(w, posn, offset, done), posn + done, src, n) == CopyMatch(w, posn, offset, done + n)
  {
    if n > 0 {
      RunIsMatch(w, posn, offset, done, src, n - 1);
    }
  }

  method CopyRunInPlace(window: array<nat>, dest: nat, src: nat, n: nat)
    requires dest + n <= window.Length && src + n <= window.Length
    modifies window
    ensures window[..] == CopyRun(old(window[..]), dest, src, n)
  {
    var rundest, runsrc, i := dest, src, n;
    while i > 0
      invariant 0 <= i <= n && rundest == dest + (n - i) && runsrc == src + (n - i)
      invariant window[..] == CopyRun(old(window[..]), dest, src, n - i)
    {
      window[rundest] := window[runsrc];
      rundest := rundest + 1;
      runsrc := runsrc + 1;
      i := i - 1;
    }
  }

  // copy match: in two runs when the match starts before the beginning of the window and goes
  // over the window edge
  method CopyMatchInPlace(window: array<nat>, posn: nat, offset: nat, length: nat)
    requires posn + length <= window.Length && offset <= window.Length + posn
    modifies window
    ensures window[..] == CopyMatch(old(window[..]), posn, offset, length)
  {
    var rundest, i := posn, length;
    if offset > posn {
      var j := offset - posn;
      var runsrc := window.Length - j;
      if j < i {
        i := i - j;
        RunIsMatch(window[..], posn, offset, 0, runsrc, j);
        RunIsMatch(window[..], posn, offset, j, 0, i);
        CopyRunInPlace(window, rundest, runsrc, j);
        rundest := rundest + j;
        runsrc := 0;
      } else {
        RunIsMatch(window[..], posn, offset, 0, runsrc, i);
      }
      CopyRunInPlace(window, rundest, runsrc, i);
    } else {
      RunIsMatch(window[..], posn, offset, 0, posn - offset, i);
      CopyRunInPlace(window, rundest, rundest - offset, i);
    }
  }
}
