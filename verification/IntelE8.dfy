// The E8 call-address transform of LZX, which the decoder undoes on a copy of each frame, and the
// encoder's transform that it undoes.
module IntelE8 {
  import opened Powers
  import opened BitStream

  const E8 := 0xE8
  const TWO31 := 0x8000_0000
  const TWO32 := 0x1_0000_0000

  predicate IsInt32(v: int)
  {
    -TWO31 <= v < TWO31
  }

  // the 32-bit signed number with these bytes, lowest first
  function FromBytes(b: seq<nat>): int
    requires |b| == 4
  {
    var u := b[0] + 0x100 * b[1] + 0x1_0000 * b[2] + 0x100_0000 * b[3];
    if u >= TWO31 then u - TWO32 else u
  }

  // (unsigned char) v, (v >> 8), (v >> 16), (v >> 24)
  function ToBytes(v: int): (b: seq<nat>)
    ensures |b| == 4 && forall k :: 0 <= k < 4 ==> b[k] < 256
  {
    [v % 0x100, v / 0x100 % 0x100, v / 0x1_0000 % 0x100, v / 0x100_0000 % 0x100]
  }

  lemma Shifts(v: int)
    ensures v / 0x1_0000 == v / 0x100 / 0x100 && v / 0x100_0000 == v / 0x100 / 0x100 / 0x100
  {
  }

  lemma BytesRoundTrip(v: int)
    requires IsInt32(v)
    ensures FromBytes(ToBytes(v)) == v
  {
    Shifts(v);
    var a := v / 0x100;
    var b := a / 0x100;
    var c := b / 0x100;
    assert v == v % 0x100 + 0x100 * (a % 0x100) + 0x1_0000 * (b % 0x100) + 0x100_0000 * c;
    assert -128 <= c < 128;
  }

  lemma NumberRoundTrip(b: seq<nat>)
    requires |b| == 4 && forall k :: 0 <= k < 4 ==> b[k] < 256
    ensures IsInt32(FromBytes(b)) && ToBytes(FromBytes(b)) == b
  {
    var b0, b1, b2, b3 := b[0], b[1], b[2], b[3];
    assert b == [b0, b1, b2, b3];
    if b3 >= 128 {
      FourBytes(b0, b1, b2, b3, b3 as int - 256, FromBytes(b));
    } else {
      FourBytes(b0, b1, b2, b3, b3, FromBytes(b));
    }
  }

  lemma FourBytes(b0: nat, b1: nat, b2: nat, b3: nat, top: int, v: int)
    requires b0 < 256 && b1 < 256 && b2 < 256 && b3 < 256 && top % 0x100 == b3
    requires v == b0 + 0x100 * (b1 + 0x100 * (b2 + 0x100 * top))
    ensures v % 0x100 == b0 && v / 0x100 % 0x100 == b1
    ensures v / 0x1_0000 % 0x100 == b2 && v / 0x100_0000 % 0x100 == b3
  {
    Shifts(v);
    var x2 := b2 + 0x100 * top;
    var x1 := b1 + 0x100 * x2;
    assert v / 0x100 == x1 && x1 / 0x100 == x2 && x2 / 0x100 == top;
  }

  // what the decoder does with the operand of a call at curpos
  function ToRelative(abs: int, curpos: int, filesize: int): int
  {
    if -curpos <= abs < filesize then
      if abs >= 0 then abs - curpos else abs + filesize
    else abs
  }

  // what the encoder did
  function ToAbsolute(rel: int, curpos: int, filesize: int): int
  {
    if -curpos <= rel < filesize then
      if rel < filesize - curpos then rel + curpos else rel - filesize
    else rel
  }

  // For a positive file size the operand map is a permutation of [-curpos, filesize), the identity
  // elsewhere, and does not leave 32 bits; the two maps undo each other.
  lemma OperandsInverse(v: int, curpos: int, filesize: int)
    requires IsInt32(v) && 0 <= curpos < TWO31 && 0 < filesize < TWO31
    ensures ToAbsolute(ToRelative(v, curpos, filesize), curpos, filesize) == v
    ensures ToRelative(ToAbsolute(v, curpos, filesize), curpos, filesize) == v
    ensures -curpos <= v < filesize <==> -curpos <= ToRelative(v, curpos, filesize) < filesize
    ensures !(-curpos <= v < filesize) ==> ToRelative(v, curpos, filesize) == v
    ensures IsInt32(ToRelative(v, curpos, filesize)) && IsInt32(ToAbsolute(v, curpos, filesize))
  {
  }

  // The header can hold a file size that is negative as a signed number.  The operand map, on the
  // four bytes of an operand, is one-to-one exactly when the file size is not negative, or reaches
  // back no further than curpos.
  lemma OperandMapOneToOne(curpos: int, filesize: int)
    requires 0 <= curpos < TWO31 && IsInt32(filesize)
    ensures OneToOne(curpos, filesize) <==> filesize >= 0 || filesize <= -curpos
  {
    hide ToBytes, FromBytes;
    if filesize < 0 && filesize > -curpos {
      var v, w := -curpos, filesize - curpos;
      if w < -TWO31 {
        OnlyLowBits(w);
        w := w + TWO32;
      }
      assert IsInt32(v) && IsInt32(w) && v != w;
      assert SameBytes(v, w, curpos, filesize);
    } else {
      forall v, w | IsInt32(v) && IsInt32(w) && v != w
        ensures !SameBytes(v, w, curpos, filesize)
      {
        BytesRoundTrip(ToRelative(v, curpos, filesize));
        BytesRoundTrip(ToRelative(w, curpos, filesize));
      }
    }
  }

  // do two operands become the same bytes?
  predicate SameBytes(v: int, w: int, curpos: int, filesize: int)
  {
    ToBytes(ToRelative(v, curpos, filesize)) == ToBytes(ToRelative(w, curpos, filesize))
  }

  ghost predicate OneToOne(curpos: int, filesize: int)
  {
    forall v, w :: IsInt32(v) && IsInt32(w) && v != w ==> !SameBytes(v, w, curpos, filesize)
  }

  // the bytes hold a number modulo 2^32
  lemma OnlyLowBits(v: int)
    ensures ToBytes(v + TWO32) == ToBytes(v)
  {
    SameLowByte(v, TWO32, 0x1);
    SameLowByte(v, TWO32, 0x100);
    SameLowByte(v, TWO32, 0x1_0000);
    SameLowByte(v, TWO32, 0x100_0000);
  }

  lemma SameLowByte(v: int, m: int, d: int)
    requires d > 0 && m % (0x100 * d) == 0
    ensures (v + m) / d % 0x100 == v / d % 0x100
  {
    var q, k := v / d, m / (0x100 * d);
    MulDist(q, 0x100 * k, d);
    DivUnique(v + m, d, q + 0x100 * k, v % d);
  }

  datatype Direction = Decode | Encode

  function Operand(dir: Direction, b: seq<nat>, curpos: int, filesize: int): (r: seq<nat>)
    requires |b| == 4
    ensures |r| == 4
  {
    var v := FromBytes(b);
    if -curpos <= v < filesize then
      ToBytes(if dir.Decode? then ToRelative(v, curpos, filesize) else ToAbsolute(v, curpos, filesize))
    else b
  }

  // the transform of the bytes s, the first of which stands at curpos: an 0xE8 is not looked for
  // in the last ten bytes
  function Transform(dir: Direction, s: seq<nat>, curpos: int, filesize: int): (r: seq<nat>)
    ensures |r| == |s|
  {
    if |s| <= 10 then s
    else if s[0] != E8 then [s[0]] + Transform(dir, s[1..], curpos + 1, filesize)
    else [E8] + Operand(dir, s[1..5], curpos, filesize) + Transform(dir, s[5..], curpos + 5, filesize)
  }

  function Inverse(dir: Direction): Direction
  {
    if dir.Decode? then Encode else Decode
  }

  lemma OperandRoundTrip(dir: Direction, b: seq<nat>, curpos: int, filesize: int)
    requires |b| == 4 && IsBytes(b) && 0 <= curpos < TWO31 && 0 < filesize < TWO31
    ensures Operand(Inverse(dir), Operand(dir, b, curpos, filesize), curpos, filesize) == b
    ensures IsBytes(Operand(dir, b, curpos, filesize))
  {
    var v := FromBytes(b);
    NumberRoundTrip(b);
    OperandsInverse(v, curpos, filesize);
    if -curpos <= v < filesize {
      BytesRoundTrip(ToRelative(v, curpos, filesize));
      BytesRoundTrip(ToAbsolute(v, curpos, filesize));
    }
  }

  // Decoding undoes encoding and encoding undoes decoding: both find the same calls.
  lemma {:induction false} TransformRoundTrip(dir: Direction, s: seq<nat>, curpos: int, filesize: int)
    requires IsBytes(s) && 0 <= curpos && curpos + |s| <= TWO31 && 0 < filesize < TWO31
    ensures Transform(Inverse(dir), Transform(dir, s, curpos, filesize), curpos, filesize) == s
    ensures IsBytes(Transform(dir, s, curpos, filesize))
    decreases |s|
  {
    hide Operand, IsBytes;
    TransformIsBytes(dir, s, curpos, filesize);
    if |s| > 10 {
      BytesInside(s);
      var r := Transform(dir, s, curpos, filesize);
      if s[0] != E8 {
        TransformRoundTrip(dir, s[1..], curpos + 1, filesize);
        assert r[1..] == Transform(dir, s[1..], curpos + 1, filesize);
      } else {
        TransformRoundTrip(dir, s[5..], curpos + 5, filesize);
        OperandRoundTrip(dir, s[1..5], curpos, filesize);
        assert r[1..5] == Operand(dir, s[1..5], curpos, filesize);
        assert r[5..] == Transform(dir, s[5..], curpos + 5, filesize);
        assert s == [E8] + s[1..5] + s[5..];
      }
    }
  }

  lemma BytesInside(s: seq<nat>)
    requires IsBytes(s) && |s| > 10
    ensures IsBytes(s[1..]) && IsBytes(s[1..5]) && IsBytes(s[5..])
  {
  }

  lemma {:induction false} TransformIsBytes(dir: Direction, s: seq<nat>, curpos: int, filesize: int)
    requires IsBytes(s) && 0 <= curpos && curpos + |s| <= TWO31 && 0 < filesize < TWO31
    ensures IsBytes(Transform(dir, s, curpos, filesize))
    decreases |s|
  {
    hide Operand;
    if |s| > 10 {
      if s[0] != E8 {
        TransformIsBytes(dir, s[1..], curpos + 1, filesize);
      } else {
        TransformIsBytes(dir, s[5..], curpos + 5, filesize);
        OperandRoundTrip(dir, s[1..5], curpos, filesize);
      }
    }
  }

  // the calls that the scan finds, as indices into s
  function Calls(s: seq<nat>): set<nat>
  {
    if |s| <= 10 then {}
    else if s[0] != E8 then (set k | k in Calls(s[1..]) :: k + 1)
    else {0} + (set k | k in Calls(s[5..]) :: k + 5)
  }

  // both directions find the same calls
  lemma {:induction false} SameCalls(dir: Direction, s: seq<nat>, curpos: int, filesize: int)
    ensures Calls(Transform(dir, s, curpos, filesize)) == Calls(s)
    decreases |s|
  {
    if |s| > 10 {
      var r := Transform(dir, s, curpos, filesize);
      if s[0] != E8 {
        SameCalls(dir, s[1..], curpos + 1, filesize);
        assert r[1..] == Transform(dir, s[1..], curpos + 1, filesize);
      } else {
        SameCalls(dir, s[5..], curpos + 5, filesize);
        assert r[5..] == Transform(dir, s[5..], curpos + 5, filesize);
      }
    }
  }

  // no translation is done on the last six bytes
  lemma {:induction false} LastSixUnchanged(dir: Direction, s: seq<nat>, curpos: int, filesize: int, k: nat)
    requires k < |s| && |s| <= k + 6
    ensures Transform(dir, s, curpos, filesize)[k] == s[k]
    decreases |s|
  {
    if |s| > 10 {
      if s[0] != E8 {
        LastSixUnchanged(dir, s[1..], curpos + 1, filesize, k - 1);
      } else {
        LastSixUnchanged(dir, s[5..], curpos + 5, filesize, k - 5);
      }
    }
  }

  // ---------- which bytes change, and to what ----------

  // The number of four bytes is signed, has 32 bits, and has its lowest byte first.
  lemma NumberOfBytes(b: seq<nat>)
    requires |b| == 4 && IsBytes(b)
    ensures -0x8000_0000 <= FromBytes(b) < 0x8000_0000
    ensures (FromBytes(b) - (b[0] + 256 * b[1] + 65536 * b[2] + 16777216 * b[3])) % 0x1_0000_0000 == 0
  {
  }

  lemma {:induction false} CallIs(s: seq<nat>, k: nat)
    ensures k in Calls(s) <==> k + 10 < |s| && s[k] == 0xE8 && !InOperand(s, k)
    decreases |s|
  {
    if |s| > 10 {
      var step := if s[0] != E8 then 1 else 5;
      if k >= step {
        CallIs(s[step..], k - step);
        LaterOperand(s, step, k);
      } else if k > 0 {
        assert 0 in Calls(s);
      }
    }
  }

  // is this one of the four bytes behind a call?
  ghost predicate InOperand(s: seq<nat>, p: int)
  {
    exists k :: k in Calls(s) && k < p <= k + 4
  }

  lemma LaterCall(s: seq<nat>, step: nat, k: nat)
    requires |s| > 10 && step == (if s[0] != E8 then 1 else 5)
    ensures k >= step ==> (k in Calls(s) <==> k - step in Calls(s[step..]))
    ensures k < step ==> (k in Calls(s) <==> k == 0 && step == 5)
  {
    if k >= step && k - step in Calls(s[step..]) {
      assert k == (k - step) + step;
    }
  }

  lemma LaterOperand(s: seq<nat>, step: nat, p: nat)
    requires |s| > 10 && step == (if s[0] != E8 then 1 else 5) && p >= step
    ensures InOperand(s, p) <==> InOperand(s[step..], p - step)
  {
    hide Calls;
    if InOperand(s[step..], p - step) {
      var k :| k in Calls(s[step..]) && k < p - step <= k + 4;
      LaterCall(s, step, k + step);
      assert k + step in Calls(s);
    }
    if InOperand(s, p) {
      var k :| k in Calls(s) && k < p <= k + 4;
      LaterCall(s, step, k);
      assert k - step in Calls(s[step..]);
    }
  }

  // The operand v of a call at pos becomes w: an address inside the file becomes its distance from
  // the call, a negative number that reaches back no further than the start of the file becomes the
  // address that it wraps round to, anything else stays.  (Only a file size that is negative as a
  // signed number can make the sum leave 32 bits.)
  predicate Relative(v: int, w: int, pos: int, filesize: int)
  {
    (0 <= v < filesize ==> w == v - pos) &&
    (-pos <= v < 0 && filesize > 0 ==> w == v + filesize) &&
    (-pos <= v < filesize <= 0 ==> (w - (v + filesize)) % 0x1_0000_0000 == 0) &&
    (v < -pos || v >= filesize ==> w == v)
  }

  lemma OperandIsRelative(b: seq<nat>, pos: int, filesize: int)
    requires |b| == 4 && IsBytes(b) && 0 <= pos < TWO31 && IsInt32(filesize)
    ensures IsBytes(Operand(Decode, b, pos, filesize))
    ensures Relative(FromBytes(b), FromBytes(Operand(Decode, b, pos, filesize)), pos, filesize)
  {
    hide ToBytes, FromBytes, IsBytes;
    var v := FromBytes(b);
    NumberRange(b);
    if -pos <= v < filesize {
      var r := ToRelative(v, pos, filesize);
      StoredNumber(r);
      StoredBytes(r);
    }
  }

  lemma NumberRange(b: seq<nat>)
    requires |b| == 4 && IsBytes(b)
    ensures IsInt32(FromBytes(b))
  {
  }

  lemma StoredBytes(v: int)
    ensures IsBytes(ToBytes(v))
  {
    hide ToBytes;
  }

  // a number that is too small for 32 bits goes round
  lemma StoredNumber(v: int)
    requires -TWO32 <= v < TWO31
    ensures FromBytes(ToBytes(v)) == if v < -TWO31 then v + TWO32 else v
  {
    hide ToBytes, FromBytes;
    if v < -TWO31 {
      OnlyLowBits(v);
      BytesRoundTrip(v + TWO32);
    } else {
      BytesRoundTrip(v);
    }
  }

  // Which way the decoder translates: the number behind every call, from the call's place in the
  // output.
  lemma {:induction false} CallBecomes(s: seq<nat>, curpos: int, filesize: int, k: nat)
    requires IsBytes(s) && 0 <= curpos && curpos + |s| <= 0x8000_0000 && IsInt32(filesize)
    requires k in Calls(s)
    ensures k + 10 < |s| && var r := Transform(Decode, s, curpos, filesize);
      Relative(FromBytes(s[k + 1..k + 5]), FromBytes(r[k + 1..k + 5]), curpos + k, filesize)
    decreases |s|
  {
    hide Relative, Operand, FromBytes, IsInt32, IsBytes;
    BytesInside(s);
    var r := Transform(Decode, s, curpos, filesize);
    if s[0] != E8 {
      CallBecomes(s[1..], curpos + 1, filesize, k - 1);
      Shifted(s, r, 1, Transform(Decode, s[1..], curpos + 1, filesize), k);
    } else if k == 0 {
      OperandIsRelative(s[1..5], curpos, filesize);
      assert r[1..5] == Operand(Decode, s[1..5], curpos, filesize);
    } else {
      CallBecomes(s[5..], curpos + 5, filesize, k - 5);
      Shifted(s, r, 5, Transform(Decode, s[5..], curpos + 5, filesize), k);
    }
  }

  // an operand of the rest, seen from the whole
  lemma Shifted(s: seq<nat>, r: seq<nat>, step: nat, rest: seq<nat>, k: nat)
    requires step <= k && k + 5 <= |s| == |r| && step <= |r| && rest == r[step..]
    ensures s[step..][k - step + 1..k - step + 5] == s[k + 1..k + 5]
    ensures rest[k - step + 1..k - step + 5] == r[k + 1..k + 5]
  {
    SliceOfSlice(s, step, |s|, k - step + 1, k - step + 5);
    SliceOfSlice(r, step, |r|, k - step + 1, k - step + 5);
    assert s[step..|s|] == s[step..] && r[step..|r|] == r[step..];
  }

  // ... and nothing else changes.
  lemma {:induction false} OthersStay(s: seq<nat>, curpos: int, filesize: int, p: nat)
    requires p < |s| && !InOperand(s, p)
    ensures Transform(Decode, s, curpos, filesize)[p] == s[p]
    decreases |s|
  {
    hide Operand;
    if |s| > 10 {
      var step := if s[0] != E8 then 1 else 5;
      if p >= step {
        LaterOperand(s, step, p);
        OthersStay(s[step..], curpos + step, filesize, p - step);
      } else if p > 0 {
        assert 0 in Calls(s);
      }
    }
  }

  // every operand of a call becomes relative to the call, and no other byte changes
  ghost predicate Translated(data: seq<nat>, out: seq<nat>, pos: nat, filesize: int)
  {
    |out| == |data| &&
    (forall k :: k in Calls(data) ==> TranslatedAt(data, out, pos, filesize, k)) &&
    forall p :: 0 <= p < |data| && !InOperand(data, p) ==> out[p] == data[p]
  }

  predicate TranslatedAt(data: seq<nat>, out: seq<nat>, pos: nat, filesize: int, k: nat)
  {
    k + 10 < |data| == |out| &&
    Relative(FromBytes(data[k + 1..k + 5]), FromBytes(out[k + 1..k + 5]), pos + k, filesize)
  }

  lemma TransformTranslates(data: seq<nat>, pos: nat, filesize: int)
    requires IsBytes(data) && pos + |data| <= 0x8000_0000 && -0x8000_0000 <= filesize < 0x8000_0000
    ensures Translated(data, Transform(Decode, data, pos, filesize), pos, filesize)
  {
    hide Transform, Relative, FromBytes, IsBytes;
    forall k | k in Calls(data)
      ensures TranslatedAt(data, Transform(Decode, data, pos, filesize), pos, filesize, k)
    {
      CallBecomes(data, pos, filesize, k);
    }
    forall p | 0 <= p < |data| && !InOperand(data, p)
      ensures Transform(Decode, data, pos, filesize)[p] == data[p]
    {
      OthersStay(data, pos, filesize, p);
    }
  }

  // the operand of the call just found
  method ConvertOperand(buf: array<nat>, data: nat, curpos: int, filesize: int)
    requires data + 4 <= buf.Length
    modifies buf
    ensures buf[data..data + 4] == Operand(Decode, old(buf[data..data + 4]), curpos, filesize)
    ensures IsBytes(old(buf[data..data + 4])) && 0 <= curpos < TWO31 && IsInt32(filesize) ==>
      Relative(FromBytes(old(buf[data..data + 4])), FromBytes(buf[data..data + 4]), curpos, filesize)
    ensures forall k :: 0 <= k < buf.Length && !(data <= k < data + 4) ==> buf[k] == old(buf[k])
  {
    assert [buf[data], buf[data + 1], buf[data + 2], buf[data + 3]] == buf[data..data + 4];
    var absOff := FromBytes([buf[data], buf[data + 1], buf[data + 2], buf[data + 3]]);
    hide FromBytes;
    if absOff >= -curpos && absOff < filesize {
      var relOff := if absOff >= 0 then absOff - curpos else absOff + filesize;
      buf[data] := relOff % 0x100;
      buf[data + 1] := relOff / 0x100 % 0x100;
      buf[data + 2] := relOff / 0x1_0000 % 0x100;
      buf[data + 3] := relOff / 0x100_0000 % 0x100;
      assert buf[data..data + 4] == ToBytes(relOff);
    }
    if IsBytes(old(buf[data..data + 4])) && 0 <= curpos < TWO31 && IsInt32(filesize) {
      hide Operand, Relative, IsBytes, ToBytes;
      OperandIsRelative(old(buf[data..data + 4]), curpos, filesize);
    }
  }

  lemma TransformStep(s: seq<nat>, done: seq<nat>, curpos: int, filesize: int)
    requires |s| > 10
    ensures s[0] != E8 ==>
      done + Transform(Decode, s, curpos, filesize) ==
      done + [s[0]] + Transform(Decode, s[1..], curpos + 1, filesize)
    ensures s[0] == E8 ==>
      done + Transform(Decode, s, curpos, filesize) ==
      done + [E8] + Operand(Decode, s[1..5], curpos, filesize) + Transform(Decode, s[5..], curpos + 5, filesize)
  {
    hide Operand;
  }

  // the decoder's loop over e8_buf
  method DecodeE8(buf: array<nat>, frameSize: nat, intelCurpos: int, filesize: int)
    requires 10 < frameSize <= buf.Length
    modifies buf
    ensures buf[..frameSize] == Transform(Decode, old(buf[..frameSize]), intelCurpos, filesize)
    ensures IsBytes(old(buf[..frameSize])) && 0 <= intelCurpos && intelCurpos + frameSize <= TWO31 && IsInt32(filesize) ==>
      Translated(old(buf[..frameSize]), buf[..frameSize], intelCurpos, filesize)
    ensures forall k :: frameSize <= k < buf.Length ==> buf[k] == old(buf[k])
  {
    hide Transform, Operand, ToBytes, FromBytes, ToRelative, ToAbsolute, Pow2;
    var data, dataend := 0, frameSize - 10;
    var curpos := intelCurpos;
    assert buf[..frameSize] == buf[data..frameSize];
    while data < dataend
      invariant 0 <= data <= frameSize
      invariant buf[..data] + Transform(Decode, buf[data..frameSize], curpos, filesize) ==
                Transform(Decode, old(buf[..frameSize]), intelCurpos, filesize)
      invariant forall k :: frameSize <= k < buf.Length ==> buf[k] == old(buf[k])
    {
      if buf[data] != E8 {
        PassedByte(buf[..], data, frameSize, curpos, filesize);
        data := data + 1;
        curpos := curpos + 1;
      } else {
        ghost var s := buf[..];
        ConvertOperand(buf, data + 1, curpos, filesize);
        PassedCall(s, buf[..], data, frameSize, curpos, filesize);
        data := data + 5;
        curpos := curpos + 5;
      }
    }
    assert buf[..frameSize] == buf[..data] + buf[data..frameSize];
    ShortUnchanged(buf[data..frameSize], curpos, filesize);
    if IsBytes(old(buf[..frameSize])) && 0 <= intelCurpos && intelCurpos + frameSize <= TWO31 && IsInt32(filesize) {
      hide Translated, IsBytes;
      TransformTranslates(old(buf[..frameSize]), intelCurpos, filesize);
    }
  }

  // the scan goes on behind a byte that is not 0xE8
  lemma PassedByte(s: seq<nat>, data: nat, end: nat, curpos: int, filesize: int)
    requires data + 10 < end <= |s| && s[data] != E8
    ensures s[..data + 1] + Transform(Decode, s[data + 1..end], curpos + 1, filesize) ==
            s[..data] + Transform(Decode, s[data..end], curpos, filesize)
  {
    hide Transform;
    TransformStep(s[data..end], s[..data], curpos, filesize);
    assert s[data..end][1..] == s[data + 1..end] && s[..data + 1] == s[..data] + [s[data..end][0]];
  }

  // the scan goes on behind a call, whose operand has been replaced
  lemma PassedCall(s: seq<nat>, s': seq<nat>, data: nat, end: nat, curpos: int, filesize: int)
    requires |s| == |s'| && data + 10 < end <= |s| && s[data] == E8
    requires forall k :: 0 <= k < |s| && !(data + 1 <= k < data + 5) ==> s'[k] == s[k]
    requires s'[data + 1..data + 5] == Operand(Decode, s[data + 1..data + 5], curpos, filesize)
    ensures s'[..data + 5] + Transform(Decode, s'[data + 5..end], curpos + 5, filesize) ==
            s[..data] + Transform(Decode, s[data..end], curpos, filesize)
  {
    hide Transform, Operand;
    TransformStep(s[data..end], s[..data], curpos, filesize);
    SliceOfSlice(s, data, end, 1, 5);
    Converted(s, s', data, end);
  }

  // the bytes around an operand that has been replaced
  lemma Converted(s: seq<nat>, s': seq<nat>, data: nat, end: nat)
    requires |s| == |s'| && data + 5 <= end <= |s| && s[data] == E8
    requires forall k :: 0 <= k < |s| && !(data + 1 <= k < data + 5) ==> s'[k] == s[k]
    ensures s'[..data + 5] == s[..data] + [E8] + s'[data + 1..data + 5]
    ensures s'[data + 5..end] == s[data..end][5..]
  {
  }

  lemma SliceOfSlice(s: seq<nat>, a: nat, b: nat, c: nat, d: nat)
    requires a <= b <= |s| && c <= d && a + d <= b
    ensures s[a..b][c..d] == s[a + c..a + d]
  {
    var t := s[a..b];
    forall k | 0 <= k < d - c
      ensures t[c..d][k] == s[a + c..a + d][k]
    {
      assert t[c + k] == s[a + (c + k)];
    }
  }

  lemma ShortUnchanged(s: seq<nat>, curpos: int, filesize: int)
    requires |s| <= 10
    ensures Transform(Decode, s, curpos, filesize) == s
  {
  }
}
