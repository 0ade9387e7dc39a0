// The modulation data of PVRTC words: how much of colour B each pixel gets, in eighths.
module PvrtcModulation {

  datatype Word = Word(modulationData: nat, colorData: nat)

  // the k-th digit of v with two bits
  function Digit(v: nat, k: nat): (d: nat)
    ensures d < 4
  {
    Shr2(v, k) % 4
  }

  // v >> 2 * k
  function Shr2(v: nat, k: nat): nat
  {
    if k == 0 then v else Shr2(v, k - 1) / 4
  }

  // v >> k
  function Shr1(v: nat, k: nat): nat
  {
    if k == 0 then v else Shr1(v, k - 1) / 2
  }

  // is bit k of v set?
  predicate Bit(v: nat, k: nat)
  {
    Shr1(v, k) % 2 == 1
  }

  // v | (1 << k), or v & ~(1 << k)
  function SetBit(v: nat, k: nat, bit: bool): nat
  {
    if k == 0 then v / 2 * 2 + (if bit then 1 else 0) else 2 * SetBit(v / 2, k - 1, bit) + v % 2
  }

  lemma {:induction false} ShrInside(v: nat, k: nat)
    ensures Shr1(v, k + 1) == Shr1(v / 2, k)
  {
    if k > 0 {
      ShrInside(v, k - 1);
    }
  }

  lemma {:induction false} SetBitIs(v: nat, k: nat, bit: bool, j: nat)
    ensures Bit(SetBit(v, k, bit), j) <==> if j == k then bit else Bit(v, j)
  {
    if j > 0 {
      ShrInside(SetBit(v, k, bit), j - 1);
      ShrInside(v, j - 1);
      if k > 0 {
        SetBitIs(v / 2, k - 1, bit, j - 1);
      }
    }
  }

  predicate ModeBit(word: Word)
  {
    word.colorData % 2 == 1
  }

  // ---------- 4 bits a pixel ----------

  // 14 stands for 4 with the alpha channel punched through
  function Code4(word: Word, x: nat, y: nat): (v: nat)
    ensures v <= 8 || v == 14
  {
    var d := Digit(word.modulationData, 4 * y + x);
    if ModeBit(word) then (if d == 0 then 0 else if d == 1 then 4 else if d == 2 then 14 else 8)
    else if 3 * d > 3 then 3 * d - 1
    else 3 * d
  }

  // ---------- 2 bits a pixel ----------

  // 0: every pixel has its own bit; 1, 2 and 3: every other pixel has two bits, and the pixels
  // between take the average of their neighbours in both directions, in the row, or in the column
  function Mode2(word: Word): nat
  {
    if !ModeBit(word) then 0
    else if !Bit(word.modulationData, 0) then 1
    else if Bit(word.modulationData, 20) then 3
    else 2
  }

  // the modulation bits with the mode bits replaced by copies of the bits above them
  function Bits2(word: Word): nat
  {
    var m := word.modulationData;
    var m1 := if Bit(m, 0) then SetBit(m, 20, Bit(m, 21)) else m;
    SetBit(m1, 0, Bit(m1, 1))
  }

  // is a value stored for this pixel?
  predicate Stored2(word: Word, x: nat, y: nat)
  {
    !ModeBit(word) || x % 2 == y % 2
  }

  function Value2(word: Word, x: nat, y: nat): (v: nat)
    ensures v <= 3
  {
    if !ModeBit(word) then (if Bit(word.modulationData, 8 * y + x) then 3 else 0)
    else Digit(Bits2(word), 4 * y + x / 2)
  }

  // ---------- four words ----------

  datatype Quad = Quad(P: Word, Q: Word, R: Word, S: Word)

  // the word that the pixel x, y of the two by two words belongs to
  function WordAt(q: Quad, w: nat, x: nat, y: nat): Word
  {
    if y < 4 then (if x < w then q.P else q.Q) else if x < w then q.R else q.S
  }

  function Local(x: nat, w: nat): nat
  {
    if x < w then x else x - w
  }

  predicate Stored(q: Quad, x: nat, y: nat)
  {
    Stored2(WordAt(q, 8, x, y), Local(x, 8), Local(y, 4))
  }

  function Value(q: Quad, x: nat, y: nat): (v: nat)
    ensures v <= 3
  {
    Value2(WordAt(q, 8, x, y), Local(x, 8), Local(y, 4))
  }

  function Rep(v: nat): nat
  {
    if v == 0 then 0 else if v == 1 then 3 else if v == 2 then 5 else 8
  }

  // the factor of a pixel away from the edge
  function Factor2(q: Quad, x: nat, y: nat): (f: nat)
    requires 0 < x < 15 && 0 < y < 7
    ensures f <= 8
  {
    var mode := Mode2(WordAt(q, 8, x, y));
    if mode == 0 || x % 2 == y % 2 then Rep(Value(q, x, y))
    else if mode == 1 then
      (Rep(Value(q, x, y - 1)) + Rep(Value(q, x, y + 1)) + Rep(Value(q, x - 1, y)) + Rep(Value(q, x + 1, y)) + 2) / 4
    else if mode == 2 then (Rep(Value(q, x - 1, y)) + Rep(Value(q, x + 1, y)) + 1) / 2
    else (Rep(Value(q, x, y - 1)) + Rep(Value(q, x, y + 1)) + 1) / 2
  }

  function Factor4(q: Quad, x: nat, y: nat): nat
  {
    Code4(WordAt(q, 4, x, y), Local(x, 4), Local(y, 4))
  }

  // Everything that a factor is computed from is stored by one of the words: a pixel that has no
  // value has neighbours that have one, whatever their words' modes are.
  lemma FactorsAreStored(q: Quad, x: nat, y: nat)
    requires 0 < x < 15 && 0 < y < 7
    ensures Mode2(WordAt(q, 8, x, y)) == 0 || x % 2 == y % 2 ==> Stored(q, x, y)
    ensures x % 2 != y % 2 ==>
      Stored(q, x - 1, y) && Stored(q, x + 1, y) && Stored(q, x, y - 1) && Stored(q, x, y + 1)
  {
    hide Bit, WordAt, Stored, Mode2;
    if x % 2 == y % 2 {
      EvenStored(q, x, y);
    } else {
      EvenStored(q, x - 1, y);
      EvenStored(q, x + 1, y);
      EvenStored(q, x, y - 1);
      EvenStored(q, x, y + 1);
      if Mode2(WordAt(q, 8, x, y)) == 0 {
        AllStored(q, x, y);
      }
    }
  }

  // with the same parity in both directions a pixel has a value in every mode
  lemma EvenStored(q: Quad, x: nat, y: nat)
    requires x % 2 == y % 2
    ensures Stored(q, x, y)
  {
    hide Bit, WordAt;
  }

  // in mode 0 every pixel has one
  lemma AllStored(q: Quad, x: nat, y: nat)
    requires Mode2(WordAt(q, 8, x, y)) == 0
    ensures Stored(q, x, y)
  {
    hide Bit, WordAt;
  }

  // ---------- unpacking ----------

  // what the arrays hold for the words that have been unpacked so far
  ghost predicate Holds2(word: Word, ox: nat, oy: nat, values: array2<int>, modes: array2<int>)
    requires values.Length0 == modes.Length0 == 16 && values.Length1 == modes.Length1 == 8
    requires ox + 8 <= 16 && oy + 4 <= 8
    reads values, modes
  {
    (forall x, y :: ox <= x < ox + 8 && oy <= y < oy + 4 ==> modes[x, y] == Mode2(word)) &&
    (forall x, y :: ox <= x < ox + 8 && oy <= y < oy + 4 && Stored2(word, x - ox, y - oy) ==>
       values[x, y] == Value2(word, x - ox, y - oy))
  }

  ghost predicate Holds4(word: Word, ox: nat, oy: nat, values: array2<int>)
    requires values.Length0 == 16 && values.Length1 == 8 && ox + 4 <= 8 && oy + 4 <= 8
    reads values
  {
    forall x, y :: ox <= x < ox + 4 && oy <= y < oy + 4 ==> values[y, x] == Code4(word, x - ox, y - oy)
  }

  // one bit for each pixel
  method UnpackDirect(word: Word, ox: nat, oy: nat, values: array2<int>, modes: array2<int>)
    requires values != modes && values.Length0 == modes.Length0 == 16 && values.Length1 == modes.Length1 == 8
    requires ox + 8 <= 16 && oy + 4 <= 8 && !ModeBit(word)
    modifies values, modes
    ensures Holds2(word, ox, oy, values, modes)
    ensures forall x, y :: 0 <= x < 16 && 0 <= y < 8 && !(ox <= x < ox + 8 && oy <= y < oy + 4) ==>
      values[x, y] == old(values[x, y]) && modes[x, y] == old(modes[x, y])
  {
    hide Shr1, Bit;
    var bits := word.modulationData;
    BitsStart(bits);
    for y := 0 to 4
      invariant bits == Shr1(word.modulationData, 8 * y)
      invariant forall u, v :: ox <= u < ox + 8 && oy <= v < oy + y ==>
        modes[u, v] == 0 && values[u, v] == Value2(word, u - ox, v - oy)
      invariant forall u, v :: 0 <= u < 16 && 0 <= v < 8 && !(ox <= u < ox + 8 && oy <= v < oy + 4) ==>
        values[u, v] == old(values[u, v]) && modes[u, v] == old(modes[u, v])
    {
      for x := 0 to 8
        invariant bits == Shr1(word.modulationData, 8 * y + x)
        invariant forall u, v :: ox <= u < ox + 8 && oy <= v <= oy + y && (v < oy + y || u < ox + x) ==>
          modes[u, v] == 0 && values[u, v] == Value2(word, u - ox, v - oy)
        invariant forall u, v :: 0 <= u < 16 && 0 <= v < 8 && !(ox <= u < ox + 8 && oy <= v < oy + 4) ==>
          values[u, v] == old(values[u, v]) && modes[u, v] == old(modes[u, v])
      {
        NextBit(word.modulationData, 8 * y + x);
        modes[x + ox, y + oy] := 0;
        values[x + ox, y + oy] := if bits % 2 == 1 then 3 else 0;
        bits := bits / 2;
      }
    }
  }

  // the mode, and the modulation bits without it
  method ReplaceModeBits(word: Word) returns (bits: nat, mode: nat)
    requires ModeBit(word)
    ensures bits == Bits2(word) && mode == Mode2(word)
  {
    hide Bit, SetBit;
    bits, mode := word.modulationData, 1;
    if Bit(bits, 0) {
      mode := if Bit(bits, 20) then 3 else 2;
      bits := SetBit(bits, 20, Bit(bits, 21));
    }
    bits := SetBit(bits, 0, Bit(bits, 1));
  }

  // two bits for every other pixel
  method UnpackStored(word: Word, ox: nat, oy: nat, values: array2<int>, modes: array2<int>)
    requires values != modes && values.Length0 == modes.Length0 == 16 && values.Length1 == modes.Length1 == 8
    requires ox + 8 <= 16 && oy + 4 <= 8 && ModeBit(word)
    modifies values, modes
    ensures Holds2(word, ox, oy, values, modes)
    ensures forall x, y :: 0 <= x < 16 && 0 <= y < 8 && !(ox <= x < ox + 8 && oy <= y < oy + 4) ==>
      values[x, y] == old(values[x, y]) && modes[x, y] == old(modes[x, y])
  {
    hide Shr1, Shr2, Bit, Digit, Bits2, Mode2, Value2, Stored2, ModeBit;
    var bits, mode := ReplaceModeBits(word);
    BitsStart(bits);
    for y := 0 to 4
      invariant bits == Shr2(Bits2(word), 4 * y)
      invariant forall u, v :: ox <= u < ox + 8 && oy <= v < oy + y ==>
        modes[u, v] == mode && (Stored2(word, u - ox, v - oy) ==> values[u, v] == Value2(word, u - ox, v - oy))
      invariant forall u, v :: 0 <= u < 16 && 0 <= v < 8 && !(ox <= u < ox + 8 && oy <= v < oy + 4) ==>
        values[u, v] == old(values[u, v]) && modes[u, v] == old(modes[u, v])
    {
      for x := 0 to 8
        invariant bits == Shr2(Bits2(word), 4 * y + (x + 1 - y % 2) / 2)
        invariant forall u, v :: ox <= u < ox + 8 && oy <= v <= oy + y && (v < oy + y || u < ox + x) ==>
          modes[u, v] == mode && (Stored2(word, u - ox, v - oy) ==> values[u, v] == Value2(word, u - ox, v - oy))
        invariant forall u, v :: 0 <= u < 16 && 0 <= v < 8 && !(ox <= u < ox + 8 && oy <= v < oy + 4) ==>
          values[u, v] == old(values[u, v]) && modes[u, v] == old(modes[u, v])
      {
        StoredValue(word, x, y);
        NextStored(x, y);
        modes[x + ox, y + oy] := mode;
        // every other pixel has bits of its own
        if x % 2 == y % 2 {
          NextDigit(Bits2(word), 4 * y + x / 2);
          values[x + ox, y + oy] := bits % 4;
          bits := bits / 4;
        }
      }
    }
  }

  lemma StoredValue(word: Word, x: nat, y: nat)
    requires ModeBit(word)
    ensures Stored2(word, x, y) <==> x % 2 == y % 2
    ensures Value2(word, x, y) == Digit(Bits2(word), 4 * y + x / 2)
  {
    hide Bits2, Digit;
  }

  // the number of stored values in front of x
  lemma NextStored(x: nat, y: nat)
    ensures (x + 2 - y % 2) / 2 == (x + 1 - y % 2) / 2 + if x % 2 == y % 2 then 1 else 0
    ensures x % 2 == y % 2 ==> (x + 1 - y % 2) / 2 == x / 2
  {
  }

  // the values of a 4bpp word, with rows and columns exchanged
  method UnpackWord4(word: Word, ox: nat, oy: nat, values: array2<int>)
    requires values.Length0 == 16 && values.Length1 == 8 && ox + 4 <= 8 && oy + 4 <= 8
    modifies values
    ensures Holds4(word, ox, oy, values)
    ensures forall x, y :: 0 <= x < 8 && 0 <= y < 16 && !(ox <= x < ox + 4 && oy <= y < oy + 4) ==>
      values[y, x] == old(values[y, x])
  {
    hide Shr2, Digit;
    var bits := word.modulationData;
    BitsStart(bits);
    for y := 0 to 4
      invariant bits == Shr2(word.modulationData, 4 * y)
      invariant forall u, v :: ox <= u < ox + 4 && oy <= v < oy + y ==> values[v, u] == Code4(word, u - ox, v - oy)
      invariant forall u, v :: 0 <= u < 8 && 0 <= v < 16 && !(ox <= u < ox + 4 && oy <= v < oy + 4) ==>
        values[v, u] == old(values[v, u])
    {
      for x := 0 to 4
        invariant bits == Shr2(word.modulationData, 4 * y + x)
        invariant forall u, v :: ox <= u < ox + 4 && oy <= v <= oy + y && (v < oy + y || u < ox + x) ==>
          values[v, u] == Code4(word, u - ox, v - oy)
        invariant forall u, v :: 0 <= u < 8 && 0 <= v < 16 && !(ox <= u < ox + 4 && oy <= v < oy + 4) ==>
          values[v, u] == old(values[v, u])
      {
        NextDigit(word.modulationData, 4 * y + x);
        values[y + oy, x + ox] := bits % 4;
        if ModeBit(word) {
          if values[y + oy, x + ox] == 1 {
            values[y + oy, x + ox] := 4;
          } else if values[y + oy, x + ox] == 2 {
            values[y + oy, x + ox] := 14;
          } else if values[y + oy, x + ox] == 3 {
            values[y + oy, x + ox] := 8;
          }
        } else {
          values[y + oy, x + ox] := values[y + oy, x + ox] * 3;
          if values[y + oy, x + ox] > 3 {
            values[y + oy, x + ox] := values[y + oy, x + ox] - 1;
          }
        }
        bits := bits / 4;
      }
    }
  }

  // unpackModulations
  method UnpackModulations(word: Word, ox: nat, oy: nat, values: array2<int>, modes: array2<int>, bpp: nat)
    requires values != modes && values.Length0 == modes.Length0 == 16 && values.Length1 == modes.Length1 == 8
    requires oy + 4 <= 8 && (bpp == 2 || bpp == 4) && ox + (if bpp == 2 then 8 else 4) <= (if bpp == 2 then 16 else 8)
    modifies values, modes
    ensures bpp == 2 ==> Holds2(word, ox, oy, values, modes)
    ensures bpp == 2 ==> forall x, y :: 0 <= x < 16 && 0 <= y < 8 && !(ox <= x < ox + 8 && oy <= y < oy + 4) ==>
      values[x, y] == old(values[x, y]) && modes[x, y] == old(modes[x, y])
    ensures bpp == 4 ==> Holds4(word, ox, oy, values)
    ensures bpp == 4 ==> forall x, y :: 0 <= x < 8 && 0 <= y < 16 && !(ox <= x < ox + 4 && oy <= y < oy + 4) ==>
      values[y, x] == old(values[y, x])
  {
    hide Holds2, Holds4;
    if bpp == 2 {
      if ModeBit(word) {
        UnpackStored(word, ox, oy, values, modes);
      } else {
        UnpackDirect(word, ox, oy, values, modes);
      }
    } else {
      UnpackWord4(word, ox, oy, values);
    }
  }

  // ---------- reading the arrays ----------

  // what the arrays hold for all four words
  ghost predicate HoldsQuad(q: Quad, values: array2<int>, modes: array2<int>, bpp: nat)
    requires values.Length0 == modes.Length0 == 16 && values.Length1 == modes.Length1 == 8
    reads values, modes
  {
    if bpp == 2 then
      (forall x, y :: 0 <= x < 16 && 0 <= y < 8 ==> modes[x, y] == Mode2(WordAt(q, 8, x, y))) &&
      (forall x, y :: 0 <= x < 16 && 0 <= y < 8 && Stored(q, x, y) ==> values[x, y] == Value(q, x, y))
    else
      forall x, y :: 0 <= x < 8 && 0 <= y < 8 ==> values[y, x] == Factor4(q, x, y)
  }

  method UnpackQuad(q: Quad, values: array2<int>, modes: array2<int>, bpp: nat)
    requires values != modes && values.Length0 == modes.Length0 == 16 && values.Length1 == modes.Length1 == 8
    requires bpp == 2 || bpp == 4
    modifies values, modes
    ensures HoldsQuad(q, values, modes, bpp)
  {
    hide Code4, Value2, Mode2, Stored2;
    var w := if bpp == 2 then 8 else 4;
    UnpackModulations(q.P, 0, 0, values, modes, bpp);
    UnpackModulations(q.Q, w, 0, values, modes, bpp);
    UnpackModulations(q.R, 0, 4, values, modes, bpp);
    UnpackModulations(q.S, w, 4, values, modes, bpp);
  }

  // getModulationValues
  method GetModulationValues(ghost q: Quad, values: array2<int>, modes: array2<int>, x: nat, y: nat, bpp: nat)
    returns (mod: nat)
    requires values.Length0 == modes.Length0 == 16 && values.Length1 == modes.Length1 == 8
    requires HoldsQuad(q, values, modes, bpp) && (bpp == 2 || bpp == 4)
    requires if bpp == 2 then 0 < x < 15 && 0 < y < 7 else x < 8 && y < 8
    ensures mod == if bpp == 2 then Factor2(q, x, y) else Factor4(q, y, x)
  {
    hide Code4, Value2, Mode2, Stored, Value;
    if bpp == 4 {
      return values[x, y];
    }
    FactorsAreStored(q, x, y);
    // the two low bits
    if modes[x, y] == 0 || x % 2 == y % 2 {
      mod := Rep(values[x, y]);
    } else if modes[x, y] == 1 {
      mod := (Rep(values[x, y - 1]) + Rep(values[x, y + 1]) + Rep(values[x - 1, y]) + Rep(values[x + 1, y]) + 2) / 4;
    } else if modes[x, y] == 2 {
      mod := (Rep(values[x - 1, y]) + Rep(values[x + 1, y]) + 1) / 2;
    } else {
      mod := (Rep(values[x, y - 1]) + Rep(values[x, y + 1]) + 1) / 2;
    }
  }

  lemma BitsStart(v: nat)
    ensures Shr1(v, 0) == v && Shr2(v, 0) == v
  {
  }

  lemma NextBit(v: nat, k: nat)
    ensures Shr1(v, k + 1) == Shr1(v, k) / 2 && (Bit(v, k) <==> Shr1(v, k) % 2 == 1)
  {
  }

  lemma NextDigit(v: nat, k: nat)
    ensures Shr2(v, k + 1) == Shr2(v, k) / 4 && Digit(v, k) == Shr2(v, k) % 4
  {
  }
}
