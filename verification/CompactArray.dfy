/** An array of cells narrower than a byte, packed into bytes; a cell may straddle two of them. */
module CompactArrays {
  import opened Arith
  import opened Bits

  ghost predicate Bytes(b: seq<nat>) {
    forall k | 0 <= k < |b| :: b[k] < 256
  }

  /** Bit `n` of the row of bytes. */
  ghost predicate BitAt(b: seq<nat>, n: nat)
    requires n / 8 < |b|
  {
    Bit(b[n / 8], n % 8)
  }

  /** The number spelled by `w` bits from `start` on. */
  ghost function Cell(b: seq<nat>, start: nat, w: nat): nat
    requires start + w <= 8 * |b|
    decreases w
  {
    if w == 0 then 0 else AsNat(BitAt(b, start)) + 2 * Cell(b, start + 1, w - 1)
  }

  lemma {:induction false} CellBits(b: seq<nat>, start: nat, w: nat, t: nat)
    requires start + w <= 8 * |b|
    ensures Cell(b, start, w) < Pow2(w)
    ensures Bit(Cell(b, start, w), t) == (t < w && BitAt(b, start + t))
    decreases w
  {
    hide BitAt;
    if w == 0 {
      ZeroBits(t);
    } else {
      CellBits(b, start + 1, w - 1, if t > 0 then t - 1 else 0);
      var rest := Cell(b, start + 1, w - 1);
      assert (AsNat(BitAt(b, start)) + 2 * rest) / 2 == rest;
    }
  }

  /** A number with the bits of the cell is the cell. */
  lemma CellIs(b: seq<nat>, start: nat, w: nat, v: nat)
    requires start + w <= 8 * |b| && v < Pow2(w) && forall t: nat | t < w :: Bit(v, t) == BitAt(b, start + t)
    ensures v == Cell(b, start, w)
  {
    hide Bit, BitAt, Cell;
    forall t: nat | t < w ensures Bit(v, t) == Bit(Cell(b, start, w), t) {
      CellBits(b, start, w, t);
    }
    CellBits(b, start, w, 0);
    SameBits(v, Cell(b, start, w), w);
  }

  // ---------- Parts of bytes ----------

  /** `w` bits from `off` on, replaced; bits of `v` past them are or-ed into the rest of the byte. */
  function Replaced(byte: nat, off: nat, w: nat, v: nat): (r: nat)
    requires off + w <= 8
    ensures r < 256
  {
    MaskFits(off, w);
    Or(And(byte, Not((Pow2(w) - 1) * Pow2(off), 8)), v * Pow2(off)) % 256
  }

  lemma MaskFits(off: nat, w: nat)
    requires off + w <= 8
    ensures (Pow2(w) - 1) * Pow2(off) < Pow2(8)
  {
    hide Pow2;
    Pow2Add(w, off);
    Pow2Monotone(w + off, 8);
    assert (Pow2(w) - 1) * Pow2(off) == Pow2(w) * Pow2(off) - Pow2(off);
  }

  lemma BitMod(x: nat, n: nat, t: nat)
    ensures Bit(x % Pow2(n), t) == (t < n && Bit(x, t))
  {
    hide Bit, And, Pow2;
    AndMask(x, n);
    BitAnd(x, Pow2(n) - 1, t);
    BitMask(n, t);
  }

  lemma BitReplaced(byte: nat, off: nat, w: nat, v: nat, t: nat)
    requires off + w <= 8 && t < 8
    ensures Bit(Replaced(byte, off, w, v), t)
         == if off <= t < off + w then Bit(v, t - off) else Bit(byte, t) || (t >= off + w && Bit(v, t - off))
  {
    hide Bit, And, Or, Pow2, Not;
    MaskFits(off, w);
    var mask := (Pow2(w) - 1) * Pow2(off);
    MachineWidths();
    BitMod(Or(And(byte, Not(mask, 8)), v * Pow2(off)), 8, t);
    BitOr(And(byte, Not(mask, 8)), v * Pow2(off), t);
    BitAnd(byte, Not(mask, 8), t);
    BitNot(mask, 8, t);
    BitShl(Pow2(w) - 1, off, t);
    BitShl(v, off, t);
    if t >= off { BitMask(w, t - off); }
  }

  /** `w` bits from `off` on. */
  function Extracted(byte: nat, off: nat, w: nat): nat {
    And(Shr(byte, off), Pow2(w) - 1)
  }

  lemma BitExtracted(byte: nat, off: nat, w: nat, t: nat)
    ensures Bit(Extracted(byte, off, w), t) == (t < w && Bit(byte, off + t))
    ensures Extracted(byte, off, w) < Pow2(w)
  {
    hide Bit, And, Pow2, Shr;
    BitAnd(Shr(byte, off), Pow2(w) - 1, t);
    BitShr(byte, off, t);
    BitMask(w, t);
    AndMask(Shr(byte, off), w);
  }

  // ---------- The array ----------

  /** Where a cell is: first and last byte, first bit in the one, bits taken of the other. */
  datatype Locus = Locus(indexL: nat, offsetL: nat, indexR: nat, offsetR: nat)

  /** The cell of `w` bits that starts at bit `l`. */
  function LocusAt(l: nat, w: nat): Locus
    requires w > 0
  {
    Locus(l / 8, l % 8, (l + w - 1) / 8, (l + w) % 8)
  }

  function Locate(i: nat, w: nat): Locus
    requires w > 0
  {
    LocusAt(i * w, w)
  }

  function BitsetSize(count: nat, w: nat): nat {
    (count * w + 7) / 8
  }

  /** As many bytes as the cells need, and no more. */
  lemma BitsetLeast(count: nat, w: nat)
    ensures 8 * BitsetSize(count, w) >= count * w
    ensures BitsetSize(count, w) > 0 ==> 8 * (BitsetSize(count, w) - 1) < count * w
  {
  }

  /** A cell is in one byte, or its first bits end one byte and the rest start the next. */
  lemma Layout(i: nat, w: nat, count: nat)
    requires 0 < w < 8 && i < count
    ensures i * w + w <= count * w <= 8 * BitsetSize(count, w)
    ensures var p := Locate(i, w);
            && p.indexL <= p.indexR < BitsetSize(count, w)
            && (p.indexL == p.indexR ==> p.offsetL + w <= 8)
            && (p.indexL != p.indexR ==> p.indexR == p.indexL + 1 && p.offsetL > 0 && p.offsetR == p.offsetL + w - 8 > 0)
  {
    MulMonotone(i + 1, count, w);
    LayoutAt(i * w, w, count * w, BitsetSize(count, w));
  }

  lemma LayoutAt(l: nat, w: nat, end: nat, bytes: nat)
    requires 0 < w < 8 && l + w <= end && bytes == (end + 7) / 8
    ensures end <= 8 * bytes && l / 8 <= (l + w - 1) / 8 < bytes
    ensures l / 8 == (l + w - 1) / 8 ==> l % 8 + w <= 8
    ensures l / 8 != (l + w - 1) / 8 ==> (l + w - 1) / 8 == l / 8 + 1 && l % 8 > 0 && (l + w) % 8 == l % 8 + w - 8 > 0
  {
  }

  class CompactArray {
    const width: nat
    const count: nat
    const bitset: array<nat>

    ghost predicate Valid()
      reads this, bitset
    {
      0 < width < 8 && bitset.Length == BitsetSize(count, width) && Bytes(bitset[..])
    }

    ghost function CellAt(i: nat): nat
      requires Valid() && i < count
      reads this, bitset
    {
      Layout(i, width, count);
      Cell(bitset[..], i * width, width)
    }

    /** The array this one stands for. */
    ghost function Contents(): seq<nat>
      requires Valid()
      reads this, bitset
    {
      seq(count, i requires 0 <= i < count reads this, bitset requires Valid() => CellAt(i))
    }

    constructor (width: nat, count: nat)
      requires 0 < width < 8
      ensures Valid() && fresh(bitset) && this.width == width && this.count == count
      ensures Contents() == seq(count, i => 0)
    {
      this.width, this.count := width, count;
      bitset := new nat[BitsetSize(count, width)](i => 0);
      new;
      forall i | 0 <= i < count ensures CellAt(i) == 0 {
        Layout(i, width, count);
        AllZero(bitset[..], i * width, width);
      }
    }

    method Read(i: nat) returns (v: nat)
      requires Valid() && i < count
      ensures v == Contents()[i]
    {
      hide Bit, And, Or, Pow2, Cell, Shr, BitAt;
      Layout(i, width, count);
      var p := Locate(i, width);
      if p.indexL == p.indexR {
        v := Extracted(bitset[p.indexL], p.offsetL, width);
        ReadOne(bitset[..], i * width, width, v);
      } else {
        var left := 8 - p.offsetL;
        v := Or(Extracted(bitset[p.indexL], p.offsetL, left), And(bitset[p.indexR], Pow2(p.offsetR) - 1) * Pow2(left));
        ReadTwo(bitset[..], i * width, width, v);
      }
    }

    /** Assignment to the cell that starts at bit `l`. */
    method Store(l: nat, v: nat)
      requires 0 < width < 8 && Bytes(bitset[..]) && l + width <= 8 * bitset.Length
      modifies bitset
      ensures Bytes(bitset[..]) && Wrote(old(bitset[..]), bitset[..], l, width, v)
    {
      hide Bit, And, Or, Pow2, Shr, BitAt, Replaced, Wrote;
      ghost var before := bitset[..];
      LayoutAt(l, width, 8 * bitset.Length, bitset.Length);
      var p := LocusAt(l, width);
      if p.indexL == p.indexR || p.indexL == bitset.Length - 1 {
        bitset[p.indexL] := Replaced(bitset[p.indexL], p.offsetL, width, v);
        WroteOne(before, bitset[..], l, width, v);
      } else {
        var left := 8 - p.offsetL;
        bitset[p.indexL] := Replaced(bitset[p.indexL], p.offsetL, left, And(v, Pow2(left) - 1));
        bitset[p.indexR] := Replaced(bitset[p.indexR], 0, p.offsetR, Shr(v, left));
        WroteTwo(before, bitset[..], l, width, v);
      }
    }

    /** Exactly one cell changes. Of a value that does not fit the cell, the bits past it are or-ed into
        the rest of the byte where the cell ends. */
    method Write(i: nat, v: nat)
      requires Valid() && i < count && v < 256
      modifies bitset
      ensures Valid() && Contents()[i] == v % Pow2(width)
      ensures Wrote(old(bitset[..]), bitset[..], i * width, width, v)
      ensures Contents() == old(Contents())[i := v] <==> v < Pow2(width)
    {
      hide Bytes, Pow2, Cell, Wrote, BitsetSize;
      ghost var before := bitset[..];
      Layout(i, width, count);
      Store(i * width, v);
      WrittenCell(before, bitset[..], i * width, width, v);
      if v < Pow2(width) {
        ModSmall(v, Pow2(width));
        forall j | 0 <= j < count && j != i ensures CellAt(j) == old(CellAt(j)) {
          Layout(j, width, count);
          OtherCell(before, bitset[..], i, j, width, v);
        }
      }
    }
  }

  // ---------- The sequential reader ----------

  /** The cells up to `i`, the first one excepted, that start on a byte boundary: there `next` goes on with
      the byte it has, and stays behind by one byte more. */
  function Lag(i: nat, w: nat): nat {
    if i == 0 then 0 else Lag(i - 1, w) + AsNat(i * w % 8 == 0)
  }

  lemma {:induction false} LagAtMost(i: nat, w: nat)
    requires w > 0
    ensures Lag(i, w) <= i * w / 8
  {
    if i > 0 {
      LagAtMost(i - 1, w);
      assert (i - 1) * w == i * w - w;
    }
  }

  /** The bit where the reader looks for cell `i`. */
  function Behind(i: nat, w: nat): nat
    requires w > 0
  {
    LagAtMost(i, w);
    i * w - 8 * Lag(i, w)
  }

  /** The first cell, other than cell 0, that starts on a byte boundary. */
  function Period(w: nat): nat {
    if w % 4 == 0 then 2 else if w % 2 == 0 then 4 else 8
  }

  lemma Boundary(j: nat, w: nat)
    requires 0 < w < 8 && 0 < j <= Period(w)
    ensures j * w % 8 == 0 <==> j == Period(w)
  {
    if w == 1 { assert j * w == j; } else if w == 2 { assert j * w == 2 * j; }
    else if w == 3 { assert j * w == 3 * j; } else if w == 4 { assert j * w == 4 * j; }
    else if w == 5 { assert j * w == 5 * j; } else if w == 6 { assert j * w == 6 * j; }
    else { assert j * w == 7 * j; }
  }

  lemma {:induction false} LagIff(i: nat, w: nat)
    requires 0 < w < 8
    ensures Lag(i, w) == 0 <==> i < Period(w)
  {
    if i > 0 {
      LagIff(i - 1, w);
      if i <= Period(w) { Boundary(i, w); }
    }
  }

  datatype Next = Ready | AtEnd | Truncated

  datatype Got = NoData | Found(index: nat, value: nat)

  class Reader {
    const width: nat
    const count: nat
    const input: seq<nat>
    var current: nat
    var readCount: nat
    var locus: Locus
    var valueL: nat
    var valueR: nat
    var atEnd: bool
    var fitsInByte: bool

    ghost predicate Valid()
      reads this
    {
      && 0 < width < 8 && Bytes(input) && current <= count
      && (current == 0 ==> readCount == 0)
      && (current > 0 ==> Holds(current - 1))
    }

    /** Where the reader stands in the input after cell `i`. */
    ghost predicate Holds(i: nat)
      requires width > 0
      reads this
    {
      var g := Lag(i, width);
      && locus == Locate(i, width)
      && g <= locus.indexL <= locus.indexR
      && readCount == locus.indexR - g + 1 <= |input|
      && valueL == input[locus.indexL - g] && valueR == input[locus.indexR - g]
      && fitsInByte == (locus.indexL == locus.indexR)
    }

    constructor (width: nat, count: nat, input: seq<nat>)
      requires 0 < width < 8 && Bytes(input)
      ensures Valid() && current == 0 && !atEnd && this.width == width && this.count == count && this.input == input
    {
      this.width, this.count, this.input := width, count, input;
      current, readCount, atEnd := 0, 0, false;
    }

    method Advance() returns (r: Next)
      requires Valid()
      modifies this
      ensures r.AtEnd? <==> old(current) == count
      ensures r.AtEnd? ==> Valid() && atEnd && current == old(current)
      ensures r.Ready? ==> Valid() && atEnd == old(atEnd) && current == old(current) + 1
      ensures r.Truncated? ==> |input| < BitsetSize(count, width)
    {
      hide Locate, Lag, BitsetSize, Bytes;
      if current == count {
        atEnd := true;
        return AtEnd;
      }
      Moves(current, width, count);
      locus := Locate(current, width);
      if current == 0 {
        if readCount == |input| { return Truncated; }
        valueL := input[readCount];
        readCount := readCount + 1;
      } else {
        valueL := valueR;
      }
      if locus.indexL != locus.indexR {
        fitsInByte := readCount == BitsetSize(count, width);
        if !fitsInByte {
          if readCount == |input| { return Truncated; }
          valueR := input[readCount];
          readCount := readCount + 1;
        }
      } else {
        fitsInByte := true;
        valueR := valueL;
      }
      current := current + 1;
      return Ready;
    }

    /** The cell that stands where the reader has got to. */
    method Get() returns (r: Got)
      requires Valid()
      ensures r.NoData? <==> current == 0 || atEnd
      ensures r.Found? ==> r.index == current - 1 && Behind(r.index, width) + width <= 8 * |input|
      ensures r.Found? ==> r.value == Cell(input, Behind(r.index, width), width)
    {
      hide Bit, And, Or, Pow2, Cell, Shr, BitAt, Locate, Lag, Extracted;
      if current == 0 || atEnd { return NoData; }
      ghost var l := Behind(current - 1, width);
      Place((current - 1) * width, width, Lag(current - 1, width), locus) by { LocateMeans(current - 1, width); }
      var v;
      if fitsInByte {
        v := Extracted(valueL, locus.offsetL, width);
        ReadOne(input, l, width, v);
      } else {
        var left := 8 - locus.offsetL;
        v := Or(Extracted(valueL, locus.offsetL, left), And(valueR, Pow2(locus.offsetR) - 1) * Pow2(left));
        ReadTwo(input, l, width, v);
      }
      return Found(current - 1, v);
    }
  }

  /** A cell starts in the byte where the one before it ends, or on the boundary behind it. */
  lemma Moves(i: nat, w: nat, count: nat)
    requires 0 < w < 8 && i < count
    ensures var p := Locate(i, w);
            && Lag(i, w) <= p.indexL <= p.indexR <= p.indexL + 1 && p.indexR < BitsetSize(count, w)
            && (i == 0 ==> p.indexL == 0 == Lag(i, w))
            && (i > 0 ==> p.indexL - Lag(i, w) == Locate(i - 1, w).indexR - Lag(i - 1, w))
  {
    Layout(i, w, count);
    LagAtMost(i, w);
    if i > 0 { assert (i - 1) * w + w == i * w; }
  }

  lemma LocateMeans(i: nat, w: nat)
    requires w > 0
    ensures var l := i * w; Locate(i, w) == Locus(l / 8, l % 8, (l + w - 1) / 8, (l + w) % 8)
  {
  }

  /** The place of a cell, `g` bytes earlier. */
  lemma Place(n: nat, w: nat, g: nat, p: Locus)
    requires 0 < w < 8 && p == Locus(n / 8, n % 8, (n + w - 1) / 8, (n + w) % 8) && g <= p.indexL
    ensures var l := n - 8 * g;
            && l >= 0 && l / 8 == p.indexL - g && l % 8 == p.offsetL
            && (p.indexL == p.indexR ==> l % 8 + w <= 8)
            && (p.indexL != p.indexR ==> l % 8 + w > 8 && p.indexR - g == l / 8 + 1 && p.offsetR == w - (8 - l % 8))
  {
  }

  /** The reader finds a cell for every contents of the array exactly if the cell comes before the first
      one, other than cell 0, that starts on a byte boundary. */
  lemma ReaderIff(i: nat, w: nat, bytes: nat)
    requires 0 < w < 8 && i * w + w <= 8 * bytes
    ensures (forall b | Bytes(b) && |b| == bytes :: Cell(b, Behind(i, w), w) == Cell(b, i * w, w))
       <==> i < Period(w)
  {
    hide Cell, OneBit, Lag, Period;
    LagIff(i, w);
    LagAtMost(i, w);
    if i >= Period(w) { OneBitFound(i * w, Lag(i, w), w, bytes); }
  }

  /** Bytes with a single bit set. */
  function OneBit(n: nat, bytes: nat): seq<nat> {
    seq(bytes, k => if k == n / 8 then Pow2(n % 8) else 0)
  }

  lemma OneBitFound(l: nat, lag: nat, w: nat, bytes: nat)
    requires 0 < w && 0 < 8 * lag <= l && l + w <= 8 * bytes
    ensures |OneBit(l, bytes)| == bytes && Bytes(OneBit(l, bytes))
    ensures Cell(OneBit(l, bytes), l - 8 * lag, w) != Cell(OneBit(l, bytes), l, w)
  {
    hide Pow2, BitAt, Cell;
    var b := OneBit(l, bytes);
    OneBitAt(l, l, bytes);
    OneBitAt(l, l - 8 * lag, bytes);
    CellBits(b, l, w, 0);
    CellBits(b, l - 8 * lag, w, 0);
  }

  lemma OneBitAt(l: nat, n: nat, bytes: nat)
    requires n % 8 == l % 8 && n < 8 * bytes
    ensures Bytes(OneBit(l, bytes)) && (BitAt(OneBit(l, bytes), n) <==> n == l)
  {
    hide Pow2;
    MachineWidths();
    Pow2Monotone(l % 8, 8);
    BitShl(1, l % 8, l % 8);
    ZeroBits(l % 8);
  }

  lemma {:induction false} AllZero(b: seq<nat>, start: nat, w: nat)
    requires start + w <= 8 * |b| && forall k | 0 <= k < |b| :: b[k] == 0
    ensures Cell(b, start, w) == 0
    decreases w
  {
    if w > 0 {
      ZeroBits(start % 8);
      AllZero(b, start + 1, w - 1);
    }
  }

  lemma ReadOne(b: seq<nat>, l: nat, w: nat, v: nat)
    requires w > 0 && l + w <= 8 * |b| && l % 8 + w <= 8 && v == Extracted(b[l / 8], l % 8, w)
    ensures v == Cell(b, l, w)
  {
    hide Bit, Extracted, Cell, Pow2;
    forall t: nat | t < w ensures Bit(v, t) == BitAt(b, l + t) {
      BitExtracted(b[l / 8], l % 8, w, t);
    }
    BitExtracted(b[l / 8], l % 8, w, 0);
    CellIs(b, l, w, v);
  }

  lemma ReadTwo(b: seq<nat>, l: nat, w: nat, v: nat)
    requires 0 < w < 8 && l + w <= 8 * |b| && l % 8 + w > 8
    requires var left := 8 - l % 8;
             v == Or(Extracted(b[l / 8], l % 8, left), And(b[l / 8 + 1], Pow2(w - left) - 1) * Pow2(left))
    ensures v == Cell(b, l, w)
  {
    hide Bit, Extracted, Cell, Pow2, And, Or;
    var left := 8 - l % 8;
    var lo, hi := Extracted(b[l / 8], l % 8, left), And(b[l / 8 + 1], Pow2(w - left) - 1);
    forall t: nat | t < w ensures Bit(v, t) == BitAt(b, l + t) {
      BitOr(lo, hi * Pow2(left), t);
      BitExtracted(b[l / 8], l % 8, left, t);
      BitShl(hi, left, t);
      if t >= left {
        BitAnd(b[l / 8 + 1], Pow2(w - left) - 1, t - left);
        BitMask(w - left, t - left);
      }
    }
    JoinFits(b[l / 8], l % 8, left, b[l / 8 + 1], w);
    CellIs(b, l, w, v);
  }

  lemma JoinFits(x: nat, off: nat, left: nat, y: nat, w: nat)
    requires left <= w
    ensures Or(Extracted(x, off, left), And(y, Pow2(w - left) - 1) * Pow2(left)) < Pow2(w)
  {
    hide Extracted, And, Or, Pow2, Bit;
    BitExtracted(x, off, left, 0);
    MaskBelow(y, w - left);
    PartsFit(Extracted(x, off, left), And(y, Pow2(w - left) - 1), left, w);
  }

  lemma PartsFit(lo: nat, hi: nat, left: nat, w: nat)
    requires left <= w && lo < Pow2(left) && hi < Pow2(w - left)
    ensures Or(lo, hi * Pow2(left)) < Pow2(w)
  {
    hide Or, Pow2;
    Pow2Add(w - left, left);
    Pow2Monotone(left, w);
    Scaled(hi, Pow2(w - left), Pow2(left));
    Width(lo, hi * Pow2(left), w);
  }

  lemma MaskBelow(y: nat, n: nat)
    ensures And(y, Pow2(n) - 1) < Pow2(n)
  {
    hide And, Pow2;
    AndMask(y, n);
  }

  lemma Scaled(h: nat, p: nat, q: nat)
    requires h < p && q > 0
    ensures h * q < p * q
  {
    MulMonotone(h + 1, p, q);
  }

  /** All bits of the bytes after a write: the cell, what spills over in its last byte, and the rest. */
  ghost predicate Wrote(before: seq<nat>, after: seq<nat>, l: nat, w: nat, v: nat)
    requires w > 0
  {
    && |before| == |after|
    && forall n: nat | n < 8 * |after| ::
         BitAt(after, n) == if l <= n < l + w then Bit(v, n - l) else BitAt(before, n) || (Spills(l, w, n) && Bit(v, n - l))
  }

  predicate Spills(l: nat, w: nat, n: nat)
    requires w > 0
  {
    l + w <= n && n / 8 == (l + w - 1) / 8
  }

  lemma WroteOne(before: seq<nat>, after: seq<nat>, l: nat, w: nat, v: nat)
    requires w > 0 && l + w <= 8 * |before| && l % 8 + w <= 8
    requires after == before[l / 8 := Replaced(before[l / 8], l % 8, w, v)]
    ensures Wrote(before, after, l, w, v)
  {
    hide Bit, Replaced, Pow2;
    forall n: nat | n < 8 * |after|
      ensures BitAt(after, n) == if l <= n < l + w then Bit(v, n - l) else BitAt(before, n) || (Spills(l, w, n) && Bit(v, n - l))
    {
      BitReplaced(before[l / 8], l % 8, w, v, n % 8);
    }
  }

  lemma WroteTwo(before: seq<nat>, after: seq<nat>, l: nat, w: nat, v: nat)
    requires 0 < w < 8 && l + w <= 8 * |before| && l % 8 + w > 8
    requires var left := 8 - l % 8;
             after == before[l / 8 := Replaced(before[l / 8], l % 8, left, And(v, Pow2(left) - 1))]
                            [l / 8 + 1 := Replaced(before[l / 8 + 1], 0, w - left, Shr(v, left))]
    ensures Wrote(before, after, l, w, v)
  {
    hide Bit, Replaced, Pow2, And, Shr;
    var left := 8 - l % 8;
    forall n: nat | n < 8 * |after|
      ensures BitAt(after, n) == if l <= n < l + w then Bit(v, n - l) else BitAt(before, n) || (Spills(l, w, n) && Bit(v, n - l))
    {
      if n / 8 == l / 8 {
        BitReplaced(before[l / 8], l % 8, left, And(v, Pow2(left) - 1), n % 8);
        if n >= l {
          BitAnd(v, Pow2(left) - 1, n - l);
          BitMask(left, n - l);
        }
      } else if n / 8 == l / 8 + 1 {
        BitReplaced(before[l / 8 + 1], 0, w - left, Shr(v, left), n % 8);
        BitShr(v, left, n % 8);
      }
    }
  }

  lemma WrittenCell(before: seq<nat>, after: seq<nat>, l: nat, w: nat, v: nat)
    requires w > 0 && Wrote(before, after, l, w, v) && l + w <= 8 * |before|
    ensures Cell(after, l, w) == v % Pow2(w) < Pow2(w)
  {
    hide Bit, Cell, Pow2, BitAt;
    forall t: nat | t < w ensures Bit(v % Pow2(w), t) == BitAt(after, l + t) { BitMod(v, w, t); }
    CellIs(after, l, w, v % Pow2(w));
  }

  lemma OtherCell(before: seq<nat>, after: seq<nat>, i: nat, j: nat, w: nat, v: nat)
    requires w > 0 && Wrote(before, after, i * w, w, v) && v < Pow2(w) && i != j
    requires i * w + w <= 8 * |before| && j * w + w <= 8 * |before|
    ensures Cell(after, j * w, w) == Cell(before, j * w, w)
  {
    hide Bit, Cell, Pow2, BitAt;
    CellsApart(i, j, w);
    forall t: nat | t < w ensures Bit(Cell(before, j * w, w), t) == BitAt(after, j * w + t) {
      CellBits(before, j * w, w, t);
      if j * w + t >= i * w + w { HighBit(v, w, j * w + t - i * w); }
    }
    CellBits(before, j * w, w, 0);
    CellIs(after, j * w, w, Cell(before, j * w, w));
  }

  lemma CellsApart(i: nat, j: nat, w: nat)
    requires i != j
    ensures i * w + w <= j * w || j * w + w <= i * w
  {
    if i < j { MulMonotone(i + 1, j, w); } else { MulMonotone(j + 1, i, w); }
  }
}
