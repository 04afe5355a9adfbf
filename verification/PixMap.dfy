/**
 The pixel-format converters and the image loader of
 lab5/Lab5_template_de1soc/software/lab5/graphic_lib/gimp_bmp.c.
 A pointer of the C code is an offset into the source or destination array.
 */
module PixMap {
  import opened Arith
  import opened Memory

  datatype Converter = C32To32 | C32To24 | C32To16 | C24To32 | C24To24 | C24To16 {
    function SrcBytes(): int {
      if C32To32? || C32To24? || C32To16? then 4 else 3
    }

    function DestBytes(): int {
      if C32To32? || C24To32? then 4 else if C32To24? || C24To24? then 3 else 2
    }
  }

  // ----- one pixel -----

  /** The 5-6-5 packing as copy_pix_map_32_to_16 computes it, on a whole word. */
  function PackWord(p: bv32): bv16
  {
    (((((p >> 3) & 0x1f) << 11) | (((p >> 10) & 0x3f) << 5) | (((p >> 19) & 0x1f) << 0)) & 0xffff) as bv16
  }

  /** The 5-6-5 packing as copy_pix_map_24_to_16 computes it, byte by byte. */
  function PackBytes(b0: bv8, b1: bv8, b2: bv8): bv16
  {
    (((b0 as bv16) & 0xf8) << 8) | (((b1 as bv16) & 0xfc) << 3) | (((b2 as bv16) & 0xf8) >> 3)
  }

  /** What 5-6-5 means: the top 5 bits of red, top 6 of green, top 5 of blue. */
  function Rgb565(red: bv8, green: bv8, blue: bv8): bv16
  {
    (((red >> 3) as bv16) << 11) | (((green >> 2) as bv16) << 5) | ((blue >> 3) as bv16)
  }

  /** The three fields of a 5-6-5 colour. */
  lemma Rgb565Fields(red: bv8, green: bv8, blue: bv8)
    ensures Rgb565(red, green, blue) >> 11 == (red >> 3) as bv16
    ensures (Rgb565(red, green, blue) >> 5) & 0x3f == (green >> 2) as bv16
    ensures Rgb565(red, green, blue) & 0x1f == (blue >> 3) as bv16
  {
  }

  lemma PackingsAgree(r: bv8, g: bv8, b: bv8, x: bv8)
    ensures PackWord(Word(r, g, b, x)) == Rgb565(r, g, b) == PackBytes(r, g, b)
  {
  }

  /** The stores one step of the inner loop makes, in the order the code makes them. */
  function PixelStores(cv: Converter, src: seq<bv8>, s: int, d: int): seq<Store>
  {
    match cv
    case C32To32 => WordStores(d, WordAt(src, s))
    case C32To24 => [Store(d, At(src, s)), Store(d + 1, At(src, s + 1)), Store(d + 2, At(src, s + 2))]
    case C32To16 => HalfStores(d, PackWord(WordAt(src, s)))
    case C24To32 => [Store(d + 2, At(src, s)), Store(d + 1, At(src, s + 1)), Store(d, At(src, s + 2)), Store(d + 3, 0xff)]
    case C24To24 => [Store(d, At(src, s)), Store(d + 1, At(src, s + 1)), Store(d + 2, At(src, s + 2))]
    case C24To16 => HalfStores(d, PackBytes(At(src, s), At(src, s + 1), At(src, s + 2)))
  }

  /** Byte k of the converted pixel whose source bytes start at s: a same-size copy
      keeps the byte order, 24 to 32 reverses the channels and adds 0xff, and the
      16-bit formats are the two bytes of the 5-6-5 colour. */
  function PixelByte(cv: Converter, src: seq<bv8>, s: int, k: int): bv8
  {
    match cv
    case C24To32 => if k == 3 then 0xff else At(src, s + 2 - k)
    case C32To16 => HalfByte(Rgb565(At(src, s), At(src, s + 1), At(src, s + 2)), k)
    case C24To16 => HalfByte(Rgb565(At(src, s), At(src, s + 1), At(src, s + 2)), k)
    case _ => At(src, s + k)
  }

  /** A pixel step stores each byte of its destination pixel exactly once, with the
      value PixelByte gives, and stores nowhere else. */
  lemma PixelStoresAt(cv: Converter, src: seq<bv8>, s: int, d: int, a: int)
    ensures Hits(PixelStores(cv, src, s, d), a) == if d <= a < d + cv.DestBytes() then 1 else 0
    ensures Last(PixelStores(cv, src, s, d), a) ==
            if d <= a < d + cv.DestBytes() then Some(PixelByte(cv, src, s, a - d)) else None
  {
    hide *;
    match cv {
      case C32To32 => FourByteStores(cv, src, s, d, a);
      case C24To32 => FourByteStores(cv, src, s, d, a);
      case C32To24 => ThreeByteStores(cv, src, s, d, a);
      case C24To24 => ThreeByteStores(cv, src, s, d, a);
      case C32To16 => TwoByteStores(cv, src, s, d, a);
      case C24To16 => TwoByteStores(cv, src, s, d, a);
    }
  }

  lemma FourByteStores(cv: Converter, src: seq<bv8>, s: int, d: int, a: int)
    requires cv.C32To32? || cv.C24To32?
    ensures Hits(PixelStores(cv, src, s, d), a) == if d <= a < d + cv.DestBytes() then 1 else 0
    ensures Last(PixelStores(cv, src, s, d), a) ==
            if d <= a < d + cv.DestBytes() then Some(PixelByte(cv, src, s, a - d)) else None
  {
    hide Word, ByteOf, At, Last, Hits;
    WordBytes(0, At(src, s), At(src, s + 1), At(src, s + 2), At(src, s + 3));
    var log := PixelStores(cv, src, s, d);
    LastOfFour(log[0], log[1], log[2], log[3], a);
  }

  lemma ThreeByteStores(cv: Converter, src: seq<bv8>, s: int, d: int, a: int)
    requires cv.C32To24? || cv.C24To24?
    ensures Hits(PixelStores(cv, src, s, d), a) == if d <= a < d + cv.DestBytes() then 1 else 0
    ensures Last(PixelStores(cv, src, s, d), a) ==
            if d <= a < d + cv.DestBytes() then Some(PixelByte(cv, src, s, a - d)) else None
  {
    hide At, Last, Hits;
    var log := PixelStores(cv, src, s, d);
    LastOfThree(log[0], log[1], log[2], a);
  }

  lemma TwoByteStores(cv: Converter, src: seq<bv8>, s: int, d: int, a: int)
    requires cv.C32To16? || cv.C24To16?
    ensures Hits(PixelStores(cv, src, s, d), a) == if d <= a < d + cv.DestBytes() then 1 else 0
    ensures Last(PixelStores(cv, src, s, d), a) ==
            if d <= a < d + cv.DestBytes() then Some(PixelByte(cv, src, s, a - d)) else None
  {
    hide PackWord, PackBytes, Rgb565, Word, HalfByte, At, Last, Hits;
    PackingsAgree(At(src, s), At(src, s + 1), At(src, s + 2), if cv.C32To16? then At(src, s + 3) else 0);
    var log := PixelStores(cv, src, s, d);
    LastOfTwo(log[0], log[1], a);
  }

  // ----- a whole pixel map -----

  /** Offset of pixel (r, c) in a map whose lines hold `line` pixels of `bytes` bytes. */
  function PixelAt(bytes: int, line: int, r: int, c: int): int
  {
    r * (bytes * line) + c * bytes
  }

  function Emit(cv: Converter, src: seq<bv8>, sline: int, dline: int): (int, int) -> seq<Store>
  {
    (r: int, c: int) => PixelStores(cv, src, PixelAt(cv.SrcBytes(), sline, r, c), PixelAt(cv.DestBytes(), dline, r, c))
  }

  /** The destination after converting the w by h active pixels. */
  function Converted(cv: Converter, dest: seq<bv8>, src: seq<bv8>, w: int, h: int, sline: int, dline: int): (r: seq<bv8>)
    ensures |r| == |dest|
  {
    Apply(dest, Grid(Emit(cv, src, sline, dline), h, w))
  }

  /** The last active pixel of a w by h map ends inside a buffer of n bytes. */
  ghost predicate Fits(n: int, bytes: int, line: int, w: int, h: int)
  {
    0 < w && 0 < h ==> 0 <= line && PixelAt(bytes, line, h - 1, w) <= n
  }

  lemma FitsPixel(n: int, bytes: int, line: int, w: int, h: int, r: int, c: int)
    requires Fits(n, bytes, line, w, h) && 0 < bytes
    requires 0 <= r < h && 0 <= c < w
    ensures 0 <= PixelAt(bytes, line, r, c) && PixelAt(bytes, line, r, c) + bytes <= n
  {
    MulMono(0, bytes, line);
    MulMono(0, r, bytes * line);
    MulMono(r, h - 1, bytes * line);
    MulMono(0, c, bytes);
    MulMono(c + 1, w, bytes);
  }

  /** Pixels of different rows or columns share no byte when the line is wide enough. */
  lemma PixelsApart(bytes: int, line: int, r: int, c: int, r': int, c': int, a: int)
    requires 0 < bytes && 0 <= c < line && 0 <= c' < line
    requires PixelAt(bytes, line, r, c) <= a < PixelAt(bytes, line, r, c) + bytes
    requires PixelAt(bytes, line, r', c') <= a < PixelAt(bytes, line, r', c') + bytes
    ensures r == r' && c == c'
  {
    var p, p' := r * line + c, r' * line + c';
    PixelAtNumber(bytes, line, r, c);
    PixelAtNumber(bytes, line, r', c');
    if p < p' {
      MulMono(p + 1, p', bytes);
    } else if p' < p {
      MulMono(p' + 1, p, bytes);
    }
    CellUnique(r, c, r', c', line);
  }

  lemma PixelAtNext(bytes: int, line: int, r: int, c: int)
    ensures PixelAt(bytes, line, 0, 0) == 0
    ensures PixelAt(bytes, line, r, c + 1) == PixelAt(bytes, line, r, c) + bytes
    ensures PixelAt(bytes, line, r + 1, 0) == PixelAt(bytes, line, r, 0) + bytes * line
  {
    assert (r + 1) * (bytes * line) == r * (bytes * line) + bytes * line;
  }

  lemma PixelAtNumber(bytes: int, line: int, r: int, c: int)
    ensures PixelAt(bytes, line, r, c) == (r * line + c) * bytes
  {
    assert r * (bytes * line) == (r * line) * bytes;
  }

  /** Every active destination pixel is written exactly once, with the conversion of
      the source pixel of the same row and column. */
  lemma ConvertedAt(cv: Converter, dest: seq<bv8>, src: seq<bv8>, w: int, h: int, sline: int, dline: int, r: int, c: int, k: int)
    requires Fits(|dest|, cv.DestBytes(), dline, w, h) && w <= dline
    requires 0 <= r < h && 0 <= c < w && 0 <= k < cv.DestBytes()
    ensures At(Converted(cv, dest, src, w, h, sline, dline), PixelAt(cv.DestBytes(), dline, r, c) + k)
         == PixelByte(cv, src, PixelAt(cv.SrcBytes(), sline, r, c), k)
    ensures Hits(Grid(Emit(cv, src, sline, dline), h, w), PixelAt(cv.DestBytes(), dline, r, c) + k) == 1
  {
    var e, d := Emit(cv, src, sline, dline), cv.DestBytes();
    var a := PixelAt(d, dline, r, c) + k;
    forall r', c' | 0 <= r' < h && 0 <= c' < w && (r' != r || c' != c)
      ensures Hits(e(r', c'), a) == 0
    {
      PixelStoresAt(cv, src, PixelAt(cv.SrcBytes(), sline, r', c'), PixelAt(d, dline, r', c'), a);
      if PixelAt(d, dline, r', c') <= a < PixelAt(d, dline, r', c') + d {
        PixelsApart(d, dline, r, c, r', c', a);
      }
    }
    assert OnlyCell(e, h, w, r, c, a);
    GridHit(e, h, w, r, c, a);
    PixelStoresAt(cv, src, PixelAt(cv.SrcBytes(), sline, r, c), PixelAt(d, dline, r, c), a);
    FitsPixel(|dest|, d, dline, w, h, r, c);
    ApplyAt(dest, Grid(e, h, w), a);
  }

  ghost predicate InLine(a: int, bytes: int, line: int, w: int, r: int)
  {
    PixelAt(bytes, line, r, 0) <= a < PixelAt(bytes, line, r, w)
  }

  /** A byte in no active line segment, such as the padding at the end of a line,
      is never stored to. */
  lemma ConvertedElsewhere(cv: Converter, dest: seq<bv8>, src: seq<bv8>, w: int, h: int, sline: int, dline: int, a: int)
    requires 0 <= a < |dest|
    requires forall r :: 0 <= r < h ==> !InLine(a, cv.DestBytes(), dline, w, r)
    ensures Converted(cv, dest, src, w, h, sline, dline)[a] == dest[a]
    ensures Hits(Grid(Emit(cv, src, sline, dline), h, w), a) == 0
  {
    var e, d := Emit(cv, src, sline, dline), cv.DestBytes();
    forall r, c | 0 <= r < h && 0 <= c < w
      ensures Hits(e(r, c), a) == 0
    {
      PixelStoresAt(cv, src, PixelAt(cv.SrcBytes(), sline, r, c), PixelAt(d, dline, r, c), a);
      assert !InLine(a, d, dline, w, r);
      MulMono(0, c, d);
      MulMono(c + 1, w, d);
    }
    GridMiss(e, h, w, a);
    ApplyAt(dest, Grid(e, h, w), a);
  }

  // ----- the six converters -----

  method CopyPixMap32To32(src: array<bv8>, w: int, h: int, sline: int, dest: array<bv8>, dline: int)
    requires src != dest
    requires Fits(src.Length, 4, sline, w, h) && Fits(dest.Length, 4, dline, w, h)
    modifies dest
    ensures dest[..] == Converted(C32To32, old(dest[..]), src[..], w, h, sline, dline)
  {
    hide Apply, Grid, Row, Done, PixelAt, Fits;
    ghost var was, e := dest[..], Emit(C32To32, src[..], sline, dline);
    var srcIncrement := sline + sline + sline + sline;
    var destIncrement := dline + dline + dline + dline;
    var srcPtr, destPtr := 0, 0;
    DoneStart(was, e, w);
    PixelAtNext(4, sline, 0, 0);
    PixelAtNext(4, dline, 0, 0);
    var row := 0;
    while row < h
      invariant 0 <= row && (row <= h || row == 0)
      invariant srcPtr == PixelAt(4, sline, row, 0) && destPtr == PixelAt(4, dline, row, 0)
      invariant dest[..] == Apply(was, Done(e, w, row, 0))
    {
      var srcLine, destLine := srcPtr, destPtr;
      var col := 0;
      while col < w
        invariant 0 <= col && (col <= w || col == 0)
        invariant srcLine == PixelAt(4, sline, row, col) && destLine == PixelAt(4, dline, row, col)
        invariant dest[..] == Apply(was, Done(e, w, row, col))
      {
        FitsPixel(src.Length, 4, sline, w, h, row, col);
        FitsPixel(dest.Length, 4, dline, w, h, row, col);
        PixelAtNext(4, sline, row, col);
        PixelAtNext(4, dline, row, col);
        ghost var s, d, before := srcLine, destLine, dest[..];
        var pixel := LoadWord(src, srcLine);
        StoreWord(dest, destLine, pixel);
        srcLine := srcLine + 4;
        destLine := destLine + 4;
        DoneCell(was, e, w, row, col);
        col := col + 1;
      }
      DoneRow(e, w, row, col);
      PixelAtNext(4, sline, row, 0);
      PixelAtNext(4, dline, row, 0);
      srcPtr := srcPtr + srcIncrement;
      destPtr := destPtr + destIncrement;
      row := row + 1;
    }
    DoneAll(e, w, row, h);
  }

  method CopyPixMap32To24(src: array<bv8>, w: int, h: int, sline: int, dest: array<bv8>, dline: int)
    requires src != dest
    requires Fits(src.Length, 4, sline, w, h) && Fits(dest.Length, 3, dline, w, h)
    modifies dest
    ensures dest[..] == Converted(C32To24, old(dest[..]), src[..], w, h, sline, dline)
  {
    hide Apply, Grid, Row, Done, PixelAt, Fits;
    ghost var was, e := dest[..], Emit(C32To24, src[..], sline, dline);
    var srcIncrement := sline + sline + sline + sline;
    var destIncrement := dline + dline + dline;
    var srcPtr, destPtr := 0, 0;
    DoneStart(was, e, w);
    PixelAtNext(4, sline, 0, 0);
    PixelAtNext(3, dline, 0, 0);
    var row := 0;
    while row < h
      invariant 0 <= row && (row <= h || row == 0)
      invariant srcPtr == PixelAt(4, sline, row, 0) && destPtr == PixelAt(3, dline, row, 0)
      invariant dest[..] == Apply(was, Done(e, w, row, 0))
    {
      var srcLine, destLine := srcPtr, destPtr;
      var col := 0;
      while col < w
        invariant 0 <= col && (col <= w || col == 0)
        invariant srcLine == PixelAt(4, sline, row, col) && destLine == PixelAt(3, dline, row, col)
        invariant dest[..] == Apply(was, Done(e, w, row, col))
      {
        FitsPixel(src.Length, 4, sline, w, h, row, col);
        FitsPixel(dest.Length, 3, dline, w, h, row, col);
        PixelAtNext(4, sline, row, col);
        PixelAtNext(3, dline, row, col);
        ghost var s, d, before := srcLine, destLine, dest[..];
        dest[destLine] := src[srcLine];
        srcLine := srcLine + 1;
        destLine := destLine + 1;
        dest[destLine] := src[srcLine];
        srcLine := srcLine + 1;
        destLine := destLine + 1;
        dest[destLine] := src[srcLine];
        srcLine := srcLine + 2;
        destLine := destLine + 1;
        ghost var px := PixelStores(C32To24, src[..], s, d);
        ApplyThreeStores(before, px[0], px[1], px[2]);
        DoneCell(was, e, w, row, col);
        col := col + 1;
      }
      DoneRow(e, w, row, col);
      PixelAtNext(4, sline, row, 0);
      PixelAtNext(3, dline, row, 0);
      srcPtr := srcPtr + srcIncrement;
      destPtr := destPtr + destIncrement;
      row := row + 1;
    }
    DoneAll(e, w, row, h);
  }

  method CopyPixMap32To16(src: array<bv8>, w: int, h: int, sline: int, dest: array<bv8>, dline: int)
    requires src != dest
    requires Fits(src.Length, 4, sline, w, h) && Fits(dest.Length, 2, dline, w, h)
    modifies dest
    ensures dest[..] == Converted(C32To16, old(dest[..]), src[..], w, h, sline, dline)
  {
    hide Apply, Grid, Row, Done, PixelAt, Fits;
    ghost var was, e := dest[..], Emit(C32To16, src[..], sline, dline);
    var srcIncrement := sline + sline + sline + sline;
    var destIncrement := dline + dline;
    var srcPtr, destPtr := 0, 0;
    DoneStart(was, e, w);
    PixelAtNext(4, sline, 0, 0);
    PixelAtNext(2, dline, 0, 0);
    var row := 0;
    while row < h
      invariant 0 <= row && (row <= h || row == 0)
      invariant srcPtr == PixelAt(4, sline, row, 0) && destPtr == PixelAt(2, dline, row, 0)
      invariant dest[..] == Apply(was, Done(e, w, row, 0))
    {
      var srcLine, destLine := srcPtr, destPtr;
      var col := 0;
      while col < w
        invariant 0 <= col && (col <= w || col == 0)
        invariant srcLine == PixelAt(4, sline, row, col) && destLine == PixelAt(2, dline, row, col)
        invariant dest[..] == Apply(was, Done(e, w, row, col))
      {
        FitsPixel(src.Length, 4, sline, w, h, row, col);
        FitsPixel(dest.Length, 2, dline, w, h, row, col);
        PixelAtNext(4, sline, row, col);
        PixelAtNext(2, dline, row, col);
        ghost var s, d, before := srcLine, destLine, dest[..];
        var nextLongPixel := LoadWord(src, srcLine);
        srcLine := srcLine + 4;
        var nextShortPixel := (((((nextLongPixel >> 3) & 0x1f) << 11) |
                                (((nextLongPixel >> 10) & 0x3f) << 5) |
                                (((nextLongPixel >> 19) & 0x1f) << 0)) & 0xffff) as bv16;
        StoreHalf(dest, destLine, nextShortPixel);
        destLine := destLine + 2;
        DoneCell(was, e, w, row, col);
        col := col + 1;
      }
      DoneRow(e, w, row, col);
      PixelAtNext(4, sline, row, 0);
      PixelAtNext(2, dline, row, 0);
      srcPtr := srcPtr + srcIncrement;
      destPtr := destPtr + destIncrement;
      row := row + 1;
    }
    DoneAll(e, w, row, h);
  }

  method CopyPixMap24To32(src: array<bv8>, w: int, h: int, sline: int, dest: array<bv8>, dline: int)
    requires src != dest
    requires Fits(src.Length, 3, sline, w, h) && Fits(dest.Length, 4, dline, w, h)
    modifies dest
    ensures dest[..] == Converted(C24To32, old(dest[..]), src[..], w, h, sline, dline)
  {
    hide Apply, Grid, Row, Done, PixelAt, Fits;
    ghost var was, e := dest[..], Emit(C24To32, src[..], sline, dline);
    var srcIncrement := sline + sline + sline;
    var destIncrement := dline + dline + dline + dline;
    var srcPtr, destPtr := 0, 0;
    DoneStart(was, e, w);
    PixelAtNext(3, sline, 0, 0);
    PixelAtNext(4, dline, 0, 0);
    var row := 0;
    while row < h
      invariant 0 <= row && (row <= h || row == 0)
      invariant srcPtr == PixelAt(3, sline, row, 0) && destPtr == PixelAt(4, dline, row, 0)
      invariant dest[..] == Apply(was, Done(e, w, row, 0))
    {
      var srcLine, destLine := srcPtr, destPtr;
      var col := 0;
      while col < w
        invariant 0 <= col && (col <= w || col == 0)
        invariant srcLine == PixelAt(3, sline, row, col) && destLine == PixelAt(4, dline, row, col)
        invariant dest[..] == Apply(was, Done(e, w, row, col))
      {
        FitsPixel(src.Length, 3, sline, w, h, row, col);
        FitsPixel(dest.Length, 4, dline, w, h, row, col);
        PixelAtNext(3, sline, row, col);
        PixelAtNext(4, dline, row, col);
        ghost var s, d, before := srcLine, destLine, dest[..];
        dest[destLine + 2] := src[srcLine];
        srcLine := srcLine + 1;
        destLine := destLine + 1;
        dest[destLine] := src[srcLine];
        srcLine := srcLine + 1;
        destLine := destLine + 1;
        dest[destLine - 2] := src[srcLine];
        srcLine := srcLine + 1;
        destLine := destLine + 1;
        dest[destLine] := 0xff;
        destLine := destLine + 1;
        ghost var px := PixelStores(C24To32, src[..], s, d);
        ApplyFourStores(before, px[0], px[1], px[2], px[3]);
        DoneCell(was, e, w, row, col);
        col := col + 1;
      }
      DoneRow(e, w, row, col);
      PixelAtNext(3, sline, row, 0);
      PixelAtNext(4, dline, row, 0);
      srcPtr := srcPtr + srcIncrement;
      destPtr := destPtr + destIncrement;
      row := row + 1;
    }
    DoneAll(e, w, row, h);
  }

  method CopyPixMap24To24(src: array<bv8>, w: int, h: int, sline: int, dest: array<bv8>, dline: int)
    requires src != dest
    requires Fits(src.Length, 3, sline, w, h) && Fits(dest.Length, 3, dline, w, h)
    modifies dest
    ensures dest[..] == Converted(C24To24, old(dest[..]), src[..], w, h, sline, dline)
  {
    hide Apply, Grid, Row, Done, PixelAt, Fits;
    ghost var was, e := dest[..], Emit(C24To24, src[..], sline, dline);
    var srcIncrement := sline + sline + sline;
    var destIncrement := dline + dline + dline;
    var srcPtr, destPtr := 0, 0;
    DoneStart(was, e, w);
    PixelAtNext(3, sline, 0, 0);
    PixelAtNext(3, dline, 0, 0);
    var row := 0;
    while row < h
      invariant 0 <= row && (row <= h || row == 0)
      invariant srcPtr == PixelAt(3, sline, row, 0) && destPtr == PixelAt(3, dline, row, 0)
      invariant dest[..] == Apply(was, Done(e, w, row, 0))
    {
      var srcLine, destLine := srcPtr, destPtr;
      var col := 0;
      while col < w
        invariant 0 <= col && (col <= w || col == 0)
        invariant srcLine == PixelAt(3, sline, row, col) && destLine == PixelAt(3, dline, row, col)
        invariant dest[..] == Apply(was, Done(e, w, row, col))
      {
        FitsPixel(src.Length, 3, sline, w, h, row, col);
        FitsPixel(dest.Length, 3, dline, w, h, row, col);
        PixelAtNext(3, sline, row, col);
        PixelAtNext(3, dline, row, col);
        ghost var s, d, before := srcLine, destLine, dest[..];
        dest[destLine] := src[srcLine];
        srcLine := srcLine + 1;
        destLine := destLine + 1;
        dest[destLine] := src[srcLine];
        srcLine := srcLine + 1;
        destLine := destLine + 1;
        dest[destLine] := src[srcLine];
        srcLine := srcLine + 1;
        destLine := destLine + 1;
        ghost var px := PixelStores(C24To24, src[..], s, d);
        ApplyThreeStores(before, px[0], px[1], px[2]);
        DoneCell(was, e, w, row, col);
        col := col + 1;
      }
      DoneRow(e, w, row, col);
      PixelAtNext(3, sline, row, 0);
      PixelAtNext(3, dline, row, 0);
      srcPtr := srcPtr + srcIncrement;
      destPtr := destPtr + destIncrement;
      row := row + 1;
    }
    DoneAll(e, w, row, h);
  }

  method CopyPixMap24To16(src: array<bv8>, w: int, h: int, sline: int, dest: array<bv8>, dline: int)
    requires src != dest
    requires Fits(src.Length, 3, sline, w, h) && Fits(dest.Length, 2, dline, w, h)
    modifies dest
    ensures dest[..] == Converted(C24To16, old(dest[..]), src[..], w, h, sline, dline)
  {
    hide Apply, Grid, Row, Done, PixelAt, Fits;
    ghost var was, e := dest[..], Emit(C24To16, src[..], sline, dline);
    var srcIncrement := sline + sline + sline;
    var destIncrement := dline + dline;
    var srcPtr, destPtr := 0, 0;
    DoneStart(was, e, w);
    PixelAtNext(3, sline, 0, 0);
    PixelAtNext(2, dline, 0, 0);
    var row := 0;
    while row < h
      invariant 0 <= row && (row <= h || row == 0)
      invariant srcPtr == PixelAt(3, sline, row, 0) && destPtr == PixelAt(2, dline, row, 0)
      invariant dest[..] == Apply(was, Done(e, w, row, 0))
    {
      var srcLine, destLine := srcPtr, destPtr;
      var col := 0;
      while col < w
        invariant 0 <= col && (col <= w || col == 0)
        invariant srcLine == PixelAt(3, sline, row, col) && destLine == PixelAt(2, dline, row, col)
        invariant dest[..] == Apply(was, Done(e, w, row, col))
      {
        FitsPixel(src.Length, 3, sline, w, h, row, col);
        FitsPixel(dest.Length, 2, dline, w, h, row, col);
        PixelAtNext(3, sline, row, col);
        PixelAtNext(2, dline, row, col);
        ghost var s, d, before := srcLine, destLine, dest[..];
        var nextShortPixel: bv16 := ((src[srcLine] as bv16) & 0xf8) << 8;
        srcLine := srcLine + 1;
        nextShortPixel := nextShortPixel | (((src[srcLine] as bv16) & 0xfc) << 3);
        srcLine := srcLine + 1;
        nextShortPixel := nextShortPixel | (((src[srcLine] as bv16) & 0xf8) >> 3);
        srcLine := srcLine + 1;
        StoreHalf(dest, destLine, nextShortPixel);
        destLine := destLine + 2;
        DoneCell(was, e, w, row, col);
        col := col + 1;
      }
      DoneRow(e, w, row, col);
      PixelAtNext(3, sline, row, 0);
      PixelAtNext(2, dline, row, 0);
      srcPtr := srcPtr + srcIncrement;
      destPtr := destPtr + destIncrement;
      row := row + 1;
    }
    DoneAll(e, w, row, h);
  }

  // ----- laws between the converters -----

  /** Packing a 32-bit map to 16 bits gives, for every destination and all line
      widths, the same memory as dropping to 24 bits through any intermediate
      buffer and packing that. */
  lemma PackingCommutes(src: seq<bv8>, mid: seq<bv8>, dest: seq<bv8>, w: int, h: int, sline: int, mline: int, dline: int)
    requires Fits(|mid|, 3, mline, w, h) && w <= mline
    ensures Converted(C24To16, dest, Converted(C32To24, mid, src, w, h, sline, mline), w, h, mline, dline)
         == Converted(C32To16, dest, src, w, h, sline, dline)
  {
    var mid' := Converted(C32To24, mid, src, w, h, sline, mline);
    var e, f := Emit(C24To16, mid', mline, dline), Emit(C32To16, src, sline, dline);
    forall r, c | 0 <= r < h && 0 <= c < w
      ensures e(r, c) == f(r, c)
    {
      hide Converted, PixelAt, PixelStores, PixelByte;
      ThreeBytesKept(src, mid, w, h, sline, mline, r, c);
      SamePacking(mid', PixelAt(3, mline, r, c), src, PixelAt(4, sline, r, c), PixelAt(2, dline, r, c));
    }
    GridSame(e, f, h, w);
  }

  lemma ThreeBytesKept(src: seq<bv8>, mid: seq<bv8>, w: int, h: int, sline: int, mline: int, r: int, c: int)
    requires Fits(|mid|, 3, mline, w, h) && w <= mline
    requires 0 <= r < h && 0 <= c < w
    ensures var mid', t, s := Converted(C32To24, mid, src, w, h, sline, mline), PixelAt(3, mline, r, c), PixelAt(4, sline, r, c);
            At(mid', t) == At(src, s) && At(mid', t + 1) == At(src, s + 1) && At(mid', t + 2) == At(src, s + 2)
  {
    hide Converted, PixelAt;
    ConvertedAt(C32To24, mid, src, w, h, sline, mline, r, c, 0);
    ConvertedAt(C32To24, mid, src, w, h, sline, mline, r, c, 1);
    ConvertedAt(C32To24, mid, src, w, h, sline, mline, r, c, 2);
  }

  lemma SamePacking(m: seq<bv8>, t: int, src: seq<bv8>, s: int, d: int)
    requires At(m, t) == At(src, s) && At(m, t + 1) == At(src, s + 1) && At(m, t + 2) == At(src, s + 2)
    ensures PixelStores(C24To16, m, t, d) == PixelStores(C32To16, src, s, d)
  {
    hide PackWord, PackBytes, Rgb565, Word;
    PackingsAgree(At(src, s), At(src, s + 1), At(src, s + 2), At(src, s + 3));
  }

  /** 24 bits to 32 through `mid` and back to 24 in `out`. */
  function RoundTrip(src: seq<bv8>, mid: seq<bv8>, out: seq<bv8>, w: int, h: int, sline: int, mline: int, oline: int): seq<bv8>
  {
    Converted(C32To24, out, Converted(C24To32, mid, src, w, h, sline, mline), w, h, mline, oline)
  }

  ghost predicate RoundTripFits(mid: seq<bv8>, out: seq<bv8>, w: int, h: int, mline: int, oline: int)
  {
    Fits(|mid|, 4, mline, w, h) && w <= mline && Fits(|out|, 3, oline, w, h) && w <= oline
  }

  /** The round trip reverses the three channel bytes of every pixel: the first
      conversion swaps red and blue and the second does not swap them back. */
  lemma RoundTripReverses(src: seq<bv8>, mid: seq<bv8>, out: seq<bv8>, w: int, h: int, sline: int, mline: int, oline: int,
                          r: int, c: int, k: int)
    requires RoundTripFits(mid, out, w, h, mline, oline)
    requires 0 <= r < h && 0 <= c < w && 0 <= k < 3
    ensures At(RoundTrip(src, mid, out, w, h, sline, mline, oline), PixelAt(3, oline, r, c) + k)
         == At(src, PixelAt(3, sline, r, c) + 2 - k)
  {
    hide Converted, PixelAt, Fits, At, PixelByte, Hits, Grid, Emit;
    var mid' := Converted(C24To32, mid, src, w, h, sline, mline);
    var s, t := PixelAt(3, sline, r, c), PixelAt(4, mline, r, c);
    ConvertedAt(C24To32, mid, src, w, h, sline, mline, r, c, k);
    ConvertedAt(C32To24, out, mid', w, h, mline, oline, r, c, k);
    ChannelBytes(src, s, k);
    ChannelBytes(mid', t, k);
  }

  lemma ChannelBytes(src: seq<bv8>, s: int, k: int)
    requires k < 3
    ensures PixelByte(C24To32, src, s, k) == At(src, s + 2 - k)
    ensures PixelByte(C32To24, src, s, k) == At(src, s + k)
  {
  }

  /** Two round trips, through any buffers of any line widths, restore every pixel. */
  lemma RoundTripTwice(src: seq<bv8>, mid: seq<bv8>, out: seq<bv8>, mid': seq<bv8>, out': seq<bv8>, w: int, h: int,
                       sline: int, mline: int, oline: int, mline': int, oline': int, r: int, c: int, k: int)
    requires RoundTripFits(mid, out, w, h, mline, oline) && RoundTripFits(mid', out', w, h, mline', oline')
    requires 0 <= r < h && 0 <= c < w && 0 <= k < 3
    ensures At(RoundTrip(RoundTrip(src, mid, out, w, h, sline, mline, oline), mid', out', w, h, oline, mline', oline'),
               PixelAt(3, oline', r, c) + k)
         == At(src, PixelAt(3, sline, r, c) + k)
  {
    RoundTripReverses(src, mid, out, w, h, sline, mline, oline, r, c, 2 - k);
    RoundTripReverses(RoundTrip(src, mid, out, w, h, sline, mline, oline), mid', out', w, h, oline, mline', oline', r, c, k);
  }

  // ----- load_gimp_bmp -----

  /** n pixels converted one after the other, without lines: byte i belongs to pixel i / D. */
  function Convert(cv: Converter, src: seq<bv8>, n: nat): seq<bv8>
  {
    seq(n * cv.DestBytes(), i requires 0 <= i => PixelByte(cv, src, i / cv.DestBytes() * cv.SrcBytes(), i % cv.DestBytes()))
  }

  lemma ConvertByte(cv: Converter, src: seq<bv8>, n: nat, p: nat, k: nat)
    requires p < n && k < cv.DestBytes()
    ensures At(Convert(cv, src, n), p * cv.DestBytes() + k) == PixelByte(cv, src, p * cv.SrcBytes(), k)
  {
    var d := cv.DestBytes();
    MulMono(p + 1, n, d);
    DivMod(p, k, d);
  }

  /** With lines exactly as wide as the image, the line-walking loops are one map
      over the pixels in row order; bytes after the last pixel are left alone. */
  lemma TightIsConvert(cv: Converter, dest: seq<bv8>, src: seq<bv8>, w: nat, h: nat)
    requires w * h * cv.DestBytes() <= |dest|
    ensures Fits(|dest|, cv.DestBytes(), w, w, h)
    ensures Converted(cv, dest, src, w, h, w, w)[..w * h * cv.DestBytes()] == Convert(cv, src, w * h)
  {
    var d, n := cv.DestBytes(), w * h;
    if 0 < w && 0 < h {
      PixelAtNumber(d, w, h - 1, w);
      assert (h - 1) * w + w == n;
    }
    var result := Converted(cv, dest, src, w, h, w, w);
    forall i | 0 <= i < n * d
      ensures result[i] == Convert(cv, src, n)[i]
    {
      TightByte(cv, dest, src, w, h, i);
    }
  }

  lemma TightByte(cv: Converter, dest: seq<bv8>, src: seq<bv8>, w: nat, h: nat, i: nat)
    requires i < w * h * cv.DestBytes() <= |dest|
    requires Fits(|dest|, cv.DestBytes(), w, w, h)
    ensures Converted(cv, dest, src, w, h, w, w)[i] == PixelByte(cv, src, i / cv.DestBytes() * cv.SrcBytes(), i % cv.DestBytes())
  {
    hide Converted, PixelByte, PixelAt, Fits, Hits, Grid, Emit;
    var d, s := cv.DestBytes(), cv.SrcBytes();
    var p, k := i / d, i % d;
    assert i == p * d + k;
    var r, c := NumberToCell(w, h, d, i);
    PixelAtNumber(d, w, r, c);
    PixelAtNumber(s, w, r, c);
    ConvertedAt(cv, dest, src, w, h, w, w, r, c, k);
    assert PixelAt(d, w, r, c) + k == i;
    assert PixelAt(s, w, r, c) == p * s;
    assert At(Converted(cv, dest, src, w, h, w, w), i) == PixelByte(cv, src, p * s, k);
  }

  /** Byte i of w by h pixels of d bytes belongs to the pixel of some row and column. */
  lemma NumberToCell(w: nat, h: nat, d: nat, i: nat) returns (r: nat, c: nat)
    requires i < w * h * d && 0 < d
    ensures r < h && c < w && i / d == r * w + c
  {
    var p := i / d;
    QuotientBound(i, w * h, d);
    ProductPositive(w, h, p);
    r, c := p / w, p % w;
    QuotientBound(p, h, w);
    assert p == r * w + c;
  }

  lemma ProductPositive(w: nat, h: nat, p: nat)
    requires p < w * h
    ensures 0 < w && p < h * w
  {
  }

  /** The narrowing of an unsigned dimension to the bitmap's `short` field. */
  function ToShort(n: int): int
  {
    (n + 0x8000) % 0x1_0000 - 0x8000
  }

  lemma ToShortKeeps(n: int)
    requires 0 <= n
    ensures ToShort(n) <= n
    ensures ToShort(n) == n <==> n < 0x8000
    ensures -0x8000 <= ToShort(n) < 0x8000 && (n - ToShort(n)) % 0x1_0000 == 0
  {
  }

  class GimpImage {
    const width: nat
    const height: nat
    const bytesPerPixel: nat
    const pixelData: array<bv8>

    constructor (width: nat, height: nat, bytesPerPixel: nat, pixelData: array<bv8>)
      ensures this.width == width && this.height == height
      ensures this.bytesPerPixel == bytesPerPixel && this.pixelData == pixelData
    {
      this.width, this.height := width, height;
      this.bytesPerPixel, this.pixelData := bytesPerPixel, pixelData;
    }

    predicate Valid()
    {
      width * height * bytesPerPixel <= pixelData.Length
    }
  }

  class Bitmap {
    var biWidth: int
    var biHeight: int
    var biBitCount: int
    var data: array<bv8>

    constructor ()
    {
      data := new bv8[0];
    }
  }

  /** The converter load_gimp_bmp dispatches to, if any. */
  function Chosen(bytesPerPixel: int, bits: int): Option<Converter>
  {
    if bits == 16 && bytesPerPixel == 4 then Some(C32To16)
    else if bits == 16 && bytesPerPixel == 3 then Some(C24To16)
    else if bits == 24 && bytesPerPixel == 4 then Some(C32To24)
    else if bits == 24 && bytesPerPixel == 3 then Some(C24To24)
    else if bits == 32 && bytesPerPixel == 4 then Some(C32To32)
    else if bits == 32 && bytesPerPixel == 3 then Some(C24To32)
    else None
  }

  function Count(n: int): nat
  {
    if n < 0 then 0 else n
  }

  /** How many pixels a load converts: the product of the narrowed dimensions, where
      a negative one runs no loop at all. */
  function Loaded(width: int, height: int): nat
  {
    Times(Count(ToShort(width)), Count(ToShort(height)))
  }

  function Times(a: nat, b: nat): nat
  {
    a * b
  }

  lemma CountBound(w: nat, h: nat, bytes: nat)
    ensures Loaded(w, h) * bytes <= w * h * bytes
  {
    MulMono(Count(ToShort(w)), w, Count(ToShort(h)));
    MulMono(Count(ToShort(h)), h, w);
    MulMono(Loaded(w, h), w * h, bytes);
  }

  lemma LoadFits(cv: Converter, n: int, bytes: int, w: nat, h: nat)
    requires w * h * bytes <= n && 0 < bytes
    ensures Fits(n, bytes, ToShort(w), ToShort(w), ToShort(h))
  {
    var w', h' := ToShort(w), ToShort(h);
    if 0 < w' && 0 < h' {
      CountBound(w, h, bytes);
      PixelAtNumber(bytes, w', h' - 1, w');
      assert (h' - 1) * w' + w' == h' * w';
    }
  }

  method LoadGimpBmp(image: GimpImage, bmp: Bitmap, bits: nat) returns (retCode: int)
    requires image.Valid()
    requires image.width * image.height * (bits / 8) < 0x8000_0000
    modifies bmp
    ensures retCode == 0
    ensures bmp.biWidth == ToShort(image.width) && bmp.biHeight == ToShort(image.height) && bmp.biBitCount == ToShort(bits)
    ensures fresh(bmp.data) && bmp.data.Length == image.width * image.height * (bits / 8)
    ensures Chosen(image.bytesPerPixel, bits).Some? ==>
              var cv := Chosen(image.bytesPerPixel, bits).value;
              var n := Loaded(image.width, image.height);
              n * cv.DestBytes() <= bmp.data.Length &&
              bmp.data[..n * cv.DestBytes()] == Convert(cv, image.pixelData[..], n)
  {
    retCode := 0;
    var outputBytesPerPixel := bits / 8;
    var numPixels := image.width * image.height;
    bmp.biWidth := ToShort(image.width);
    bmp.biHeight := ToShort(image.height);
    bmp.biBitCount := ToShort(bits);
    bmp.data := new bv8[numPixels * outputBytesPerPixel];
    var w, h, src, dest := bmp.biWidth, bmp.biHeight, image.pixelData, bmp.data;
    ghost var was := dest[..];
    if Chosen(image.bytesPerPixel, bits).Some? {
      ghost var cv := Chosen(image.bytesPerPixel, bits).value;
      LoadFits(cv, src.Length, cv.SrcBytes(), image.width, image.height);
      LoadFits(cv, dest.Length, cv.DestBytes(), image.width, image.height);
      LoadedMeaning(cv, was, src[..], image.width, image.height);
    }
    if bits == 16 {
      if image.bytesPerPixel == 4 {
        CopyPixMap32To16(src, w, h, w, dest, w);
      }
      if image.bytesPerPixel == 3 {
        CopyPixMap24To16(src, w, h, w, dest, w);
      }
    }
    if bits == 24 {
      if image.bytesPerPixel == 4 {
        CopyPixMap32To24(src, w, h, w, dest, w);
      }
      if image.bytesPerPixel == 3 {
        CopyPixMap24To24(src, w, h, w, dest, w);
      }
    }
    if bits == 32 {
      if image.bytesPerPixel == 4 {
        CopyPixMap32To32(src, w, h, w, dest, w);
      }
      if image.bytesPerPixel == 3 {
        CopyPixMap24To32(src, w, h, w, dest, w);
      }
    }
  }

  /** A load narrows the dimensions first, then converts that many pixels. */
  lemma LoadedMeaning(cv: Converter, dest: seq<bv8>, src: seq<bv8>, width: nat, height: nat)
    requires width * height * cv.DestBytes() <= |dest|
    ensures Loaded(width, height) * cv.DestBytes() <= |dest|
    ensures var w, h, n := ToShort(width), ToShort(height), Loaded(width, height);
            Converted(cv, dest, src, w, h, w, w)[..n * cv.DestBytes()] == Convert(cv, src, n)
  {
    var w, h := ToShort(width), ToShort(height);
    CountBound(width, height, cv.DestBytes());
    if 0 < w && 0 < h {
      TightIsConvert(cv, dest, src, w, h);
    }
  }

  /** There is a converter exactly for RGB and RGBA images at 16, 24 and 32 bits. */
  lemma ChosenIff(bytesPerPixel: int, bits: int)
    ensures Chosen(bytesPerPixel, bits).Some?
       <==> (bytesPerPixel == 3 || bytesPerPixel == 4) && (bits == 16 || bits == 24 || bits == 32)
  {
  }

  /** What a load leaves in bitmap pixel p, told from the image's bytes per pixel alone:
      at 16 bits the 5-6-5 colour, at 24 bits the channels in order, at 32 bits the
      bytes of an RGBA image in order or the channels of an RGB image reversed. */
  lemma LoadedPixel(bytesPerPixel: int, bits: int, src: seq<bv8>, n: nat, p: nat, k: nat)
    requires bytesPerPixel == 3 || bytesPerPixel == 4
    requires bits == 16 || bits == 24 || bits == 32
    requires p < n && k < bits / 8
    ensures Chosen(bytesPerPixel, bits).Some?
    ensures var data, s := Convert(Chosen(bytesPerPixel, bits).value, src, n), p * bytesPerPixel;
            if bits == 16 then HalfAt(data, p * 2) == Rgb565(At(src, s), At(src, s + 1), At(src, s + 2))
            else if bits == 24 then At(data, p * 3 + k) == At(src, s + k)
            else if bytesPerPixel == 4 then At(data, p * 4 + k) == At(src, s + k)
            else At(data, p * 4 + k) == if k == 3 then 0xff else At(src, s + 2 - k)
  {
    hide Convert, At, Rgb565, HalfByte;
    var cv, s := Chosen(bytesPerPixel, bits).value, p * bytesPerPixel;
    if bits == 16 {
      ConvertByte(cv, src, n, p, 0);
      ConvertByte(cv, src, n, p, 1);
      HalfBytes(Rgb565(At(src, s), At(src, s + 1), At(src, s + 2)));
    } else {
      ConvertByte(cv, src, n, p, k);
    }
  }
}
