/**
 The blits of lab5/Lab5_template_de1soc/software/lab5/graphic_lib/draw_gimps.c, the
 routines that load an image and blit it into the frame on the screen, and what the
 two together put there.
 */
module DrawGimps {
  import opened Arith
  import opened Memory
  import opened PixMap
  import VipFr

  // ----- the stores of a blit -----

  /** Address of the word of one pixel of a frame whose lines hold `stride` words. */
  function FrameAddr(base: int, stride: int, row: int, col: int): int
  {
    base + 4 * (row * stride + col)
  }

  function Rgb(red: bv8, green: bv8, blue: bv8): bv32
  {
    (((red as bv32) << 16) | ((green as bv32) << 8) | (blue as bv32)) & 0xffffff
  }

  /** The colour of the bitmap pixel that starts at byte s: byte 2 is its red. */
  function Colour(src: seq<bv8>, s: int): bv32
  {
    Rgb(At(src, s + 2), At(src, s + 1), At(src, s))
  }

  /** The 24 colour bits of a word. */
  function Low24(w: bv32): bv32
  {
    w & 0xffffff
  }

  /** Where a blit goes and what it leaves out: the clip tests are inclusive, and
      `key`, if any, is the transparent colour. */
  datatype Placement = Placement(base: int, stride: int, x: int, y: int, wFit: int, hFit: int, key: Option<bv32>)

  predicate Draws(p: Placement, r: int, c: int, colour: bv32)
  {
    r <= p.hFit && c <= p.wFit && p.key != Some(colour)
  }

  /** Where the blit puts its pixel (r, c). */
  function Addr(p: Placement, r: int, c: int): int
  {
    FrameAddr(p.base, p.stride, r + p.y, c + p.x)
  }

  function CellStores(src: seq<bv8>, w: int, p: Placement, r: int, c: int): seq<Store>
  {
    var colour := Colour(src, PixelAt(4, w, r, c));
    if Draws(p, r, c, colour) then WordStores(Addr(p, r, c), colour) else []
  }

  function BlitEmit(src: seq<bv8>, w: int, p: Placement): (int, int) -> seq<Store>
  {
    (r: int, c: int) => CellStores(src, w, p, r, c)
  }

  function BlitLog(src: seq<bv8>, w: int, h: int, p: Placement): seq<Store>
  {
    Grid(BlitEmit(src, w, p), h, w)
  }

  /** The row copy stores whole bitmap words, unclipped, at the frame's origin. */
  function CopyEmit(src: seq<bv8>, w: int, base: int, stride: int): (int, int) -> seq<Store>
  {
    (r: int, c: int) => WordStores(FrameAddr(base, stride, r, c), WordAt(src, PixelAt(4, w, r, c)))
  }

  lemma WordStoresAt(a: int, w: bv32, q: int)
    ensures Hits(WordStores(a, w), q) == if a <= q < a + 4 then 1 else 0
    ensures Last(WordStores(a, w), q) == if a <= q < a + 4 then Some(ByteOf(w, q - a)) else None
  {
    hide ByteOf;
    var log := WordStores(a, w);
    LastOfFour(log[0], log[1], log[2], log[3], q);
  }

  // ----- what a blit leaves in the frame -----

  /** The window of a blit: the columns and rows that pass the clip tests. */
  function Window(n: int, fit: int): nat
  {
    if n <= 0 || fit < 0 then 0 else if n <= fit + 1 then n else fit + 1
  }

  /** The columns of the window lie inside one frame line. */
  ghost predicate InLines(p: Placement, w: int)
  {
    0 <= p.x && p.x + Window(w, p.wFit) <= p.stride
  }

  lemma CellAt(src: seq<bv8>, w: int, p: Placement, r: int, c: int, a: int)
    ensures var colour := Colour(src, PixelAt(4, w, r, c));
            var mine := Draws(p, r, c, colour) && Addr(p, r, c) <= a < Addr(p, r, c) + 4;
            && Hits(CellStores(src, w, p, r, c), a) == (if mine then 1 else 0)
            && Last(CellStores(src, w, p, r, c), a) == if mine then Some(ByteOf(colour, a - Addr(p, r, c))) else None
  {
    hide ByteOf, Colour, PixelAt;
    var colour := Colour(src, PixelAt(4, w, r, c));
    WordStoresAt(Addr(p, r, c), colour, a);
    NothingStored(a);
  }

  lemma WordsApart(p: Placement, w: int, r: int, c: int, r': int, c': int, a: int)
    requires InLines(p, w) && 0 <= c < Window(w, p.wFit) && 0 <= c' < Window(w, p.wFit)
    requires Addr(p, r, c) <= a < Addr(p, r, c) + 4 && Addr(p, r', c') <= a < Addr(p, r', c') + 4
    ensures r == r' && c == c'
  {
    CellUnique(r + p.y, c + p.x, r' + p.y, c' + p.x, p.stride);
  }

  /** One byte of the word of a pixel inside the window. */
  lemma BlitByte(mem: seq<bv8>, src: seq<bv8>, w: int, h: int, p: Placement, r: int, c: int, k: int)
    requires InLines(p, w)
    requires 0 <= r < Window(h, p.hFit) && 0 <= c < Window(w, p.wFit) && 0 <= k < 4
    requires 0 <= Addr(p, r, c) && Addr(p, r, c) + 4 <= |mem|
    ensures var colour := Colour(src, PixelAt(4, w, r, c));
            At(Apply(mem, BlitLog(src, w, h, p)), Addr(p, r, c) + k) ==
            if p.key == Some(colour) then At(mem, Addr(p, r, c) + k) else ByteOf(colour, k)
  {
    hide ByteOf, Colour, PixelAt, Addr, InLines, Window, Last, BlitLog, Apply;
    BlitLast(src, w, h, p, r, c, Addr(p, r, c) + k);
    ApplyAt(mem, BlitLog(src, w, h, p), Addr(p, r, c) + k);
  }

  lemma BlitLast(src: seq<bv8>, w: int, h: int, p: Placement, r: int, c: int, a: int)
    requires InLines(p, w)
    requires 0 <= r < Window(h, p.hFit) && 0 <= c < Window(w, p.wFit)
    requires Addr(p, r, c) <= a < Addr(p, r, c) + 4
    ensures var colour := Colour(src, PixelAt(4, w, r, c));
            Last(BlitLog(src, w, h, p), a) == if p.key == Some(colour) then None else Some(ByteOf(colour, a - Addr(p, r, c)))
  {
    hide ByteOf, Colour, PixelAt, Addr, InLines, Window, Hits, Last;
    WindowInside(h, p.hFit, r);
    WindowInside(w, p.wFit, c);
    OwnCellOnly(src, w, h, p, r, c, a);
    GridHit(BlitEmit(src, w, p), h, w, r, c, a);
    CellAt(src, w, p, r, c, a);
  }

  lemma WindowInside(n: int, fit: int, i: int)
    ensures 0 <= i < Window(n, fit) <==> 0 <= i < n && i <= fit
  {
  }

  lemma OwnCellOnly(src: seq<bv8>, w: int, h: int, p: Placement, r: int, c: int, a: int)
    requires InLines(p, w) && 0 <= c < Window(w, p.wFit)
    requires Addr(p, r, c) <= a < Addr(p, r, c) + 4
    ensures OnlyCell(BlitEmit(src, w, p), h, w, r, c, a)
  {
    hide ByteOf, Colour, PixelAt, Addr, InLines, Window, Hits, Last;
    var e := BlitEmit(src, w, p);
    forall r', c' | 0 <= r' < h && 0 <= c' < w && (r' != r || c' != c)
      ensures Hits(e(r', c'), a) == 0
    {
      CellAt(src, w, p, r', c', a);
      WindowInside(w, p.wFit, c');
      if c' <= p.wFit && Addr(p, r', c') <= a < Addr(p, r', c') + 4 {
        WordsApart(p, w, r, c, r', c', a);
      }
    }
  }

  /** A pixel inside the window puts its colour in its own frame word, unless the
      colour is the transparent one, when the word keeps its value. */
  lemma BlitWord(mem: seq<bv8>, src: seq<bv8>, w: int, h: int, p: Placement, r: int, c: int)
    requires InLines(p, w)
    requires 0 <= r < Window(h, p.hFit) && 0 <= c < Window(w, p.wFit)
    requires 0 <= Addr(p, r, c) && Addr(p, r, c) + 4 <= |mem|
    ensures var colour := Colour(src, PixelAt(4, w, r, c));
            WordAt(Apply(mem, BlitLog(src, w, h, p)), Addr(p, r, c)) ==
            if p.key == Some(colour) then WordAt(mem, Addr(p, r, c)) else colour
  {
    hide ByteOf, Colour, PixelAt, Word, At, Apply, BlitLog;
    BlitByte(mem, src, w, h, p, r, c, 0);
    BlitByte(mem, src, w, h, p, r, c, 1);
    BlitByte(mem, src, w, h, p, r, c, 2);
    BlitByte(mem, src, w, h, p, r, c, 3);
    WordBytes(Colour(src, PixelAt(4, w, r, c)), 0, 0, 0, 0);
  }

  /** A byte of the frame line `row` under columns 0..n-1 of the blit. */
  ghost predicate InSpan(p: Placement, r: int, n: int, a: int)
  {
    Addr(p, r, 0) <= a < Addr(p, r, n)
  }

  /** Nothing outside the window is stored to, whatever the offsets. */
  lemma BlitElsewhere(mem: seq<bv8>, src: seq<bv8>, w: int, h: int, p: Placement, a: int)
    requires forall r :: 0 <= r < Window(h, p.hFit) ==> !InSpan(p, r, Window(w, p.wFit), a)
    ensures Last(BlitLog(src, w, h, p), a).None?
    ensures 0 <= a < |mem| ==> Apply(mem, BlitLog(src, w, h, p))[a] == mem[a]
  {
    hide ByteOf, Colour, PixelAt;
    var e := BlitEmit(src, w, p);
    forall r, c | 0 <= r < h && 0 <= c < w
      ensures Hits(e(r, c), a) == 0
    {
      CellAt(src, w, p, r, c, a);
      if r <= p.hFit && c <= p.wFit {
        assert !InSpan(p, r, Window(w, p.wFit), a);
      }
    }
    GridMiss(e, h, w, a);
    if 0 <= a < |mem| {
      ApplyAt(mem, BlitLog(src, w, h, p), a);
    }
  }

  /** Nor does the row copy store anything outside its w by h words. */
  lemma CopyElsewhere(mem: seq<bv8>, src: seq<bv8>, w: int, h: int, base: int, stride: int, a: int)
    requires forall r :: 0 <= r < h ==> !(FrameAddr(base, stride, r, 0) <= a < FrameAddr(base, stride, r, w))
    ensures 0 <= a < |mem| ==> Apply(mem, Grid(CopyEmit(src, w, base, stride), h, w))[a] == mem[a]
  {
    hide ByteOf, Word, PixelAt, WordStores;
    var e := CopyEmit(src, w, base, stride);
    forall r, c | 0 <= r < h && 0 <= c < w
      ensures Hits(e(r, c), a) == 0
    {
      WordStoresAt(FrameAddr(base, stride, r, c), WordAt(src, PixelAt(4, w, r, c)), a);
      assert !(FrameAddr(base, stride, r, 0) <= a < FrameAddr(base, stride, r, w));
    }
    GridMiss(e, h, w, a);
    if 0 <= a < |mem| {
      ApplyAt(mem, Grid(e, h, w), a);
    }
  }

  // ----- how the blits compare -----

  lemma {:induction false} RowLength(src: seq<bv8>, w: int, p: Placement, r: int, n: int)
    requires p.key.None?
    ensures |Row(BlitEmit(src, w, p), r, n)| == if r <= p.hFit then 4 * Window(n, p.wFit) else 0
    decreases if n <= 0 then 0 else n
  {
    if n > 0 {
      RowLength(src, w, p, r, n - 1);
    }
  }

  /** The clipped blit writes min(w, wFit + 1) by min(h, hFit + 1) pixels of four bytes. */
  lemma {:induction false} ClippedCount(src: seq<bv8>, w: int, h: int, p: Placement)
    requires p.key.None?
    ensures |BlitLog(src, w, h, p)| == 4 * (Window(h, p.hFit) * Window(w, p.wFit))
    decreases if h <= 0 then 0 else h
  {
    if h > 0 {
      ClippedCount(src, w, h - 1, p);
      assert |BlitLog(src, w, h, p)| == |BlitLog(src, w, h - 1, p)| + |Row(BlitEmit(src, w, p), h - 1, w)|;
      hide BlitLog, BlitEmit, Row;
      RowLength(src, w, p, h - 1, w);
      OneMore(Window(h - 1, p.hFit), Window(w, p.wFit));
    }
  }

  /** The window is the smaller of the image and one more than the clip value. */
  lemma WindowIs(n: nat, fit: nat)
    ensures Window(n, fit) == if n < fit + 1 then n else fit + 1
  {
  }

  lemma OneMore(u: int, v: int)
    ensures (u + 1) * v == u * v + v
  {
  }

  /** Pixel (r, c) passes the clip tests and is left out for its colour. */
  ghost predicate Keyed(src: seq<bv8>, w: int, p: Placement, r: int, c: int)
  {
    r <= p.hFit && c <= p.wFit && p.key == Some(Colour(src, PixelAt(4, w, r, c)))
  }

  function Unkeyed(p: Placement): Placement
  {
    p.(key := None)
  }

  lemma CellLengths(src: seq<bv8>, w: int, p: Placement, r: int, c: int)
    ensures if Keyed(src, w, p, r, c)
            then |CellStores(src, w, p, r, c)| < |CellStores(src, w, Unkeyed(p), r, c)|
            else CellStores(src, w, p, r, c) == CellStores(src, w, Unkeyed(p), r, c)
  {
    hide Colour, PixelAt, ByteOf;
  }

  lemma {:induction false} RowLengths(src: seq<bv8>, w: int, p: Placement, r: int, n: int)
    ensures |Row(BlitEmit(src, w, p), r, n)| <= |Row(BlitEmit(src, w, Unkeyed(p)), r, n)|
    ensures forall c :: 0 <= c < n && Keyed(src, w, p, r, c) ==>
              |Row(BlitEmit(src, w, p), r, n)| < |Row(BlitEmit(src, w, Unkeyed(p)), r, n)|
    decreases if n <= 0 then 0 else n
  {
    hide Keyed, CellStores, Unkeyed;
    if n > 0 {
      RowLengths(src, w, p, r, n - 1);
      CellLengths(src, w, p, r, n - 1);
    }
  }

  lemma {:induction false} GridLengths(src: seq<bv8>, w: int, h: int, p: Placement)
    ensures |BlitLog(src, w, h, p)| <= |BlitLog(src, w, h, Unkeyed(p))|
    ensures forall r, c :: 0 <= r < h && 0 <= c < w && Keyed(src, w, p, r, c) ==>
              |BlitLog(src, w, h, p)| < |BlitLog(src, w, h, Unkeyed(p))|
    decreases if h <= 0 then 0 else h
  {
    hide Keyed, BlitEmit, Unkeyed, Row;
    if h > 0 {
      GridLengths(src, w, h - 1, p);
      RowLengths(src, w, p, h - 1, w);
    }
  }

  /** The transparent blit makes the stores of the clipped one exactly when no pixel that
      passes the clip tests has the transparent colour. */
  lemma KeyUnusedIff(src: seq<bv8>, w: int, h: int, p: Placement)
    ensures BlitLog(src, w, h, p) == BlitLog(src, w, h, Unkeyed(p))
       <==> forall r, c :: 0 <= r < h && 0 <= c < w ==> !Keyed(src, w, p, r, c)
  {
    hide Keyed, CellStores, Unkeyed, Grid;
    if forall r, c :: 0 <= r < h && 0 <= c < w ==> !Keyed(src, w, p, r, c) {
      var e, f := BlitEmit(src, w, p), BlitEmit(src, w, Unkeyed(p));
      forall r, c | 0 <= r < h && 0 <= c < w
        ensures e(r, c) == f(r, c)
      {
        CellLengths(src, w, p, r, c);
      }
      GridSame(e, f, h, w);
    } else {
      GridLengths(src, w, h, p);
    }
  }

  /** In particular for a transparent value no colour can have, on every input. */
  lemma ImpossibleKey(src: seq<bv8>, w: int, h: int, p: Placement)
    requires p.key.Some? && p.key.value > 0xffffff
    ensures BlitLog(src, w, h, p) == BlitLog(src, w, h, Unkeyed(p))
  {
    forall r, c
      ensures !Keyed(src, w, p, r, c)
    {
      ColourBound(src, PixelAt(4, w, r, c));
    }
    KeyUnusedIff(src, w, h, p);
  }

  lemma ColourBound(src: seq<bv8>, s: int)
    ensures Colour(src, s) <= 0xffffff
    ensures Colour(src, s) == WordAt(src, s) & 0xffffff
  {
  }

  /** At one aligned word two logs agree up to the top byte: neither stores there, or
      both store all of it, the second with its top byte 0. */
  ghost predicate AgreeBelowTop(u: seq<Store>, v: seq<Store>, a: int)
  {
    if Last(u, a).None? then
      && Last(u, a + 1).None? && Last(u, a + 2).None? && Last(u, a + 3).None?
      && Last(v, a).None? && Last(v, a + 1).None? && Last(v, a + 2).None? && Last(v, a + 3).None?
    else
      && Last(u, a + 1).Some? && Last(u, a + 2).Some? && Last(u, a + 3).Some?
      && Last(v, a) == Last(u, a) && Last(v, a + 1) == Last(u, a + 1) && Last(v, a + 2) == Last(u, a + 2)
      && Last(v, a + 3) == Some(0)
  }

  lemma AgreeConcat(u: seq<Store>, v: seq<Store>, u': seq<Store>, v': seq<Store>, a: int)
    requires AgreeBelowTop(u, v, a) && AgreeBelowTop(u', v', a)
    ensures AgreeBelowTop(u + u', v + v', a)
  {
    hide Last;
    LastConcat(u, u', a);
    LastConcat(u, u', a + 1);
    LastConcat(u, u', a + 2);
    LastConcat(u, u', a + 3);
    LastConcat(v, v', a);
    LastConcat(v, v', a + 1);
    LastConcat(v, v', a + 2);
    LastConcat(v, v', a + 3);
  }

  lemma AgreeNothing(a: int)
    ensures AgreeBelowTop([], [], a)
  {
  }

  lemma AgreeCell(base: int, n: int, i: int, w: bv32)
    ensures AgreeBelowTop(WordStores(base + 4 * n, w), WordStores(base + 4 * n, w & 0xffffff), base + 4 * i)
  {
    var a, b, low := base + 4 * n, base + 4 * i, w & 0xffffff;
    WordStoresAt(a, w, b);
    WordStoresAt(a, w, b + 1);
    WordStoresAt(a, w, b + 2);
    WordStoresAt(a, w, b + 3);
    WordStoresAt(a, low, b);
    WordStoresAt(a, low, b + 1);
    WordStoresAt(a, low, b + 2);
    WordStoresAt(a, low, b + 3);
    assert ByteOf(w & 0xffffff, 0) == ByteOf(w, 0) && ByteOf(w & 0xffffff, 1) == ByteOf(w, 1);
    assert ByteOf(w & 0xffffff, 2) == ByteOf(w, 2) && ByteOf(w & 0xffffff, 3) == 0;
  }

  /** No clipping, no transparency, at the frame's origin. */
  function Origin(base: int, stride: int, w: int, h: int): Placement
  {
    Placement(base, stride, 0, 0, w, h, None)
  }

  lemma AgreePixel(src: seq<bv8>, w: int, h: int, base: int, stride: int, r: int, c: int, i: int)
    requires r <= h && c < w
    ensures AgreeBelowTop(CopyEmit(src, w, base, stride)(r, c), BlitEmit(src, w, Origin(base, stride, w, h))(r, c), base + 4 * i)
  {
    hide AgreeBelowTop, Last, WordStores, Colour, WordAt;
    var s := PixelAt(4, w, r, c);
    ColourBound(src, s);
    AgreeCell(base, r * stride + c, i, WordAt(src, s));
  }

  lemma {:induction false} AgreeRow(src: seq<bv8>, w: int, h: int, base: int, stride: int, r: int, n: int, i: int)
    requires r <= h && n <= w
    ensures AgreeBelowTop(Row(CopyEmit(src, w, base, stride), r, n), Row(BlitEmit(src, w, Origin(base, stride, w, h)), r, n), base + 4 * i)
    decreases if n <= 0 then 0 else n
  {
    hide AgreeBelowTop, Last, CopyEmit, BlitEmit;
    AgreeNothing(base + 4 * i);
    if n > 0 {
      var e, f := CopyEmit(src, w, base, stride), BlitEmit(src, w, Origin(base, stride, w, h));
      AgreeRow(src, w, h, base, stride, r, n - 1, i);
      AgreePixel(src, w, h, base, stride, r, n - 1, i);
      AgreeConcat(Row(e, r, n - 1), Row(f, r, n - 1), e(r, n - 1), f(r, n - 1), base + 4 * i);
    }
  }

  lemma {:induction false} AgreeGrid(src: seq<bv8>, w: int, h: int, base: int, stride: int, m: int, i: int)
    requires m <= h
    ensures AgreeBelowTop(Grid(CopyEmit(src, w, base, stride), m, w), Grid(BlitEmit(src, w, Origin(base, stride, w, h)), m, w), base + 4 * i)
    decreases if m <= 0 then 0 else m
  {
    hide Last, Row, AgreeBelowTop, CopyEmit, BlitEmit;
    AgreeNothing(base + 4 * i);
    if m > 0 {
      var e, f := CopyEmit(src, w, base, stride), BlitEmit(src, w, Origin(base, stride, w, h));
      AgreeGrid(src, w, h, base, stride, m - 1, i);
      AgreeRow(src, w, h, base, stride, m - 1, w, i);
      AgreeConcat(Grid(e, m - 1, w), Grid(f, m - 1, w), Row(e, m - 1, w), Row(f, m - 1, w), base + 4 * i);
    }
  }

  /** The row copy and the pixel blit agree in the low 24 bits of every word of memory,
      even when the image is wider than the frame and its lines overlap; a word
      either of them leaves alone, both leave alone. */
  lemma FastBlitAgrees(mem: seq<bv8>, src: seq<bv8>, w: int, h: int, base: int, stride: int, i: int)
    requires 0 <= base + 4 * i && base + 4 * i + 4 <= |mem|
    ensures var a := base + 4 * i;
            var log := Grid(CopyEmit(src, w, base, stride), h, w);
            var fast, slow := Apply(mem, log), Apply(mem, BlitLog(src, w, h, Origin(base, stride, w, h)));
            WordAt(slow, a) == if Last(log, a).Some? then Low24(WordAt(fast, a)) else WordAt(mem, a)
    ensures var log := Grid(CopyEmit(src, w, base, stride), h, w);
            Last(log, base + 4 * i).None? ==> WordAt(Apply(mem, log), base + 4 * i) == WordAt(mem, base + 4 * i)
  {
    hide Grid, CopyEmit, BlitEmit, Apply, Last, Word, Low24;
    AgreeGrid(src, w, h, base, stride, h, i);
    WordsOfLogs(mem, Grid(CopyEmit(src, w, base, stride), h, w), BlitLog(src, w, h, Origin(base, stride, w, h)), base + 4 * i);
  }

  lemma WordsOfLogs(mem: seq<bv8>, u: seq<Store>, v: seq<Store>, a: int)
    requires AgreeBelowTop(u, v, a) && 0 <= a && a + 4 <= |mem|
    ensures WordAt(Apply(mem, v), a) == if Last(u, a).Some? then Low24(WordAt(Apply(mem, u), a)) else WordAt(mem, a)
    ensures Last(u, a).None? ==> WordAt(Apply(mem, u), a) == WordAt(mem, a)
  {
    hide Apply, Last, Word, Low24;
    ApplyWord(mem, u, a);
    ApplyWord(mem, v, a);
    if Last(u, a).Some? {
      TopCleared(Last(u, a).value, Last(u, a + 1).value, Last(u, a + 2).value, Last(u, a + 3).value);
    }
  }

  lemma TopCleared(b0: bv8, b1: bv8, b2: bv8, b3: bv8)
    ensures Word(b0, b1, b2, 0) == Low24(Word(b0, b1, b2, b3))
  {
  }

  lemma ApplyWord(mem: seq<bv8>, log: seq<Store>, a: int)
    requires 0 <= a && a + 4 <= |mem|
    ensures WordAt(Apply(mem, log), a) ==
            Word(Last(log, a).GetOr(mem[a]), Last(log, a + 1).GetOr(mem[a + 1]),
                 Last(log, a + 2).GetOr(mem[a + 2]), Last(log, a + 3).GetOr(mem[a + 3]))
  {
    hide Apply, Last, Word;
    ApplyAt(mem, log, a);
    ApplyAt(mem, log, a + 1);
    ApplyAt(mem, log, a + 2);
    ApplyAt(mem, log, a + 3);
  }

  // ----- the three blits -----

  lemma {:induction false} RowIsCopy(mem: seq<bv8>, src: seq<bv8>, w: nat, base: int, stride: int, r: nat, n: nat)
    requires n <= w && 0 <= PixelAt(4, w, r, 0) && PixelAt(4, w, r, 0) + 4 * n <= |src|
    requires 0 <= FrameAddr(base, stride, r, 0) && FrameAddr(base, stride, r, 0) + 4 * n <= |mem|
    ensures Apply(mem, Row(CopyEmit(src, w, base, stride), r, n))
         == Splice(mem, FrameAddr(base, stride, r, 0), src[PixelAt(4, w, r, 0)..PixelAt(4, w, r, 0) + 4 * n])
    decreases n
  {
    hide Apply, Splice, WordStores, WordAt;
    ApplyNothing(mem);
    SpliceNothing(mem, FrameAddr(base, stride, r, 0));
    if n > 0 {
      var e, s, d := CopyEmit(src, w, base, stride), PixelAt(4, w, r, 0), FrameAddr(base, stride, r, 0);
      RowIsCopy(mem, src, w, base, stride, r, n - 1);
      ApplyConcat(mem, Row(e, r, n - 1), e(r, n - 1));
      assert e(r, n - 1) == WordStores(d + 4 * (n - 1), WordAt(src, s + 4 * (n - 1)));
      WordCopied(mem, src, d, s, 4 * (n - 1));
    }
  }

  /** Storing the next word of the source extends a copied block by four bytes. */
  lemma WordCopied(mem: seq<bv8>, src: seq<bv8>, d: nat, s: nat, n: nat)
    requires s + n + 4 <= |src| && d + n + 4 <= |mem|
    ensures Apply(Splice(mem, d, src[s..s + n]), WordStores(d + n, WordAt(src, s + n))) == Splice(mem, d, src[s..s + n + 4])
  {
    hide Splice, Apply, WordStores, WordAt;
    WordStored(Splice(mem, d, src[s..s + n]), src, d + n, s + n);
    FourMore(mem, src, d, s, n);
  }

  lemma WordStored(mem: seq<bv8>, src: seq<bv8>, d: nat, s: nat)
    requires s + 4 <= |src| && d + 4 <= |mem|
    ensures Apply(mem, WordStores(d, WordAt(src, s))) == mem[d := src[s]][d + 1 := src[s + 1]][d + 2 := src[s + 2]][d + 3 := src[s + 3]]
  {
    hide ByteOf, Word, Apply;
    var w := WordAt(src, s);
    WordBytes(0, src[s], src[s + 1], src[s + 2], src[s + 3]);
    ApplyFourStores(mem, Store(d, ByteOf(w, 0)), Store(d + 1, ByteOf(w, 1)), Store(d + 2, ByteOf(w, 2)), Store(d + 3, ByteOf(w, 3)));
  }

  lemma FourMore(mem: seq<bv8>, src: seq<bv8>, d: nat, s: nat, n: nat)
    requires s + n + 4 <= |src| && d + n + 4 <= |mem|
    ensures Splice(mem, d, src[s..s + n])[d + n := src[s + n]][d + n + 1 := src[s + n + 1]]
                  [d + n + 2 := src[s + n + 2]][d + n + 3 := src[s + n + 3]] == Splice(mem, d, src[s..s + n + 4])
  {
  }

  method AsVidCopyImageToBuffer(dest: array<bv8>, base: int, src: array<bv8>, destWidth: int, srcWidth: int, srcHeight: int)
    requires dest != src && Fits(src.Length, 4, srcWidth, srcWidth, srcHeight)
    requires 0 < srcHeight ==> 0 <= srcWidth
    requires forall y :: 0 <= y < srcHeight ==>
               0 <= FrameAddr(base, destWidth, y, 0) && FrameAddr(base, destWidth, y, 0) + 4 * srcWidth <= dest.Length
    modifies dest
    ensures dest[..] == Apply(old(dest[..]), Grid(CopyEmit(src[..], srcWidth, base, destWidth), srcHeight, srcWidth))
  {
    hide PixelAt, FrameAddr, Apply, Row, Fits, Splice;
    ghost var was, e := dest[..], CopyEmit(src[..], srcWidth, base, destWidth);
    var destPtr, srcPtr := base, 0;
    PixelAtNext(4, srcWidth, 0, 0);
    FrameAddrNext(base, destWidth, 0, 0);
    ApplyNothing(was);
    var y := 0;
    while y < srcHeight
      invariant 0 <= y && (y <= srcHeight || y == 0)
      invariant srcPtr == PixelAt(4, srcWidth, y, 0) && destPtr == FrameAddr(base, destWidth, y, 0)
      invariant dest[..] == Apply(was, Grid(e, y, srcWidth))
    {
      FitsLine(src.Length, srcWidth, srcHeight, y);
      ghost var before := dest[..];
      MemCpy(dest, destPtr, src, srcPtr, srcWidth * 4);
      assert src[srcPtr..srcPtr + srcWidth * 4] == src[..][srcPtr..srcPtr + 4 * srcWidth];
      RowIsCopy(before, src[..], srcWidth, base, destWidth, y, srcWidth);
      ApplyConcat(was, Grid(e, y, srcWidth), Row(e, y, srcWidth));
      PixelAtNext(4, srcWidth, y, 0);
      FrameAddrNext(base, destWidth, y, 0);
      srcPtr := srcPtr + srcWidth * 4;
      destPtr := destPtr + destWidth * 4;
      y := y + 1;
    }
  }

  lemma FrameAddrNext(base: int, stride: int, row: int, col: int)
    ensures FrameAddr(base, stride, 0, 0) == base
    ensures FrameAddr(base, stride, row + 1, 0) == FrameAddr(base, stride, row, 0) + stride * 4
  {
    assert (row + 1) * stride == row * stride + stride;
  }

  lemma FitsLine(n: int, w: int, h: int, r: int)
    requires Fits(n, 4, w, w, h) && 0 <= r < h && 0 <= w
    ensures 0 <= PixelAt(4, w, r, 0) && (0 < w ==> PixelAt(4, w, r, 0) + 4 * w <= n)
    ensures w == 0 ==> PixelAt(4, w, r, 0) == 0
  {
    if 0 < w {
      FitsPixel(n, 4, w, w, h, r, 0);
      FitsPixel(n, 4, w, w, h, r, w - 1);
    }
  }

  lemma CellInside(src: seq<bv8>, w: int, h: int, p: Placement, r: int, c: int, size: nat)
    requires GridInside(BlitEmit(src, w, p), h, w, size) && 0 <= r < h && 0 <= c < w
    ensures Draws(p, r, c, Colour(src, PixelAt(4, w, r, c))) ==> 0 <= Addr(p, r, c) && Addr(p, r, c) + 4 <= size
  {
    hide ByteOf, Colour, PixelAt, Addr;
    var log := BlitEmit(src, w, p)(r, c);
    assert Inside(log, size);
    if Draws(p, r, c, Colour(src, PixelAt(4, w, r, c))) {
      assert log[0].addr == Addr(p, r, c) && log[3].addr == Addr(p, r, c) + 3;
    }
  }

  /** The start of the inner loop's body, the same in both per-pixel blits: take four
      bytes and make a colour of the first three. */
  method ReadPixel(src: array<bv8>, start: nat) returns (realColor: bv32, srcPtr: nat)
    requires start + 4 <= src.Length
    ensures realColor == Colour(src[..], start) && srcPtr == start + 4
  {
    hide Rgb;
    var color := new bv8[4];
    srcPtr := start;
    for i := 0 to 4
      invariant srcPtr == start + i
      invariant forall k :: 0 <= k < i ==> color[k] == src[start + k]
    {
      color[i] := src[srcPtr];
      srcPtr := srcPtr + 1;
    }
    var red, green, blue := color[2], color[1], color[0];
    realColor := (((red as bv32) << 16) | ((green as bv32) << 8) | (blue as bv32)) & 0xffffff;
    RgbIs(red, green, blue);
  }

  lemma RgbIs(red: bv8, green: bv8, blue: bv8)
    ensures (((red as bv32) << 16) | ((green as bv32) << 8) | (blue as bv32)) & 0xffffff == Rgb(red, green, blue)
  {
  }

  /** The memory after the pass of the inner loop at (y, x). */
  lemma CellDone(was: seq<bv8>, before: seq<bv8>, after: seq<bv8>, src: seq<bv8>, w: int, p: Placement, y: int, x: int)
    requires 0 <= x && before == Apply(was, Done(BlitEmit(src, w, p), w, y, x))
    requires var colour := Colour(src, PixelAt(4, w, y, x));
             after == if Draws(p, y, x, colour) then Apply(before, WordStores(Addr(p, y, x), colour)) else before
    ensures after == Apply(was, Done(BlitEmit(src, w, p), w, y, x + 1))
  {
    hide Apply, Done, WordStores, Colour, PixelAt, Addr;
    ApplyNothing(before);
    DoneCell(was, BlitEmit(src, w, p), w, y, x);
  }

  /** The per-pixel blit with clipping. */
  method AsVidCopyImageToBuffer2(dest: array<bv8>, base: int, src: array<bv8>, destWidth: int, srcWidth: int, srcHeight: int,
                                 x0: int, y0: int, wFit: int, hFit: int)
    requires dest != src && Fits(src.Length, 4, srcWidth, srcWidth, srcHeight)
    requires GridInside(BlitEmit(src[..], srcWidth, Placement(base, destWidth, x0, y0, wFit, hFit, None)), srcHeight, srcWidth, dest.Length)
    modifies dest
    ensures dest[..] == Apply(old(dest[..]), BlitLog(src[..], srcWidth, srcHeight, Placement(base, destWidth, x0, y0, wFit, hFit, None)))
  {
    hide PixelAt, Apply, Row, Grid, Done, Fits, FrameAddr, GridInside, Colour, CellStores, BlitEmit, WordStores;
    ghost var p := Placement(base, destWidth, x0, y0, wFit, hFit, None);
    ghost var was, e := dest[..], BlitEmit(src[..], srcWidth, p);
    var srcPtr := 0;
    PixelAtNext(4, srcWidth, 0, 0);
    DoneStart(was, e, srcWidth);
    var y := 0;
    while y < srcHeight
      invariant 0 <= y && (y <= srcHeight || y == 0)
      invariant 0 <= srcWidth ==> srcPtr == PixelAt(4, srcWidth, y, 0)
      invariant dest[..] == Apply(was, Done(e, srcWidth, y, 0))
    {
      var x := 0;
      while x < srcWidth
        invariant 0 <= x && (x <= srcWidth || x == 0)
        invariant 0 <= srcWidth ==> srcPtr == PixelAt(4, srcWidth, y, x)
        invariant dest[..] == Apply(was, Done(e, srcWidth, y, x))
      {
        FitsPixel(src.Length, 4, srcWidth, srcWidth, srcHeight, y, x);
        var realColor;
        realColor, srcPtr := ReadPixel(src, srcPtr);
        CellInside(src[..], srcWidth, srcHeight, p, y, x, dest.Length);
        ghost var before := dest[..];
        if y <= hFit && x <= wFit {
          StoreWord(dest, FrameAddr(base, destWidth, y + y0, x + x0), realColor);
        }
        CellDone(was, before, dest[..], src[..], srcWidth, p, y, x);
        PixelAtNext(4, srcWidth, y, x);
        x := x + 1;
      }
      NextLine(srcWidth, y, x);
      DoneRow(e, srcWidth, y, x);
      y := y + 1;
    }
    DoneAll(e, srcWidth, y, srcHeight);
  }

  /** The per-pixel blit with clipping and a transparent colour. */
  method AsVidCopyImageToBuffer3(dest: array<bv8>, base: int, src: array<bv8>, destWidth: int, srcWidth: int, srcHeight: int,
                                 x0: int, y0: int, wFit: int, hFit: int, transparent: bv32)
    requires dest != src && Fits(src.Length, 4, srcWidth, srcWidth, srcHeight)
    requires GridInside(BlitEmit(src[..], srcWidth, Placement(base, destWidth, x0, y0, wFit, hFit, Some(transparent))), srcHeight, srcWidth, dest.Length)
    modifies dest
    ensures dest[..] == Apply(old(dest[..]), BlitLog(src[..], srcWidth, srcHeight, Placement(base, destWidth, x0, y0, wFit, hFit, Some(transparent))))
  {
    hide PixelAt, Apply, Row, Grid, Done, Fits, FrameAddr, GridInside, Colour, CellStores, BlitEmit, WordStores;
    ghost var p := Placement(base, destWidth, x0, y0, wFit, hFit, Some(transparent));
    ghost var was, e := dest[..], BlitEmit(src[..], srcWidth, p);
    var srcPtr := 0;
    PixelAtNext(4, srcWidth, 0, 0);
    DoneStart(was, e, srcWidth);
    var y := 0;
    while y < srcHeight
      invariant 0 <= y && (y <= srcHeight || y == 0)
      invariant 0 <= srcWidth ==> srcPtr == PixelAt(4, srcWidth, y, 0)
      invariant dest[..] == Apply(was, Done(e, srcWidth, y, 0))
    {
      var x := 0;
      while x < srcWidth
        invariant 0 <= x && (x <= srcWidth || x == 0)
        invariant 0 <= srcWidth ==> srcPtr == PixelAt(4, srcWidth, y, x)
        invariant dest[..] == Apply(was, Done(e, srcWidth, y, x))
      {
        FitsPixel(src.Length, 4, srcWidth, srcWidth, srcHeight, y, x);
        var realColor;
        realColor, srcPtr := ReadPixel(src, srcPtr);
        CellInside(src[..], srcWidth, srcHeight, p, y, x, dest.Length);
        ghost var before := dest[..];
        if y <= hFit && x <= wFit {
          if realColor != transparent {
            StoreWord(dest, FrameAddr(base, destWidth, y + y0, x + x0), realColor);
          }
        }
        CellDone(was, before, dest[..], src[..], srcWidth, p, y, x);
        PixelAtNext(4, srcWidth, y, x);
        x := x + 1;
      }
      NextLine(srcWidth, y, x);
      DoneRow(e, srcWidth, y, x);
      y := y + 1;
    }
    DoneAll(e, srcWidth, y, srcHeight);
  }

  lemma SpliceNothing(mem: seq<bv8>, d: nat)
    requires d <= |mem|
    ensures Splice(mem, d, []) == mem
  {
  }

  lemma ApplyNothing(mem: seq<bv8>)
    ensures Apply(mem, []) == mem
  {
  }

  /** After the last column the source pointer is at the next line. */
  lemma NextLine(w: int, y: int, x: int)
    requires 0 <= x && w <= x && (x <= w || x == 0)
    ensures 0 <= w ==> PixelAt(4, w, y, x) == PixelAt(4, w, y + 1, 0)
  {
    assert (y + 1) * (4 * w) == y * (4 * w) + 4 * w;
  }
}
