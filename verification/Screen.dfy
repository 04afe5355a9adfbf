/**
 Loading and blitting together: DispIMAGE, DispIMAGE_fit and DispIMAGE_from_gimp of
 lab5/Lab5_template_de1soc/software/lab5/graphic_lib/draw_gimps.c, the frame they leave
 on the screen, and the panel hello_ucosii.c composes from five of them.
 */
module Screen {
  import opened Arith
  import opened Memory
  import opened PixMap
  import opened DrawGimps
  import VipFr

  datatype Picture = Picture(width: nat, height: nat, bytesPerPixel: nat, pixels: seq<bv8>)

  ghost function PictureOf(image: GimpImage): Picture
    reads image.pixelData
  {
    Picture(image.width, image.height, image.bytesPerPixel, image.pixelData[..])
  }

  /** 3 is RGB and 4 is RGBA; there is no other format. */
  predicate Supported(pic: Picture)
  {
    pic.bytesPerPixel == 3 || pic.bytesPerPixel == 4
  }

  function Loader(pic: Picture): Converter
  {
    if pic.bytesPerPixel == 3 then C24To32 else C32To32
  }

  /** The 32-bit bitmap a load makes of a picture. */
  function Bits(pic: Picture): seq<bv8>
  {
    Convert(Loader(pic), pic.pixels, Loaded(pic.width, pic.height))
  }

  /** What a colour is: red << 16, green << 8 and blue, and a zero byte on top. */
  function TrueRgb(red: bv8, green: bv8, blue: bv8): bv32
  {
    (((red as bv32) << 16) | ((green as bv32) << 8) | (blue as bv32)) & 0xffffff
  }

  lemma TrueRgbIs(red: bv8, green: bv8, blue: bv8)
    ensures TrueRgb(red, green, blue) == Rgb(red, green, blue)
  {
  }

  /** The colour of pixel (r, c) of the picture itself, whose bytes are red, green, blue. */
  function PictureRgb(pic: Picture, r: int, c: int): bv32
  {
    var s := PixelAt(pic.bytesPerPixel, pic.width, r, c);
    TrueRgb(At(pic.pixels, s), At(pic.pixels, s + 1), At(pic.pixels, s + 2))
  }

  function SwapRedBlue(colour: bv32): bv32
  {
    ((colour & 0xff) << 16) | (colour & 0xff00) | ((colour >> 16) & 0xff)
  }

  /** The dimensions survive the bitmap's `short` fields. */
  predicate Small(pic: Picture)
  {
    pic.width < 0x8000 && pic.height < 0x8000
  }

  // ----- one picture -----

  function DrawLog(pic: Picture, p: Placement): seq<Store>
  {
    BlitLog(Bits(pic), ToShort(pic.width), ToShort(pic.height), p)
  }

  /** DispIMAGE_from_gimp asks for no clipping, by the bitmap's own dimensions. */
  function Sprite(pic: Picture, base: int, stride: int, x: int, y: int, key: bv32): Placement
  {
    Placement(base, stride, x, y, ToShort(pic.width), ToShort(pic.height), Some(key))
  }

  /** Byte k of pixel (r, c) of the loaded bitmap. */
  lemma BitsByte(pic: Picture, r: int, c: int, k: int)
    requires Supported(pic) && Small(pic) && 0 <= r < pic.height && 0 <= c < pic.width && 0 <= k < 4
    ensures At(Bits(pic), PixelAt(4, pic.width, r, c) + k)
         == PixelByte(Loader(pic), pic.pixels, PixelAt(pic.bytesPerPixel, pic.width, r, c), k)
  {
    hide PixelByte, Convert, PixelAt;
    var w, h := pic.width, pic.height;
    ToShortKeeps(w);
    ToShortKeeps(h);
    PixelAtNumber(4, w, r, c);
    PixelAtNumber(pic.bytesPerPixel, w, r, c);
    CellInGrid(r, c, w, h);
    ConvertByte(Loader(pic), pic.pixels, Loaded(w, h), r * w + c, k);
  }

  lemma CellInGrid(r: nat, c: nat, w: nat, h: nat)
    requires r < h && c < w
    ensures 0 <= r * w + c < w * h
  {
    MulMono(r + 1, h, w);
    assert w * h == h * w;
  }

  /** Loading an RGB picture gives each pixel its own colour; loading an RGBA picture
      gives it the colour with red and blue exchanged. */
  lemma LoadedColour(pic: Picture, r: int, c: int)
    requires Supported(pic) && Small(pic) && 0 <= r < pic.height && 0 <= c < pic.width
    ensures Colour(Bits(pic), PixelAt(4, pic.width, r, c)) == DrawnRgb(pic, r, c)
  {
    hide Bits, PixelAt, At, Rgb, PictureRgb, SwapRedBlue;
    BitsByte(pic, r, c, 0);
    BitsByte(pic, r, c, 1);
    BitsByte(pic, r, c, 2);
    PictureRgbIs(pic, r, c);
    assert PixelAt(4, pic.width, r, c) + 0 == PixelAt(4, pic.width, r, c);
  }

  /** The picture's colour in the blit's terms, as it is and with red and blue exchanged. */
  lemma PictureRgbIs(pic: Picture, r: int, c: int)
    ensures var s := PixelAt(pic.bytesPerPixel, pic.width, r, c);
            && PictureRgb(pic, r, c) == Rgb(At(pic.pixels, s), At(pic.pixels, s + 1), At(pic.pixels, s + 2))
            && SwapRedBlue(PictureRgb(pic, r, c)) == Rgb(At(pic.pixels, s + 2), At(pic.pixels, s + 1), At(pic.pixels, s))
            && (SwapRedBlue(PictureRgb(pic, r, c)) == PictureRgb(pic, r, c) <==> At(pic.pixels, s) == At(pic.pixels, s + 2))
  {
    hide PixelAt, At, Rgb, SwapRedBlue, TrueRgb;
    var s := PixelAt(pic.bytesPerPixel, pic.width, r, c);
    TrueRgbIs(At(pic.pixels, s), At(pic.pixels, s + 1), At(pic.pixels, s + 2));
    SwappedRgb(At(pic.pixels, s), At(pic.pixels, s + 1), At(pic.pixels, s + 2));
  }

  lemma SwappedRgb(red: bv8, green: bv8, blue: bv8)
    ensures SwapRedBlue(Rgb(red, green, blue)) == Rgb(blue, green, red)
    ensures Rgb(blue, green, red) == Rgb(red, green, blue) <==> red == blue
  {
  }

  /** A drawn pixel has the picture's colour exactly when the picture is RGB or the
      red and blue of that pixel are equal. */
  lemma TrueColourIff(pic: Picture, r: int, c: int)
    requires Supported(pic)
    ensures var s := PixelAt(pic.bytesPerPixel, pic.width, r, c);
            (DrawnRgb(pic, r, c) == PictureRgb(pic, r, c)
             <==> pic.bytesPerPixel == 3 || At(pic.pixels, s) == At(pic.pixels, s + 2))
  {
    hide PixelAt, At, PictureRgb, SwapRedBlue;
    PictureRgbIs(pic, r, c);
  }

  /** The colour a picture's pixel is drawn with. */
  function DrawnRgb(pic: Picture, r: int, c: int): bv32
  {
    if pic.bytesPerPixel == 3 then PictureRgb(pic, r, c) else SwapRedBlue(PictureRgb(pic, r, c))
  }

  /** Wherever a picture is placed, clipped or keyed, a pixel that passes the clip tests
      leaves its colour in its own frame word, or, when that is the transparent colour,
      what was there. */
  lemma DrawnWord(mem: seq<bv8>, pic: Picture, p: Placement, r: int, c: int)
    requires Supported(pic) && Small(pic) && InLines(p, pic.width)
    requires 0 <= r < Window(pic.height, p.hFit) && 0 <= c < Window(pic.width, p.wFit)
    requires 0 <= Addr(p, r, c) && Addr(p, r, c) + 4 <= |mem|
    ensures WordAt(Apply(mem, DrawLog(pic, p)), Addr(p, r, c)) ==
            if p.key == Some(DrawnRgb(pic, r, c)) then WordAt(mem, Addr(p, r, c)) else DrawnRgb(pic, r, c)
  {
    hide Bits, PixelAt, Colour, PictureRgb, BlitLog, Apply, Word, At, FrameAddr, InLines, SwapRedBlue;
    ToShortKeeps(pic.width);
    ToShortKeeps(pic.height);
    WindowInside(pic.width, p.wFit, c);
    WindowInside(pic.height, p.hFit, r);
    LoadedColour(pic, r, c);
    BlitWord(mem, Bits(pic), pic.width, pic.height, p, r, c);
  }

  /** From picture to screen: drawing an RGB picture whose columns lie inside the frame
      lines leaves in frame word (y+r, x+c) the colour of picture pixel (r, c), or what
      was there when that is the transparent colour. */
  lemma PictureOnScreen(mem: seq<bv8>, pic: Picture, base: int, stride: int, x: int, y: int, key: bv32, r: int, c: int)
    requires pic.bytesPerPixel == 3 && Small(pic) && 0 <= r < pic.height && 0 <= c < pic.width
    requires 0 <= x && x + pic.width <= stride
    requires 0 <= FrameAddr(base, stride, y + r, x + c) && FrameAddr(base, stride, y + r, x + c) + 4 <= |mem|
    ensures WordAt(Apply(mem, DrawLog(pic, Sprite(pic, base, stride, x, y, key))), FrameAddr(base, stride, y + r, x + c)) ==
            if PictureRgb(pic, r, c) == key then WordAt(mem, FrameAddr(base, stride, y + r, x + c)) else PictureRgb(pic, r, c)
  {
    hide PictureRgb, DrawLog, Apply, Word, FrameAddr;
    SpriteWord(mem, Draw(pic, x, y, key), base, stride, r, c);
  }

  /** The row copy of DispIMAGE shows the same colours, in the low 24 bits of the words
      at the frame's origin. */
  lemma CopyOnScreen(mem: seq<bv8>, pic: Picture, base: int, stride: int, r: int, c: int)
    requires Supported(pic) && Small(pic) && 0 <= r < pic.height && 0 <= c < pic.width <= stride
    requires 0 <= FrameAddr(base, stride, r, c) && FrameAddr(base, stride, r, c) + 4 <= |mem|
    ensures var log := Grid(CopyEmit(Bits(pic), pic.width, base, stride), pic.height, pic.width);
            Low24(WordAt(Apply(mem, log), FrameAddr(base, stride, r, c))) == DrawnRgb(pic, r, c)
  {
    hide *;
    OriginWord(mem, pic, base, stride, r, c);
    DrawnBound(pic, r, c);
    FastFromSlow(mem, Bits(pic), pic.width, pic.height, base, stride, r, c, DrawnRgb(pic, r, c));
  }

  lemma FastFromSlow(mem: seq<bv8>, src: seq<bv8>, w: int, h: int, base: int, stride: int, r: int, c: int, drawn: bv32)
    requires 0 <= FrameAddr(base, stride, r, c) && FrameAddr(base, stride, r, c) + 4 <= |mem|
    requires Low24(drawn) == drawn
    requires WordAt(Apply(mem, BlitLog(src, w, h, Origin(base, stride, w, h))), FrameAddr(base, stride, r, c)) == drawn
    ensures Low24(WordAt(Apply(mem, Grid(CopyEmit(src, w, base, stride), h, w)), FrameAddr(base, stride, r, c))) == drawn
  {
    hide Apply, WordAt, Grid, CopyEmit, BlitLog, Last, Low24;
    FastBlitAgrees(mem, src, w, h, base, stride, r * stride + c);
  }

  lemma OriginWord(mem: seq<bv8>, pic: Picture, base: int, stride: int, r: int, c: int)
    requires Supported(pic) && Small(pic) && 0 <= r < pic.height && 0 <= c < pic.width <= stride
    requires 0 <= FrameAddr(base, stride, r, c) && FrameAddr(base, stride, r, c) + 4 <= |mem|
    ensures WordAt(Apply(mem, BlitLog(Bits(pic), pic.width, pic.height, Origin(base, stride, pic.width, pic.height))),
                   FrameAddr(base, stride, r, c)) == DrawnRgb(pic, r, c)
  {
    hide Bits, DrawnRgb, BlitLog, Apply, WordAt, FrameAddr;
    var p := Origin(base, stride, pic.width, pic.height);
    ToShortKeeps(pic.width);
    ToShortKeeps(pic.height);
    assert Addr(p, r, c) == FrameAddr(base, stride, r, c);
    DrawnWord(mem, pic, p, r, c);
  }

  lemma DrawnBound(pic: Picture, r: int, c: int)
    ensures Low24(DrawnRgb(pic, r, c)) == DrawnRgb(pic, r, c)
  {
  }

  /** A byte of the frame rectangle of w by h words at (x, y). */
  ghost predicate InRect(base: int, stride: int, x: int, y: int, w: int, h: int, a: int)
  {
    exists row :: y <= row < y + h && FrameAddr(base, stride, row, x) <= a < FrameAddr(base, stride, row, x + w)
  }

  /** ... and every byte outside the picture's rectangle keeps its value. */
  lemma RestOfScreen(mem: seq<bv8>, pic: Picture, base: int, stride: int, x: int, y: int, key: bv32, a: int)
    requires Small(pic) && !InRect(base, stride, x, y, pic.width, pic.height, a)
    ensures var log := DrawLog(pic, Sprite(pic, base, stride, x, y, key));
            Last(log, a).None? && (0 <= a < |mem| ==> Apply(mem, log)[a] == mem[a])
  {
    hide Bits, BlitLog, Apply, Last, FrameAddr;
    var p := Sprite(pic, base, stride, x, y, key);
    ToShortKeeps(pic.width);
    ToShortKeeps(pic.height);
    forall r | 0 <= r < Window(pic.height, p.hFit)
      ensures !InSpan(p, r, Window(pic.width, p.wFit), a)
    {
      var row := r + y;
      assert !(FrameAddr(base, stride, row, x) <= a < FrameAddr(base, stride, row, x + pic.width));
    }
    BlitElsewhere(mem, Bits(pic), pic.width, pic.height, p, a);
  }

  /** Drawing a picture twice is drawing it once. */
  lemma DrawTwice(mem: seq<bv8>, pic: Picture, p: Placement)
    ensures Apply(Apply(mem, DrawLog(pic, p)), DrawLog(pic, p)) == Apply(mem, DrawLog(pic, p))
  {
    ApplyTwice(mem, DrawLog(pic, p));
  }

  // ----- several pictures -----

  datatype Draw = Draw(pic: Picture, x: int, y: int, key: bv32)

  function LogOf(base: int, stride: int, d: Draw): seq<Store>
  {
    DrawLog(d.pic, Sprite(d.pic, base, stride, d.x, d.y, d.key))
  }

  function LogsOf(base: int, stride: int, draws: seq<Draw>): (logs: seq<seq<Store>>)
    ensures |logs| == |draws| && forall i :: 0 <= i < |draws| ==> logs[i] == LogOf(base, stride, draws[i])
  {
    seq(|draws|, i requires 0 <= i < |draws| => LogOf(base, stride, draws[i]))
  }

  function DrawAll(mem: seq<bv8>, base: int, stride: int, draws: seq<Draw>): (r: seq<bv8>)
    ensures |r| == |mem|
  {
    ApplyAll(mem, LogsOf(base, stride, draws))
  }

  /** The draw stays inside the frame lines. */
  ghost predicate OnLines(stride: int, d: Draw)
  {
    Small(d.pic) && 0 <= d.x && d.x + d.pic.width <= stride
  }

  ghost predicate RectanglesApart(d: Draw, e: Draw)
  {
    || d.x + d.pic.width <= e.x || e.x + e.pic.width <= d.x
    || d.y + d.pic.height <= e.y || e.y + e.pic.height <= d.y
  }

  /** One byte lies in spans of two lines only if they are the same line and their columns meet. */
  lemma SpansMeet(base: int, stride: int, row: int, x: int, w: int, row': int, x': int, w': int, a: int)
    requires 0 <= x && x + w <= stride && 0 <= x' && x' + w' <= stride
    requires FrameAddr(base, stride, row, x) <= a < FrameAddr(base, stride, row, x + w)
    requires FrameAddr(base, stride, row', x') <= a < FrameAddr(base, stride, row', x' + w')
    ensures row == row' && x < x' + w' && x' < x + w
  {
    var n := (a - base) / 4;
    CellUnique(row, n - row * stride, row', n - row' * stride, stride);
  }

  lemma ApartRectanglesApartLogs(base: int, stride: int, d: Draw, e: Draw)
    requires OnLines(stride, d) && OnLines(stride, e) && RectanglesApart(d, e)
    ensures Apart(LogOf(base, stride, d), LogOf(base, stride, e))
  {
    hide DrawLog, FrameAddr, Last;
    forall a
      ensures Last(LogOf(base, stride, d), a).None? || Last(LogOf(base, stride, e), a).None?
    {
      if !InRect(base, stride, d.x, d.y, d.pic.width, d.pic.height, a) {
        RestOfScreen([], d.pic, base, stride, d.x, d.y, d.key, a);
      } else if !InRect(base, stride, e.x, e.y, e.pic.width, e.pic.height, a) {
        RestOfScreen([], e.pic, base, stride, e.x, e.y, e.key, a);
      } else {
        var row :| d.y <= row < d.y + d.pic.height &&
                   FrameAddr(base, stride, row, d.x) <= a < FrameAddr(base, stride, row, d.x + d.pic.width);
        var row' :| e.y <= row' < e.y + e.pic.height &&
                    FrameAddr(base, stride, row', e.x) <= a < FrameAddr(base, stride, row', e.x + e.pic.width);
        SpansMeet(base, stride, row, d.x, d.pic.width, row', e.x, e.pic.width, a);
      }
    }
  }

  /** Draws into disjoint rectangles commute. */
  lemma DisjointDrawsCommute(mem: seq<bv8>, base: int, stride: int, d: Draw, e: Draw)
    requires OnLines(stride, d) && OnLines(stride, e) && RectanglesApart(d, e)
    ensures Apply(Apply(mem, LogOf(base, stride, d)), LogOf(base, stride, e))
         == Apply(Apply(mem, LogOf(base, stride, e)), LogOf(base, stride, d))
  {
    ApartRectanglesApartLogs(base, stride, d, e);
    ApplyCommute(mem, LogOf(base, stride, d), LogOf(base, stride, e));
  }

  /** Any two lists of the same draws, in any order and with any repetitions, leave the
      same frame when different draws go to disjoint rectangles. */
  lemma DrawOrderIrrelevant(mem: seq<bv8>, base: int, stride: int, draws: seq<Draw>, again: seq<Draw>)
    requires forall d :: d in draws <==> d in again
    requires forall d :: d in draws ==> OnLines(stride, d)
    requires forall d, e :: d in draws && e in draws && d != e ==> RectanglesApart(d, e)
    ensures DrawAll(mem, base, stride, draws) == DrawAll(mem, base, stride, again)
  {
    hide DrawLog, LogOf, ApplyAll, RectanglesApart, OnLines, LogsOf;
    var logs, logs' := LogsOf(base, stride, draws), LogsOf(base, stride, again);
    LogsNoClash(base, stride, draws);
    SameLogs(base, stride, draws, again, logs, logs');
    SameLogs(base, stride, again, draws, logs', logs);
    OrderIrrelevant(mem, logs, logs');
  }

  lemma LogsNoClash(base: int, stride: int, draws: seq<Draw>)
    requires forall d :: d in draws ==> OnLines(stride, d)
    requires forall d, e :: d in draws && e in draws && d != e ==> RectanglesApart(d, e)
    ensures NoClash(LogsOf(base, stride, draws))
  {
    hide DrawLog, LogOf, RectanglesApart, OnLines, Apart, LogsOf;
    var logs := LogsOf(base, stride, draws);
    forall u, v | u in logs && v in logs && u != v
      ensures Apart(u, v)
    {
      var i :| 0 <= i < |logs| && logs[i] == u;
      var j :| 0 <= j < |logs| && logs[j] == v;
      ApartRectanglesApartLogs(base, stride, draws[i], draws[j]);
    }
  }

  /** Another draw stores nothing on a pixel of this one. */
  lemma OtherDrawMisses(base: int, stride: int, d: Draw, e: Draw, r: int, c: int, a: int)
    requires OnLines(stride, d) && OnLines(stride, e) && RectanglesApart(d, e)
    requires 0 <= r < d.pic.height && 0 <= c < d.pic.width
    requires FrameAddr(base, stride, d.y + r, d.x + c) <= a < FrameAddr(base, stride, d.y + r, d.x + c) + 4
    ensures Last(LogOf(base, stride, e), a).None?
  {
    hide DrawLog, Last;
    if InRect(base, stride, e.x, e.y, e.pic.width, e.pic.height, a) {
      var row :| e.y <= row < e.y + e.pic.height &&
                 FrameAddr(base, stride, row, e.x) <= a < FrameAddr(base, stride, row, e.x + e.pic.width);
      SpansMeet(base, stride, d.y + r, d.x, d.pic.width, row, e.x, e.pic.width, a);
      assert false;
    }
    RestOfScreen([], e.pic, base, stride, e.x, e.y, e.key, a);
  }

  /** On a pixel of one draw, all the draws together do what that draw does alone. */
  lemma DrawAllByte(mem: seq<bv8>, base: int, stride: int, draws: seq<Draw>, d: Draw, r: int, c: int, a: int)
    requires forall e :: e in draws ==> OnLines(stride, e)
    requires forall e, f :: e in draws && f in draws && e != f ==> RectanglesApart(e, f)
    requires d in draws && 0 <= r < d.pic.height && 0 <= c < d.pic.width
    requires FrameAddr(base, stride, d.y + r, d.x + c) <= a < FrameAddr(base, stride, d.y + r, d.x + c) + 4
    requires 0 <= a < |mem|
    ensures DrawAll(mem, base, stride, draws)[a] == Apply(mem, LogOf(base, stride, d))[a]
  {
    hide DrawLog, LogOf, ApplyAll, RectanglesApart, OnLines, LogsOf, FrameAddr, Apply, Last, NoClash;
    var logs, mine := LogsOf(base, stride, draws), LogOf(base, stride, d);
    ApplyAt(mem, mine, a);
    var i :| 0 <= i < |draws| && draws[i] == d;
    assert logs[i] == mine;
    if Last(mine, a).Some? {
      LogsNoClash(base, stride, draws);
      ApplyAllAt(mem, logs, a);
    } else {
      forall u | u in logs
        ensures Last(u, a).None?
      {
        var j :| 0 <= j < |logs| && logs[j] == u;
        if draws[j] != d {
          OtherDrawMisses(base, stride, d, draws[j], r, c, a);
        }
      }
      ApplyAllMiss(mem, logs, a);
    }
  }

  /** After a list of draws into disjoint rectangles every pixel of every picture has its
      colour in its own word, or left it as it was if that is its transparent colour. */
  lemma DrawAllWord(mem: seq<bv8>, base: int, stride: int, draws: seq<Draw>, d: Draw, r: int, c: int)
    requires forall e :: e in draws ==> OnLines(stride, e)
    requires forall e, f :: e in draws && f in draws && e != f ==> RectanglesApart(e, f)
    requires d in draws && Supported(d.pic) && 0 <= r < d.pic.height && 0 <= c < d.pic.width
    requires 0 <= FrameAddr(base, stride, d.y + r, d.x + c) && FrameAddr(base, stride, d.y + r, d.x + c) + 4 <= |mem|
    ensures WordAt(DrawAll(mem, base, stride, draws), FrameAddr(base, stride, d.y + r, d.x + c)) ==
            if DrawnRgb(d.pic, r, c) == d.key then WordAt(mem, FrameAddr(base, stride, d.y + r, d.x + c)) else DrawnRgb(d.pic, r, c)
  {
    hide DrawLog, ApplyAll, RectanglesApart, LogsOf, FrameAddr, Apply, Word, DrawnRgb, DrawAll;
    var a, alone := FrameAddr(base, stride, d.y + r, d.x + c), Apply(mem, LogOf(base, stride, d));
    assert WordAt(DrawAll(mem, base, stride, draws), a) == WordAt(alone, a) by {
      DrawAllByte(mem, base, stride, draws, d, r, c, a);
      DrawAllByte(mem, base, stride, draws, d, r, c, a + 1);
      DrawAllByte(mem, base, stride, draws, d, r, c, a + 2);
      DrawAllByte(mem, base, stride, draws, d, r, c, a + 3);
    }
    assert OnLines(stride, d);
    SpriteWord(mem, d, base, stride, r, c);
  }

  lemma SpriteWord(mem: seq<bv8>, d: Draw, base: int, stride: int, r: int, c: int)
    requires Supported(d.pic) && OnLines(stride, d) && 0 <= r < d.pic.height && 0 <= c < d.pic.width
    requires 0 <= FrameAddr(base, stride, d.y + r, d.x + c) && FrameAddr(base, stride, d.y + r, d.x + c) + 4 <= |mem|
    ensures WordAt(Apply(mem, LogOf(base, stride, d)), FrameAddr(base, stride, d.y + r, d.x + c)) ==
            if DrawnRgb(d.pic, r, c) == d.key then WordAt(mem, FrameAddr(base, stride, d.y + r, d.x + c)) else DrawnRgb(d.pic, r, c)
  {
    hide DrawLog, Apply, Word, FrameAddr, DrawnRgb;
    var p := Sprite(d.pic, base, stride, d.x, d.y, d.key);
    ToShortKeeps(d.pic.width);
    ToShortKeeps(d.pic.height);
    assert Addr(p, r, c) == FrameAddr(base, stride, d.y + r, d.x + c);
    DrawnWord(mem, d.pic, p, r, c);
  }

  /** And a byte in no picture's rectangle keeps its value, disjoint or not. */
  lemma DrawAllElsewhere(mem: seq<bv8>, base: int, stride: int, draws: seq<Draw>, a: int)
    requires 0 <= a < |mem|
    requires forall d :: d in draws ==> Small(d.pic) && !InRect(base, stride, d.x, d.y, d.pic.width, d.pic.height, a)
    ensures DrawAll(mem, base, stride, draws)[a] == mem[a]
  {
    hide DrawLog, ApplyAll, LogsOf, InRect, Last;
    var logs := LogsOf(base, stride, draws);
    forall u | u in logs
      ensures Last(u, a).None?
    {
      var j :| 0 <= j < |logs| && logs[j] == u;
      var d := draws[j];
      assert d in draws;
      RestOfScreen(mem, d.pic, base, stride, d.x, d.y, d.key, a);
    }
    ApplyAllMiss(mem, logs, a);
  }

  lemma SameLogs(base: int, stride: int, draws: seq<Draw>, again: seq<Draw>, logs: seq<seq<Store>>, logs': seq<seq<Store>>)
    requires forall d :: d in draws ==> d in again
    requires |logs| == |draws| && forall i :: 0 <= i < |draws| ==> logs[i] == LogOf(base, stride, draws[i])
    requires |logs'| == |again| && forall i :: 0 <= i < |again| ==> logs'[i] == LogOf(base, stride, again[i])
    ensures forall u :: u in logs ==> u in logs'
  {
    hide LogOf;
    forall u | u in logs
      ensures u in logs'
    {
      var i :| 0 <= i < |logs| && logs[i] == u;
      assert draws[i] in again;
      var j :| 0 <= j < |again| && again[j] == draws[i];
      assert logs'[j] == u;
    }
  }

  ghost predicate Sized(pic: Picture, w: nat, h: nat)
  {
    pic.width == w && pic.height == h
  }

  /** The five buttons of the transport panel, at the places init_background draws them
      and with the sizes of their image files, may be drawn in any order. */
  lemma PanelOrderIrrelevant(mem: seq<bv8>, base: int, play: Picture, stop: Picture, pause: Picture, back: Picture, ford: Picture,
                             again: seq<Draw>)
    requires Sized(play, 94, 109) && Sized(stop, 98, 111) && Sized(pause, 108, 112) && Sized(back, 61, 57) && Sized(ford, 61, 57)
    requires var panel := [Draw(play, 296, 45, 0), Draw(stop, 404, 45, 0), Draw(pause, 523, 45, 0), Draw(back, 333, 177, 0), Draw(ford, 512, 177, 0)];
             forall d :: d in panel <==> d in again
    ensures var panel := [Draw(play, 296, 45, 0), Draw(stop, 404, 45, 0), Draw(pause, 523, 45, 0), Draw(back, 333, 177, 0), Draw(ford, 512, 177, 0)];
            DrawAll(mem, base, 800, again) == DrawAll(mem, base, 800, panel)
  {
    var panel := [Draw(play, 296, 45, 0), Draw(stop, 404, 45, 0), Draw(pause, 523, 45, 0), Draw(back, 333, 177, 0), Draw(ford, 512, 177, 0)];
    DrawOrderIrrelevant(mem, base, 800, panel, again);
  }

  // ----- the picture the device shows -----

  /** The rectangle of the draw lies on the screen. */
  ghost predicate OnScreen(st: VipFr.Reader, d: Draw)
  {
    && Supported(d.pic) && Small(d.pic)
    && 0 <= d.x && d.x + d.pic.width <= st.width && 0 <= d.y && d.y + d.pic.height <= st.height
  }

  /** Frame word (row, col) lies inside a frame of w by h words, at this offset. */
  lemma WordInFrame(base: nat, w: int, h: int, row: int, col: int)
    requires 0 <= col < w && 0 <= row < h
    ensures FrameAddr(base, w, row, col) == base + FrameAddr(0, w, row, col)
    ensures 0 <= FrameAddr(0, w, row, col) && FrameAddr(0, w, row, col) + 4 <= w * h * 4
  {
    MulMono(0, row, w);
    MulMono(row + 1, h, w);
    assert h * w == w * h;
  }

  /** A draw on the screen meets what the drawing routine asks of its caller. */
  lemma OnScreenIsInside(st: VipFr.Reader, d: Draw)
    requires VipFr.Configured(st) && OnScreen(st, d)
    ensures GridInside(BlitEmit(Bits(d.pic), ToShort(d.pic.width), Sprite(d.pic, VipFr.ShowBase(st), st.width, d.x, d.y, d.key)),
                       ToShort(d.pic.height), ToShort(d.pic.width), |st.mem|)
  {
    var base, p := VipFr.ShowBase(st), Sprite(d.pic, VipFr.ShowBase(st), st.width, d.x, d.y, d.key);
    var e := BlitEmit(Bits(d.pic), ToShort(d.pic.width), p);
    ToShortKeeps(d.pic.width);
    ToShortKeeps(d.pic.height);
    hide Bits, Colour, PixelAt, FrameAddr, ByteOf;
    forall r, c | 0 <= r < ToShort(d.pic.height) && 0 <= c < ToShort(d.pic.width)
      ensures Inside(e(r, c), |st.mem|)
    {
      WordInFrame(base, st.width, st.height, r + d.y, c + d.x);
    }
  }

  /** The part of the picture that passes the clip tests lies on the screen. */
  ghost predicate WindowOnScreen(st: VipFr.Reader, pic: Picture, p: Placement)
  {
    && Supported(pic) && Small(pic)
    && 0 <= p.x && p.x + Window(pic.width, p.wFit) <= st.width
    && 0 <= p.y && p.y + Window(pic.height, p.hFit) <= st.height
  }

  /** The placement goes into the frame the device shows. */
  ghost predicate IntoShown(st: VipFr.Reader, p: Placement)
  {
    p.base == VipFr.ShowBase(st) && p.stride == st.width
  }

  /** What the screen holds after a picture has been drawn: in word (y+r, x+c) the colour
      of picture pixel (r, c), or what was there when that is the transparent colour,
      and everywhere else what was there. */
  ghost predicate ShowsPicture(before: VipFr.Reader, after: VipFr.Reader, pic: Picture, p: Placement)
  {
    && VipFr.Configured(before) && VipFr.Configured(after) && VipFr.Size(after) == VipFr.Size(before)
    && (forall r, c :: 0 <= r < Window(pic.height, p.hFit) && 0 <= c < Window(pic.width, p.wFit) ==>
          WordAt(VipFr.Shown(after), FrameAddr(0, before.width, p.y + r, p.x + c)) ==
          if p.key == Some(DrawnRgb(pic, r, c)) then WordAt(VipFr.Shown(before), FrameAddr(0, before.width, p.y + r, p.x + c))
          else DrawnRgb(pic, r, c))
    && (forall a :: 0 <= a < VipFr.Size(before) &&
                    !InRect(0, before.width, p.x, p.y, Window(pic.width, p.wFit), Window(pic.height, p.hFit), a) ==>
          At(VipFr.Shown(after), a) == At(VipFr.Shown(before), a))
  }

  function After(st: VipFr.Reader, log: seq<Store>): VipFr.Reader
  {
    st.(mem := Apply(st.mem, log))
  }

  lemma StaysConfigured(st: VipFr.Reader, log: seq<Store>)
    requires VipFr.Configured(st)
    ensures VipFr.Configured(After(st, log)) && VipFr.Size(After(st, log)) == VipFr.Size(st)
    ensures VipFr.ShowBase(After(st, log)) == VipFr.ShowBase(st)
  {
  }

  lemma PlacedWord(st: VipFr.Reader, pic: Picture, p: Placement, r: int, c: int)
    requires VipFr.Configured(st) && WindowOnScreen(st, pic, p) && IntoShown(st, p)
    requires 0 <= r < Window(pic.height, p.hFit) && 0 <= c < Window(pic.width, p.wFit)
    ensures VipFr.Configured(After(st, DrawLog(pic, p)))
    ensures var a := FrameAddr(0, st.width, p.y + r, p.x + c);
            WordAt(VipFr.Shown(After(st, DrawLog(pic, p))), a) ==
            if p.key == Some(DrawnRgb(pic, r, c)) then WordAt(VipFr.Shown(st), a) else DrawnRgb(pic, r, c)
  {
    hide DrawLog, DrawnRgb, Apply, WordAt, FrameAddr, VipFr.Shown, Window;
    var a := FrameAddr(0, st.width, p.y + r, p.x + c);
    StaysConfigured(st, DrawLog(pic, p));
    WordInFrame(p.base, st.width, st.height, p.y + r, p.x + c);
    ShownWord(st, a);
    ShownWord(After(st, DrawLog(pic, p)), a);
    assert Addr(p, r, c) == FrameAddr(p.base, p.stride, p.y + r, p.x + c);
    DrawnWord(st.mem, pic, p, r, c);
  }

  lemma PlacedElsewhere(st: VipFr.Reader, pic: Picture, p: Placement, a: int)
    requires VipFr.Configured(st) && WindowOnScreen(st, pic, p) && IntoShown(st, p)
    requires 0 <= a < VipFr.Size(st)
    requires !InRect(0, st.width, p.x, p.y, Window(pic.width, p.wFit), Window(pic.height, p.hFit), a)
    ensures VipFr.Configured(After(st, DrawLog(pic, p)))
    ensures At(VipFr.Shown(After(st, DrawLog(pic, p))), a) == At(VipFr.Shown(st), a)
  {
    hide Bits, BlitLog, Apply, FrameAddr, VipFr.Shown, Window;
    var q := p.base + a;
    StaysConfigured(st, DrawLog(pic, p));
    VipFr.ShownByte(st, q);
    VipFr.ShownByte(After(st, DrawLog(pic, p)), q);
    ToShortKeeps(pic.width);
    ToShortKeeps(pic.height);
    forall r | 0 <= r < Window(pic.height, p.hFit)
      ensures !InSpan(p, r, Window(pic.width, p.wFit), q)
    {
      BaseShift(p.base, p.stride, r + p.y, p.x);
      BaseShift(p.base, p.stride, r + p.y, p.x + Window(pic.width, p.wFit));
      var row := r + p.y;
      assert !(FrameAddr(0, st.width, row, p.x) <= a < FrameAddr(0, st.width, row, p.x + Window(pic.width, p.wFit)));
    }
    BlitElsewhere(st.mem, Bits(pic), pic.width, pic.height, p, q);
  }

  lemma BaseShift(base: int, stride: int, row: int, col: int)
    ensures FrameAddr(base, stride, row, col) == base + FrameAddr(0, stride, row, col)
    ensures FrameAddr(base, stride, row, col) == base + 4 * (row * stride + col)
  {
  }

  /** Drawing a picture on the screen shows it there. */
  lemma PlacedShown(st: VipFr.Reader, pic: Picture, p: Placement)
    requires VipFr.Configured(st) && WindowOnScreen(st, pic, p) && IntoShown(st, p)
    ensures ShowsPicture(st, After(st, DrawLog(pic, p)), pic, p)
  {
    hide DrawLog, DrawnRgb, After, WordAt, At, FrameAddr, VipFr.Shown, VipFr.Configured, VipFr.Size, Window, WindowOnScreen, InRect;
    StaysConfigured(st, DrawLog(pic, p));
    forall r, c | 0 <= r < Window(pic.height, p.hFit) && 0 <= c < Window(pic.width, p.wFit)
      ensures WordAt(VipFr.Shown(After(st, DrawLog(pic, p))), FrameAddr(0, st.width, p.y + r, p.x + c)) ==
              if p.key == Some(DrawnRgb(pic, r, c)) then WordAt(VipFr.Shown(st), FrameAddr(0, st.width, p.y + r, p.x + c))
              else DrawnRgb(pic, r, c)
    {
      PlacedWord(st, pic, p, r, c);
    }
    forall a | 0 <= a < VipFr.Size(st) &&
               !InRect(0, st.width, p.x, p.y, Window(pic.width, p.wFit), Window(pic.height, p.hFit), a)
      ensures At(VipFr.Shown(After(st, DrawLog(pic, p))), a) == At(VipFr.Shown(st), a)
    {
      PlacedElsewhere(st, pic, p, a);
    }
  }

  /** From picture to what the device shows, found from its registers: after the draw
      word (y+r, x+c) of the screen is the colour of picture pixel (r, c), or what it
      was when that is the transparent colour. */
  lemma PictureShown(st: VipFr.Reader, d: Draw, r: int, c: int)
    requires VipFr.Configured(st) && OnScreen(st, d) && d.pic.bytesPerPixel == 3
    requires 0 <= r < d.pic.height && 0 <= c < d.pic.width
    ensures var st' := After(st, LogOf(VipFr.ShowBase(st), st.width, d));
            var a := 4 * ((d.y + r) * st.width + (d.x + c));
            VipFr.Configured(st') &&
            WordAt(VipFr.Shown(st'), a) ==
            if PictureRgb(d.pic, r, c) == d.key then WordAt(VipFr.Shown(st), a) else PictureRgb(d.pic, r, c)
  {
    hide DrawLog, PictureRgb, Apply, WordAt, FrameAddr, VipFr.Shown, VipFr.Configured;
    var p := Sprite(d.pic, VipFr.ShowBase(st), st.width, d.x, d.y, d.key);
    ToShortKeeps(d.pic.width);
    ToShortKeeps(d.pic.height);
    BaseShift(0, st.width, d.y + r, d.x + c);
    PlacedWord(st, d.pic, p, r, c);
  }

  /** The stores of DispIMAGE. */
  function CopyLog(pic: Picture, base: int, stride: int): seq<Store>
  {
    Grid(CopyEmit(Bits(pic), ToShort(pic.width), base, stride), ToShort(pic.height), ToShort(pic.width))
  }

  /** What the screen holds after the row copy: the picture's colours from the top left
      corner on, in the low 24 bits, and everywhere else what was there. */
  ghost predicate ShowsCopy(before: VipFr.Reader, after: VipFr.Reader, pic: Picture)
  {
    && VipFr.Configured(before) && VipFr.Configured(after) && VipFr.Size(after) == VipFr.Size(before)
    && (forall r, c :: 0 <= r < pic.height && 0 <= c < pic.width ==>
          Low24(WordAt(VipFr.Shown(after), FrameAddr(0, before.width, r, c))) == DrawnRgb(pic, r, c))
    && (forall a :: 0 <= a < VipFr.Size(before) && !InRect(0, before.width, 0, 0, pic.width, pic.height, a) ==>
          At(VipFr.Shown(after), a) == At(VipFr.Shown(before), a))
  }

  lemma CopyShown(st: VipFr.Reader, pic: Picture)
    requires VipFr.Configured(st) && Supported(pic) && Small(pic) && pic.width <= st.width && pic.height <= st.height
    ensures ShowsCopy(st, After(st, CopyLog(pic, VipFr.ShowBase(st), st.width)), pic)
  {
    hide CopyLog, DrawnRgb, After, WordAt, At, FrameAddr, Low24, VipFr.Shown, VipFr.Configured, VipFr.Size, InRect;
    var log := CopyLog(pic, VipFr.ShowBase(st), st.width);
    StaysConfigured(st, log);
    forall r, c | 0 <= r < pic.height && 0 <= c < pic.width
      ensures Low24(WordAt(VipFr.Shown(After(st, log)), FrameAddr(0, st.width, r, c))) == DrawnRgb(pic, r, c)
    {
      CopiedWord(st, pic, r, c);
    }
    forall a | 0 <= a < VipFr.Size(st) && !InRect(0, st.width, 0, 0, pic.width, pic.height, a)
      ensures At(VipFr.Shown(After(st, log)), a) == At(VipFr.Shown(st), a)
    {
      CopiedElsewhere(st, pic, a);
    }
  }

  lemma CopiedWord(st: VipFr.Reader, pic: Picture, r: int, c: int)
    requires VipFr.Configured(st) && Supported(pic) && Small(pic) && pic.width <= st.width && pic.height <= st.height
    requires 0 <= r < pic.height && 0 <= c < pic.width
    ensures var after := After(st, CopyLog(pic, VipFr.ShowBase(st), st.width));
            VipFr.Configured(after) && Low24(WordAt(VipFr.Shown(after), FrameAddr(0, st.width, r, c))) == DrawnRgb(pic, r, c)
  {
    hide Bits, DrawnRgb, Apply, WordAt, FrameAddr, Low24, Grid, CopyEmit, VipFr.Shown;
    var base := VipFr.ShowBase(st);
    StaysConfigured(st, CopyLog(pic, base, st.width));
    WordInFrame(base, st.width, st.height, r, c);
    ShownWord(After(st, CopyLog(pic, base, st.width)), FrameAddr(0, st.width, r, c));
    ToShortKeeps(pic.width);
    ToShortKeeps(pic.height);
    CopyOnScreen(st.mem, pic, base, st.width, r, c);
  }

  lemma CopiedElsewhere(st: VipFr.Reader, pic: Picture, a: int)
    requires VipFr.Configured(st) && Small(pic)
    requires 0 <= a < VipFr.Size(st) && !InRect(0, st.width, 0, 0, pic.width, pic.height, a)
    ensures var after := After(st, CopyLog(pic, VipFr.ShowBase(st), st.width));
            VipFr.Configured(after) && At(VipFr.Shown(after), a) == At(VipFr.Shown(st), a)
  {
    hide Bits, Apply, FrameAddr, Grid, CopyEmit, VipFr.Shown;
    var base := VipFr.ShowBase(st);
    var log := CopyLog(pic, base, st.width);
    StaysConfigured(st, log);
    VipFr.ShownByte(st, base + a);
    VipFr.ShownByte(After(st, log), base + a);
    ToShortKeeps(pic.width);
    ToShortKeeps(pic.height);
    forall r | 0 <= r < pic.height
      ensures !(FrameAddr(base, st.width, r, 0) <= base + a < FrameAddr(base, st.width, r, pic.width))
    {
      BaseShift(base, st.width, r, 0);
      BaseShift(base, st.width, r, pic.width);
      assert !(FrameAddr(0, st.width, r, 0) <= a < FrameAddr(0, st.width, r, 0 + pic.width));
    }
    CopyElsewhere(st.mem, Bits(pic), pic.width, pic.height, base, st.width, base + a);
  }

  lemma ShownWord(st: VipFr.Reader, a: int)
    requires VipFr.Configured(st) && 0 <= a && a + 4 <= VipFr.Size(st)
    ensures WordAt(VipFr.Shown(st), a) == WordAt(st.mem, VipFr.ShowBase(st) + a)
  {
    hide Word;
    VipFr.ViewIs(st);
  }

  // ----- the drawing routines -----

  /** What the routines ask of an image: its bytes are there, and its bitmap's size
      is an int. */
  ghost predicate Drawable(image: GimpImage)
    reads image.pixelData
  {
    image.Valid() && Supported(PictureOf(image)) && image.width * image.height * 4 < 0x8000_0000
  }

  ghost predicate SameCells(e: (int, int) -> seq<Store>, f: (int, int) -> seq<Store>, m: int, w: int)
  {
    forall r, c :: 0 <= r < m && 0 <= c < w ==> e(r, c) == f(r, c)
  }

  /** Only the bytes of the loaded bitmap are read. */
  lemma OnlyBitsRead(pic: Picture, data: seq<bv8>, p: Placement)
    requires Loaded(pic.width, pic.height) * 4 <= |data| && data[..Loaded(pic.width, pic.height) * 4] == Bits(pic)
    ensures var w, h := ToShort(pic.width), ToShort(pic.height);
            SameCells(BlitEmit(data, w, p), BlitEmit(Bits(pic), w, p), h, w) &&
            SameCells(CopyEmit(data, w, p.base, p.stride), CopyEmit(Bits(pic), w, p.base, p.stride), h, w)
  {
    var w, h := ToShort(pic.width), ToShort(pic.height);
    hide Bits, PixelAt, Rgb, WordStores, Word, ToShort, Addr;
    forall r, c | 0 <= r < h && 0 <= c < w
      ensures CellStores(data, w, p, r, c) == CellStores(Bits(pic), w, p, r, c)
      ensures WordAt(data, PixelAt(4, w, r, c)) == WordAt(Bits(pic), PixelAt(4, w, r, c))
    {
      PixelAtNumber(4, w, r, c);
      CellInGrid(r, c, w, h);
      SameBytes(data, Bits(pic), PixelAt(4, w, r, c));
    }
  }

  lemma SameGrids(e: (int, int) -> seq<Store>, f: (int, int) -> seq<Store>, m: int, w: int, size: nat)
    requires SameCells(e, f, m, w)
    ensures Grid(e, m, w) == Grid(f, m, w)
    ensures GridInside(f, m, w, size) ==> GridInside(e, m, w, size)
  {
    GridSame(e, f, m, w);
  }

  lemma SameBytes(data: seq<bv8>, bits: seq<bv8>, s: nat)
    requires s + 4 <= |bits| <= |data| && data[..|bits|] == bits
    ensures At(data, s) == At(bits, s) && At(data, s + 1) == At(bits, s + 1)
    ensures At(data, s + 2) == At(bits, s + 2) && At(data, s + 3) == At(bits, s + 3)
  {
    assert forall i :: 0 <= i < |bits| ==> data[..|bits|][i] == data[i];
  }

  method LoadForScreen(image: GimpImage) returns (bitmap: Bitmap)
    requires Drawable(image)
    ensures fresh(bitmap) && fresh(bitmap.data)
    ensures bitmap.biWidth == ToShort(image.width) && bitmap.biHeight == ToShort(image.height)
    ensures Fits(bitmap.data.Length, 4, bitmap.biWidth, bitmap.biWidth, bitmap.biHeight)
    ensures var n := Loaded(image.width, image.height) * 4;
            n <= bitmap.data.Length && bitmap.data[..n] == Bits(PictureOf(image))
  {
    bitmap := new Bitmap();
    var retCode := LoadGimpBmp(image, bitmap, 32);
    LoadFits(C32To32, bitmap.data.Length, 4, image.width, image.height);
  }

  /** DispIMAGE_from_gimp: the sprite goes into the frame on the screen. */
  method DispImageFromGimp(display: VipFr.FrameReader, image: GimpImage, x: int, y: int, transparent: bv32) returns (ok: int)
    requires Drawable(image) && display.sdram != image.pixelData
    requires var pic := PictureOf(image);
             GridInside(BlitEmit(Bits(pic), ToShort(pic.width), Sprite(pic, VipFr.ShowBase(display.State()), display.width, x, y, transparent)),
                        ToShort(pic.height), ToShort(pic.width), display.sdram.Length)
    modifies display.sdram
    ensures ok == 1
    ensures display.State() ==
            After(old(display.State()),
                  LogOf(VipFr.ShowBase(old(display.State())), display.width, Draw(old(PictureOf(image)), x, y, transparent)))
    ensures var pic, before := old(PictureOf(image)), old(display.State());
            var p := Sprite(pic, VipFr.ShowBase(before), before.width, x, y, transparent);
            VipFr.Configured(before) && WindowOnScreen(before, pic, p) ==> ShowsPicture(before, display.State(), pic, p)
  {
    hide Apply, Bits, Grid, GridInside, Fits, BlitEmit, CopyEmit, SameCells;
    ghost var pic, before := PictureOf(image), display.State();
    var bitmap := LoadForScreen(image);
    var imageDest := if display.displayFrame == 0 then display.frame0Base else display.frame1Base;
    ghost var p := Sprite(pic, imageDest, display.width, x, y, transparent);
    OnlyBitsRead(pic, bitmap.data[..], p);
    SameGrids(BlitEmit(bitmap.data[..], bitmap.biWidth, p), BlitEmit(Bits(pic), bitmap.biWidth, p), bitmap.biHeight, bitmap.biWidth,
              display.sdram.Length);
    AsVidCopyImageToBuffer3(display.sdram, imageDest, bitmap.data, display.width, bitmap.biWidth, bitmap.biHeight,
                            x, y, bitmap.biWidth, bitmap.biHeight, transparent);
    if VipFr.Configured(before) && WindowOnScreen(before, pic, p) {
      PlacedShown(before, pic, p);
    }
    return 1;
  }

  /** DispIMAGE_fit: no transparency, cut off after column w and row h. */
  method DispImageFit(display: VipFr.FrameReader, image: GimpImage, x: int, y: int, w: int, h: int) returns (ok: int)
    requires Drawable(image) && display.sdram != image.pixelData
    requires var pic := PictureOf(image);
             GridInside(BlitEmit(Bits(pic), ToShort(pic.width), Placement(VipFr.ShowBase(display.State()), display.width, x, y, w, h, None)),
                        ToShort(pic.height), ToShort(pic.width), display.sdram.Length)
    modifies display.sdram
    ensures ok == 1
    ensures display.State() ==
            After(old(display.State()),
                  DrawLog(old(PictureOf(image)), Placement(VipFr.ShowBase(old(display.State())), display.width, x, y, w, h, None)))
    ensures var pic, before := old(PictureOf(image)), old(display.State());
            var p := Placement(VipFr.ShowBase(before), before.width, x, y, w, h, None);
            VipFr.Configured(before) && WindowOnScreen(before, pic, p) ==> ShowsPicture(before, display.State(), pic, p)
  {
    hide Apply, Bits, Grid, GridInside, Fits, BlitEmit, CopyEmit, SameCells;
    ghost var pic, before := PictureOf(image), display.State();
    var bitmap := LoadForScreen(image);
    var imageDest := if display.displayFrame == 0 then display.frame0Base else display.frame1Base;
    ghost var p := Placement(imageDest, display.width, x, y, w, h, None);
    OnlyBitsRead(pic, bitmap.data[..], p);
    SameGrids(BlitEmit(bitmap.data[..], bitmap.biWidth, p), BlitEmit(Bits(pic), bitmap.biWidth, p), bitmap.biHeight, bitmap.biWidth,
              display.sdram.Length);
    AsVidCopyImageToBuffer2(display.sdram, imageDest, bitmap.data, display.width, bitmap.biWidth, bitmap.biHeight, x, y, w, h);
    if VipFr.Configured(before) && WindowOnScreen(before, pic, p) {
      PlacedShown(before, pic, p);
    }
    return 1;
  }

  /** DispIMAGE: the row copy, which ignores the position it is given and draws at the
      frame's origin. */
  method DispImage(display: VipFr.FrameReader, x: int, y: int, image: GimpImage)
    requires Drawable(image) && display.sdram != image.pixelData
    requires 0 < ToShort(image.height) ==> 0 <= ToShort(image.width)
    requires forall row :: 0 <= row < ToShort(image.height) ==>
               0 <= FrameAddr(VipFr.ShowBase(display.State()), display.width, row, 0) &&
               FrameAddr(VipFr.ShowBase(display.State()), display.width, row, 0) + 4 * ToShort(image.width) <= display.sdram.Length
    modifies display.sdram
    ensures var pic, before := old(PictureOf(image)), old(display.State());
            display.State() == After(before, CopyLog(pic, VipFr.ShowBase(before), before.width))
    ensures var pic, before := old(PictureOf(image)), old(display.State());
            VipFr.Configured(before) && Small(pic) && pic.width <= before.width && pic.height <= before.height ==>
              ShowsCopy(before, display.State(), pic)
  {
    hide Apply, Bits, Grid, GridInside, Fits, BlitEmit, CopyEmit, SameCells, FrameAddr;
    ghost var pic, before := PictureOf(image), display.State();
    var bitmap := LoadForScreen(image);
    var imageDest := if display.displayFrame == 0 then display.frame0Base else display.frame1Base;
    OnlyBitsRead(pic, bitmap.data[..], Origin(imageDest, display.width, bitmap.biWidth, bitmap.biHeight));
    SameGrids(CopyEmit(bitmap.data[..], bitmap.biWidth, imageDest, display.width),
              CopyEmit(Bits(pic), bitmap.biWidth, imageDest, display.width), bitmap.biHeight, bitmap.biWidth, display.sdram.Length);
    forall row | 0 <= row < bitmap.biHeight
      ensures 0 <= FrameAddr(imageDest, display.width, row, 0)
      ensures FrameAddr(imageDest, display.width, row, 0) + 4 * bitmap.biWidth <= display.sdram.Length
    {
      assert 0 <= old(FrameAddr(VipFr.ShowBase(display.State()), display.width, row, 0));
    }
    AsVidCopyImageToBuffer(display.sdram, imageDest, bitmap.data, display.width, bitmap.biWidth, bitmap.biHeight);
    if VipFr.Configured(before) && Small(pic) && pic.width <= before.width && pic.height <= before.height {
      CopyShown(before, pic);
    }
  }
}
