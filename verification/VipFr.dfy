/**
 The double-buffered frame reader of lab5/Lab5_template_de1soc/software/lab5/vip_fr.c:
 a driver object, the registers of the video device and the memory both frames lie in.
 Register numbers are those of the C code: 0 run, 3 frame select, 4 and 11 frame bases,
 5 and 12 frame sizes in words.
 */
module VipFr {
  import opened Arith
  import opened Memory
  import opened Dma

  /** Everything the driver can change, as a value. */
  datatype Reader = Reader(frame0: nat, frame1: nat, displayFrame: int, width: int, height: int,
                           bytesPerPixel: int, interlace: int, regs: map<int, int>, mem: seq<bv8>)

  datatype Op = Erase(colour: bv32) | Reserve | Activate

  function Size(st: Reader): int
  {
    st.width * st.height * st.bytesPerPixel
  }

  function DrawBase(st: Reader): nat
  {
    if st.displayFrame == 0 then st.frame1 else st.frame0
  }

  function ShowBase(st: Reader): nat
  {
    if st.displayFrame == 0 then st.frame0 else st.frame1
  }

  function Filled(n: nat, colour: bv32): (r: seq<bv8>)
    ensures |r| == n
  {
    seq(n, _ => ByteOf(colour, 0))
  }

  ghost predicate FramesInMemory(st: Reader)
  {
    0 <= Size(st) && st.frame0 + Size(st) <= |st.mem| && st.frame1 + Size(st) <= |st.mem|
  }

  /** The frames share no byte. */
  ghost predicate FramesDisjoint(st: Reader)
  {
    st.frame0 + Size(st) <= st.frame1 || st.frame1 + Size(st) <= st.frame0
  }

  /** What one call of the driver does to its state. */
  function Step(st: Reader, op: Op): (r: Reader)
    requires FramesInMemory(st)
    ensures FramesInMemory(r) && Size(r) == Size(st) && r.frame0 == st.frame0 && r.frame1 == st.frame1
  {
    match op
    case Erase(colour) => st.(mem := Splice(st.mem, DrawBase(st), Filled(Size(st), colour)))
    case Reserve => st.(mem := CopyBlock(st.mem, DrawBase(st), ShowBase(st), Size(st)))
    case Activate =>
      var next := (st.displayFrame + 1) % 2;
      st.(displayFrame := next, regs := st.regs[3 := next])
  }

  function Run(st: Reader, ops: seq<Op>): (r: Reader)
    requires FramesInMemory(st)
    ensures FramesInMemory(r) && Size(r) == Size(st) && r.frame0 == st.frame0 && r.frame1 == st.frame1
  {
    if ops == [] then st else Step(Run(st, ops[..|ops| - 1]), ops[|ops| - 1])
  }

  // ----- what the device shows -----

  const AllRegisters: set<int> := {0, 3, 4, 5, 6, 8, 9, 10, 11, 12, 13, 15, 16, 17}

  /** The device registers agree with the driver object: run, frame select, and for each
      frame base, words, cycle, width, height and no interlacing. */
  ghost predicate Configured(st: Reader)
  {
    && AllRegisters <= st.regs.Keys
    && (st.displayFrame == 0 || st.displayFrame == 1)
    && st.regs[0] == 1 && st.regs[3] == st.displayFrame
    && st.regs[4] == st.frame0 && st.regs[11] == st.frame1
    && st.regs[6] == st.regs[13] == st.width * st.height
    && st.regs[8] == st.regs[15] == st.width && st.regs[9] == st.regs[16] == st.height
    && st.interlace == 0 && st.regs[10] == st.regs[17] == 0
    && st.bytesPerPixel == 4 && 4 * st.regs[5] == 4 * st.regs[12] == Size(st)
    && FramesInMemory(st)
  }

  /** The bytes on the screen, found from the device registers alone. */
  ghost function Shown(st: Reader): seq<bv8>
    requires Configured(st)
  {
    if st.regs[3] == 0 then st.mem[st.regs[4]..st.regs[4] + 4 * st.regs[5]]
    else st.mem[st.regs[11]..st.regs[11] + 4 * st.regs[12]]
  }

  ghost function Hidden(st: Reader): seq<bv8>
    requires Configured(st)
  {
    if st.regs[3] == 0 then st.mem[st.regs[11]..st.regs[11] + 4 * st.regs[12]]
    else st.mem[st.regs[4]..st.regs[4] + 4 * st.regs[5]]
  }

  /** Double buffering as an idea: a picture on the screen and one being drawn. */
  datatype Buffers = Buffers(front: seq<bv8>, back: seq<bv8>)

  function IdealStep(b: Buffers, op: Op): Buffers
  {
    match op
    case Erase(colour) => b.(back := Filled(|b.back|, colour))
    case Reserve => b.(back := b.front)
    case Activate => Buffers(b.back, b.front)
  }

  function IdealRun(b: Buffers, ops: seq<Op>): Buffers
  {
    if ops == [] then b else IdealStep(IdealRun(b, ops[..|ops| - 1]), ops[|ops| - 1])
  }

  ghost function View(st: Reader): Buffers
    requires Configured(st)
  {
    Buffers(Shown(st), Hidden(st))
  }

  ghost predicate InFrames(st: Reader, a: int)
  {
    st.frame0 <= a < st.frame0 + Size(st) || st.frame1 <= a < st.frame1 + Size(st)
  }

  /** A step changes memory in the hidden frame only, and there as the ideal step does. */
  lemma StepMemory(st: Reader, op: Op)
    requires Configured(st) && FramesDisjoint(st)
    ensures var st', n, show, draw := Step(st, op), Size(st), ShowBase(st), DrawBase(st);
            && |st'.mem| == |st.mem|
            && st'.mem[show..show + n] == st.mem[show..show + n]
            && st'.mem[draw..draw + n] == (match op case Erase(colour) => Filled(n, colour)
                                                    case Reserve => st.mem[show..show + n]
                                                    case Activate => st.mem[draw..draw + n])
            && forall a :: 0 <= a < |st.mem| && !InFrames(st, a) ==> st'.mem[a] == st.mem[a]
  {
    hide Splice, Filled, Size;
    assert 0 <= Size(st);
    match op {
      case Erase(colour) => SpliceParts(st.mem, DrawBase(st), Filled(Size(st), colour), ShowBase(st));
      case Reserve => SpliceParts(st.mem, DrawBase(st), st.mem[ShowBase(st)..ShowBase(st) + Size(st)], ShowBase(st));
      case Activate =>
    }
  }

  /** A block laid over memory is there, and an equally long part clear of it is as before. */
  lemma SpliceParts(mem: seq<bv8>, d: nat, block: seq<bv8>, s: nat)
    requires d + |block| <= |mem| && s + |block| <= |mem| && (d + |block| <= s || s + |block| <= d)
    ensures Splice(mem, d, block)[d..d + |block|] == block
    ensures Splice(mem, d, block)[s..s + |block|] == mem[s..s + |block|]
  {
  }

  lemma ViewIs(st: Reader)
    requires Configured(st)
    ensures Shown(st) == st.mem[ShowBase(st)..ShowBase(st) + Size(st)]
    ensures Hidden(st) == st.mem[DrawBase(st)..DrawBase(st) + Size(st)]
    ensures |Shown(st)| == |Hidden(st)| == Size(st)
  {
  }

  lemma StepConfigured(st: Reader, op: Op)
    requires Configured(st)
    ensures Configured(Step(st, op)) && (FramesDisjoint(st) ==> FramesDisjoint(Step(st, op)))
    ensures ShowBase(Step(st, op)) == if op.Activate? then DrawBase(st) else ShowBase(st)
    ensures DrawBase(Step(st, op)) == if op.Activate? then ShowBase(st) else DrawBase(st)
  {
    hide Splice, CopyBlock, Filled, Size;
  }

  lemma StepRefines(st: Reader, op: Op)
    requires Configured(st) && FramesDisjoint(st)
    ensures Configured(Step(st, op)) && FramesDisjoint(Step(st, op))
    ensures View(Step(st, op)) == IdealStep(View(st), op)
  {
    hide Splice, CopyBlock, Filled, Shown, Hidden, Size, Configured, Step;
    StepMemory(st, op);
    StepConfigured(st, op);
    ViewIs(st);
    ViewIs(Step(st, op));
    if op.Activate? {
      assert Step(st, op).mem == st.mem by { ActivateKeepsMemory(st); }
    }
  }

  lemma ActivateKeepsMemory(st: Reader)
    requires FramesInMemory(st)
    ensures Step(st, Activate).mem == st.mem
  {
  }

  /** Over every run the registers mirror the driver, the screen and the hidden frame
      are those of an ideal double buffer, and memory outside both frames is untouched. */
  lemma {:induction false} RunRefines(st: Reader, ops: seq<Op>)
    requires Configured(st) && FramesDisjoint(st)
    ensures Configured(Run(st, ops)) && FramesDisjoint(Run(st, ops))
    ensures View(Run(st, ops)) == IdealRun(View(st), ops)
    ensures |Run(st, ops).mem| == |st.mem|
    ensures forall a :: 0 <= a < |st.mem| && !InFrames(st, a) ==> Run(st, ops).mem[a] == st.mem[a]
  {
    if ops != [] {
      RunRefines(st, ops[..|ops| - 1]);
      StepRefines(Run(st, ops[..|ops| - 1]), ops[|ops| - 1]);
      StepMemory(Run(st, ops[..|ops| - 1]), ops[|ops| - 1]);
    }
  }

  function Activations(ops: seq<Op>): nat
  {
    if ops == [] then 0 else Activations(ops[..|ops| - 1]) + if ops[|ops| - 1].Activate? then 1 else 0
  }

  lemma {:induction false} IdealFrontKept(b: Buffers, ops: seq<Op>)
    requires Activations(ops) == 0
    ensures IdealRun(b, ops).front == b.front
  {
    if ops != [] {
      IdealFrontKept(b, ops[..|ops| - 1]);
    }
  }

  /** Between two activations nothing on the screen changes, whatever is drawn. */
  lemma {:induction false} ScreenSteady(st: Reader, ops: seq<Op>)
    requires Configured(st) && FramesDisjoint(st) && Activations(ops) == 0
    ensures Configured(Run(st, ops)) && Shown(Run(st, ops)) == Shown(st)
  {
    RunRefines(st, ops);
    IdealFrontKept(View(st), ops);
  }

  lemma {:induction false} IdealRunConcat(b: Buffers, u: seq<Op>, v: seq<Op>)
    ensures IdealRun(b, u + v) == IdealRun(IdealRun(b, u), v)
  {
    if v == [] {
      assert u + v == u;
    } else {
      IdealRunConcat(b, u, v[..|v| - 1]);
      assert (u + v)[..|u + v| - 1] == u + v[..|v| - 1];
    }
  }

  /** After any run, reserving the background and activating it leaves the screen as it is. */
  lemma ReserveActivateInvisible(st: Reader, ops: seq<Op>)
    requires Configured(st) && FramesDisjoint(st)
    ensures Configured(Run(st, ops)) && Configured(Run(st, ops + [Reserve, Activate]))
    ensures Shown(Run(st, ops + [Reserve, Activate])) == Shown(Run(st, ops))
  {
    RunRefines(st, ops);
    RunRefines(st, ops + [Reserve, Activate]);
    IdealRunConcat(View(st), ops, [Reserve, Activate]);
    var b := IdealRun(View(st), ops);
    assert [Reserve, Activate][..1] == [Reserve];
    assert IdealRun(b, [Reserve]) == IdealStep(b, Reserve);
  }

  /** The frame on the screen alternates with every activation and nothing else. */
  lemma {:induction false} DisplayParity(st: Reader, ops: seq<Op>)
    requires FramesInMemory(st) && 0 <= st.displayFrame < 2
    ensures Run(st, ops).displayFrame == (st.displayFrame + Activations(ops)) % 2
  {
    hide Splice, CopyBlock, Filled, FramesInMemory, Size;
    if ops != [] {
      DisplayParity(st, ops[..|ops| - 1]);
    }
  }

  lemma SharedByte(st: Reader) returns (a: nat)
    requires FramesInMemory(st) && 0 < Size(st) && !FramesDisjoint(st)
    ensures ShowBase(st) <= a < ShowBase(st) + Size(st) && DrawBase(st) <= a < DrawBase(st) + Size(st)
    ensures a < |st.mem|
  {
    hide Size;
    a := if st.frame0 <= st.frame1 then st.frame1 else st.frame0;
  }

  /** Erasing stores the low byte of the colour all over the hidden frame. */
  lemma ErasedByte(st: Reader, colour: bv32, a: nat)
    requires FramesInMemory(st) && DrawBase(st) <= a < DrawBase(st) + Size(st)
    ensures a < |st.mem| && Step(st, Erase(colour)).mem[a] == (colour & 0xff) as bv8
  {
  }

  lemma ShownByte(st: Reader, a: nat)
    requires Configured(st) && ShowBase(st) <= a < ShowBase(st) + Size(st)
    ensures a < |st.mem| && a - ShowBase(st) < |Shown(st)| && Shown(st)[a - ShowBase(st)] == st.mem[a]
  {
    ViewIs(st);
  }

  /** Some colour differs from the byte at `a` in its low byte. */
  lemma OtherColour(b: bv8) returns (colour: bv32)
    ensures (colour & 0xff) as bv8 != b
  {
    colour := if b == 0 then 1 else 0;
  }

  /** A byte both frames share shows some erasing colour. */
  lemma SharedByteShows(st: Reader) returns (colour: bv32)
    requires Configured(st) && 0 < Size(st) && !FramesDisjoint(st)
    ensures Configured(Step(st, Erase(colour))) && Shown(Step(st, Erase(colour))) != Shown(st)
  {
    hide Configured, Size, Step, Shown, Splice, ByteOf, ShowBase, DrawBase, FramesDisjoint;
    assert FramesInMemory(st) by { InMemory(st); }
    var a := SharedByte(st);
    colour := OtherColour(st.mem[a]);
    ErasedByte(st, colour, a);
    StepConfigured(st, Erase(colour));
    ShownByte(st, a);
    ShownByte(Step(st, Erase(colour)), a);
  }

  lemma InMemory(st: Reader)
    requires Configured(st)
    ensures FramesInMemory(st)
  {
  }

  ghost predicate ShownAfterErase(st: Reader, colour: bv32)
    requires Configured(st)
  {
    Configured(Step(st, Erase(colour))) && Shown(Step(st, Erase(colour))) == Shown(st)
  }

  /** Erasing is invisible for every colour exactly when the frames are disjoint; the
      example program, which passes one address for both, erases its own picture. */
  lemma EraseInvisibleIff(st: Reader)
    requires Configured(st) && 0 < Size(st)
    ensures (forall colour :: ShownAfterErase(st, colour)) <==> FramesDisjoint(st)
  {
    if FramesDisjoint(st) {
      forall colour
        ensures ShownAfterErase(st, colour)
      {
        StepRefines(st, Erase(colour));
      }
    } else {
      var colour := SharedByteShows(st);
      assert !ShownAfterErase(st, colour);
    }
  }

  /** The picture after a run on a single buffer: every erase takes effect at once and
      nothing else changes it. */
  function SingleBuffer(picture: seq<bv8>, ops: seq<Op>): (r: seq<bv8>)
    ensures |r| == |picture|
  {
    if ops == [] then picture
    else match ops[|ops| - 1]
      case Erase(colour) => Filled(|picture|, colour)
      case _ => SingleBuffer(picture, ops[..|ops| - 1])
  }

  lemma OneFrameStep(st: Reader, op: Op)
    requires Configured(st) && st.frame0 == st.frame1
    ensures Configured(Step(st, op))
    ensures Shown(Step(st, op)) == match op case Erase(colour) => Filled(Size(st), colour) case _ => Shown(st)
  {
    StepConfigured(st, op);
    ViewIs(st);
    ViewIs(Step(st, op));
    OneFrameMemory(st, op);
    hide Step, Shown, Configured, Size;
  }

  lemma OneFrameMemory(st: Reader, op: Op)
    requires FramesInMemory(st) && st.frame0 == st.frame1
    ensures ShowBase(st) == DrawBase(st) == ShowBase(Step(st, op))
    ensures var b, n := ShowBase(st), Size(st);
            Step(st, op).mem[b..b + n] == match op case Erase(colour) => Filled(n, colour) case _ => st.mem[b..b + n]
  {
  }

  /** The configuration the example program runs in, one address for both frames: over
      every run the screen is a single buffer, so each erase shows at once and reserving
      and activating do nothing to it. */
  lemma {:induction false} OneFrameForBoth(st: Reader, ops: seq<Op>)
    requires Configured(st) && st.frame0 == st.frame1
    ensures Configured(Run(st, ops)) && Shown(Run(st, ops)) == SingleBuffer(Shown(st), ops)
  {
    if ops != [] {
      OneFrameForBoth(st, ops[..|ops| - 1]);
      OneFrameStep(Run(st, ops[..|ops| - 1]), ops[|ops| - 1]);
      ViewIs(st);
    }
  }

  /** DRAW_EraseScreen fills bytes, so each word of the frame becomes the colour asked
      for exactly when the four bytes of that colour are equal. */
  lemma EraseColourIff(st: Reader, colour: bv32, i: nat)
    requires FramesInMemory(st) && 4 * i + 4 <= Size(st)
    ensures WordAt(Step(st, Erase(colour)).mem, DrawBase(st) + 4 * i) == colour
       <==> ByteOf(colour, 0) == ByteOf(colour, 1) == ByteOf(colour, 2) == ByteOf(colour, 3)
  {
    var m := Step(st, Erase(colour)).mem;
    var a, b := DrawBase(st) + 4 * i, ByteOf(colour, 0);
    assert At(m, a) == b && At(m, a + 1) == b && At(m, a + 2) == b && At(m, a + 3) == b;
    WordBytes(colour, b, b, b, b);
  }

  lemma InitConfigures(st: Reader)
    requires st.width >= 0 && st.height >= 0 && st.displayFrame == 0 && st.bytesPerPixel == 4 && st.interlace == 0
    requires AllRegisters <= st.regs.Keys
    requires st.regs[0] == 1 && st.regs[3] == 0 && st.regs[4] == st.frame0 && st.regs[11] == st.frame1
    requires st.regs[5] == st.regs[12] == st.regs[6] == st.regs[13] == st.width * st.height
    requires st.regs[8] == st.regs[15] == st.width && st.regs[9] == st.regs[16] == st.height && st.regs[10] == st.regs[17] == 0
    requires st.frame0 + st.width * st.height * 4 <= |st.mem| && st.frame1 + st.width * st.height * 4 <= |st.mem|
    ensures Configured(st)
  {
    var n := st.width * st.height;
    assert n >= 0 by { MulMono(0, st.width, st.height); }
    assert Size(st) == n * 4;
  }

  /** What the fifteen writes of the initialisation leave, register by register. */
  lemma RegistersSet(device: map<int, int>, regs: map<int, int>, frame0: int, frame1: int, width: int, height: int, words: int)
    requires regs == device[0 := 0][4 := frame0][5 := words][6 := words][8 := width][9 := height][10 := 0]
                       [11 := frame1][12 := words][13 := words][15 := width][16 := height][17 := 0][3 := 0][0 := 1]
    ensures AllRegisters <= regs.Keys
    ensures regs[0] == 1 && regs[3] == 0 && regs[4] == frame0 && regs[11] == frame1
    ensures regs[5] == regs[12] == regs[6] == regs[13] == words
    ensures regs[8] == regs[15] == width && regs[9] == regs[16] == height && regs[10] == regs[17] == 0
  {
  }

  // ----- the driver -----

  class FrameReader {
    const sdram: array<bv8>
    var frame0Base: nat
    var frame1Base: nat
    var displayFrame: int
    var colorDepth: int
    var width: int
    var height: int
    var bytesPerPixel: int
    var interlace: int
    var regs: map<int, int>

    ghost function State(): Reader
      reads this, sdram
    {
      Reader(frame0Base, frame1Base, displayFrame, width, height, bytesPerPixel, interlace, regs, sdram[..])
    }

    /** VIPFR_Init, on a device whose registers hold anything: the object and the device
        agree, frame 0 is on the screen, every register of either frame is set, and the
        memory is untouched. */
    constructor (sdram: array<bv8>, device: map<int, int>, frame0: nat, frame1: nat, width: nat, height: nat)
      requires frame0 + width * height * 4 <= sdram.Length && frame1 + width * height * 4 <= sdram.Length
      ensures this.sdram == sdram && Configured(State())
      ensures displayFrame == 0 && frame0Base == frame0 && frame1Base == frame1
      ensures this.width == width && this.height == height
      ensures bytesPerPixel == 4 && colorDepth == 32 && interlace == 0
      ensures AllRegisters <= regs.Keys
      ensures regs[0] == 1 && regs[3] == 0 && regs[4] == frame0 && regs[11] == frame1
      ensures regs[5] == regs[12] == regs[6] == regs[13] == width * height
      ensures regs[8] == regs[15] == width && regs[9] == regs[16] == height && regs[10] == regs[17] == 0
    {
      hide Configured, Size, AllRegisters, FramesInMemory;
      this.sdram := sdram;
      frame0Base, frame1Base := frame0, frame1;
      displayFrame := 0;
      bytesPerPixel, colorDepth, interlace := 4, 32, 0;
      this.width, this.height := 0, 0;
      regs := device;
      new;
      StartDevice(width, height);
      RegistersSet(device, regs, frame0, frame1, width, height, width * height);
      InitConfigures(State());
    }

    /** The calls VIPFR_Init makes once the fields are set: stop, size, select, go. */
    method StartDevice(w: int, h: int)
      modifies this`regs, this`width, this`height
      ensures width == w && height == h
      ensures regs == old(regs)[0 := 0][4 := frame0Base][5 := w * h][6 := w * h][8 := w][9 := h][10 := interlace]
                      [11 := frame1Base][12 := w * h][13 := w * h][15 := w][16 := h][17 := interlace][3 := displayFrame][0 := 1]
    {
      Iowr(0, 0);
      SetFrameSize(w, h);
      SelectFrame(displayFrame);
      Iowr(0, 1);
    }

    method Iowr(reg: int, value: int)
      modifies this`regs
      ensures regs == old(regs)[reg := value]
    {
      regs := regs[reg := value];
    }

    method SetFrameSize(w: int, h: int)
      modifies this`regs, this`width, this`height
      ensures width == w && height == h
      ensures regs == old(regs)[4 := frame0Base][5 := w * h][6 := w * h][8 := w][9 := h][10 := interlace]
                      [11 := frame1Base][12 := w * h][13 := w * h][15 := w][16 := h][17 := interlace]
    {
      var words, cycle := w * h, w * h;
      width, height := w, h;
      Iowr(4, frame0Base);
      Iowr(5, words);
      Iowr(6, cycle);
      Iowr(8, width);
      Iowr(9, height);
      Iowr(10, interlace);
      Iowr(11, frame1Base);
      Iowr(12, words);
      Iowr(13, cycle);
      Iowr(15, width);
      Iowr(16, height);
      Iowr(17, interlace);
    }

    method SelectFrame(index: int)
      modifies this`regs
      ensures regs == old(regs)[3 := index]
    {
      Iowr(3, index);
    }

    method GetDrawFrame() returns (base: nat)
      ensures base == DrawBase(State())
    {
      if displayFrame == 0 {
        return frame1Base;
      }
      return frame0Base;
    }

    method ActiveDrawFrame()
      requires FramesInMemory(State())
      modifies this`displayFrame, this`regs
      ensures State() == Step(old(State()), Activate)
    {
      displayFrame := (displayFrame + 1) % 2;
      SelectFrame(displayFrame);
    }

    method EraseScreen(colour: bv32)
      requires FramesInMemory(State())
      modifies sdram
      ensures State() == Step(old(State()), Erase(colour))
    {
      var base := GetDrawFrame();
      var n := width * height * bytesPerPixel;
      ghost var was := State();
      var i := 0;
      while i < n
        invariant 0 <= i <= n
        invariant forall a :: 0 <= a < sdram.Length ==>
                    sdram[a] == if base <= a < base + i then ByteOf(colour, 0) else was.mem[a]
      {
        sdram[base + i] := ByteOf(colour, 0);
        i := i + 1;
      }
      assert sdram[..] == Step(was, Erase(colour)).mem;
    }

    /** The frames may coincide or be disjoint, as memcpy asks. */
    method ReserveBackground()
      requires FramesInMemory(State()) && (FramesDisjoint(State()) || frame0Base == frame1Base)
      modifies sdram
      ensures State() == Step(old(State()), Reserve)
    {
      var nSize := width * height * bytesPerPixel;
      var pSrc, pDes;
      if displayFrame == 0 {
        pSrc, pDes := frame0Base, frame1Base;
      } else {
        pDes, pSrc := frame0Base, frame1Base;
      }
      CopyInPlace(sdram, pDes, pSrc, nSize);
    }

    /** The build with ENABLE_DMA: with the device present and a frame that is not
        empty it does exactly what the plain build does. */
    method ReserveBackgroundDma(deviceFound: bool) returns (status: Status)
      requires FramesInMemory(State()) && (FramesDisjoint(State()) || frame0Base == frame1Base)
      modifies sdram
      ensures status == Transferred <==> deviceFound && 0 < Size(old(State()))
      ensures State() == if status == Transferred then Step(old(State()), Reserve) else old(State())
    {
      var nSize := width * height * bytesPerPixel;
      var pSrc, pDes;
      if displayFrame == 0 {
        pSrc, pDes := frame0Base, frame1Base;
      } else {
        pDes, pSrc := frame0Base, frame1Base;
      }
      status := MyMemcpy(sdram, pDes, pSrc, nSize, deviceFound);
    }
  }
}
