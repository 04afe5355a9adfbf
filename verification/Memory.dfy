/**
 Byte-addressed memory as a log of stores.  The C routines of this project do
 nothing but store bytes, so each is specified by the list of stores it makes,
 in order; what a list means at one address is decided by its last store there.
 */
module Memory {

  datatype Option<+T> = None | Some(value: T)
  {
    function GetOr(default: T): T
    {
      if Some? then value else default
    }
  }

  datatype Store = Store(addr: int, val: bv8)

  /** One store.  A store outside the memory leaves it alone; the methods that
      perform stores prove that theirs are inside. */
  function Put(mem: seq<bv8>, st: Store): (r: seq<bv8>)
    ensures |r| == |mem|
  {
    if 0 <= st.addr < |mem| then mem[st.addr := st.val] else mem
  }

  function Apply(mem: seq<bv8>, log: seq<Store>): (r: seq<bv8>)
    ensures |r| == |mem|
  {
    if log == [] then mem
    else Put(Apply(mem, log[..|log| - 1]), log[|log| - 1])
  }

  /** The byte at an address, 0 outside the memory. */
  function At(mem: seq<bv8>, a: int): bv8
  {
    if 0 <= a < |mem| then mem[a] else 0
  }

  /** The value of the last store to `a`, if there is one. */
  function Last(log: seq<Store>, a: int): Option<bv8>
  {
    if log == [] then None
    else if log[|log| - 1].addr == a then Some(log[|log| - 1].val)
    else Last(log[..|log| - 1], a)
  }

  /** How many stores go to `a`. */
  function Hits(log: seq<Store>, a: int): nat
  {
    if log == [] then 0
    else Hits(log[..|log| - 1], a) + if log[|log| - 1].addr == a then 1 else 0
  }

  ghost predicate Inside(log: seq<Store>, size: nat)
  {
    forall k :: 0 <= k < |log| ==> 0 <= log[k].addr < size
  }

  // ----- the meaning of a log -----

  /** Applying a log changes exactly the addresses it stores to, and leaves in
      each the value stored there last. */
  lemma {:induction false} ApplyAt(mem: seq<bv8>, log: seq<Store>, a: int)
    requires 0 <= a < |mem|
    ensures Apply(mem, log)[a] == match Last(log, a) case None => mem[a] case Some(v) => v
  {
    if log != [] {
      ApplyAt(mem, log[..|log| - 1], a);
    }
  }

  lemma ApplySnoc(mem: seq<bv8>, log: seq<Store>, st: Store)
    ensures Apply(mem, log + [st]) == Put(Apply(mem, log), st)
  {
    assert (log + [st])[..|log|] == log;
  }

  lemma {:induction false} ApplyConcat(mem: seq<bv8>, u: seq<Store>, v: seq<Store>)
    ensures Apply(mem, u + v) == Apply(Apply(mem, u), v)
  {
    if v == [] {
      assert u + v == u;
    } else {
      var v' := v[..|v| - 1];
      ApplyConcat(mem, u, v');
      assert u + v == (u + v') + [v[|v| - 1]];
      ApplySnoc(mem, u + v', v[|v| - 1]);
    }
  }

  lemma {:induction false} LastConcat(u: seq<Store>, v: seq<Store>, a: int)
    ensures Last(u + v, a) == if Last(v, a).Some? then Last(v, a) else Last(u, a)
  {
    if v == [] {
      assert u + v == u;
    } else {
      var v' := v[..|v| - 1];
      LastConcat(u, v', a);
      assert (u + v)[..|u + v| - 1] == u + v';
    }
  }

  lemma {:induction false} HitsConcat(u: seq<Store>, v: seq<Store>, a: int)
    ensures Hits(u + v, a) == Hits(u, a) + Hits(v, a)
  {
    if v == [] {
      assert u + v == u;
    } else {
      var v' := v[..|v| - 1];
      HitsConcat(u, v', a);
      assert (u + v)[..|u + v| - 1] == u + v';
    }
  }

  lemma {:induction false} HitsLast(log: seq<Store>, a: int)
    ensures Last(log, a).None? <==> Hits(log, a) == 0
  {
    if log != [] {
      HitsLast(log[..|log| - 1], a);
    }
  }

  lemma NothingStored(a: int)
    ensures Last([], a).None? && Hits([], a) == 0
  {
  }

  // ----- the algebra of logs -----

  /** Making the same stores a second time changes nothing, whatever they overlap. */
  lemma ApplyTwice(mem: seq<bv8>, log: seq<Store>)
    ensures Apply(Apply(mem, log), log) == Apply(mem, log)
  {
    forall a | 0 <= a < |mem|
      ensures Apply(Apply(mem, log), log)[a] == Apply(mem, log)[a]
    {
      ApplyAt(mem, log, a);
      ApplyAt(Apply(mem, log), log, a);
    }
  }

  ghost predicate Apart(u: seq<Store>, v: seq<Store>)
  {
    forall a :: Last(u, a).None? || Last(v, a).None?
  }

  /** Two logs commute when no address is stored to by both. */
  lemma ApplyCommute(mem: seq<bv8>, u: seq<Store>, v: seq<Store>)
    requires Apart(u, v)
    ensures Apply(Apply(mem, u), v) == Apply(Apply(mem, v), u)
  {
    forall a | 0 <= a < |mem|
      ensures Apply(Apply(mem, u), v)[a] == Apply(Apply(mem, v), u)[a]
    {
      assert Last(u, a).None? || Last(v, a).None?;
      ApplyAt(mem, u, a);
      ApplyAt(mem, v, a);
      ApplyAt(Apply(mem, u), v, a);
      ApplyAt(Apply(mem, v), u, a);
    }
  }

  function ApplyAll(mem: seq<bv8>, logs: seq<seq<Store>>): (r: seq<bv8>)
    ensures |r| == |mem|
  {
    if logs == [] then mem else Apply(ApplyAll(mem, logs[..|logs| - 1]), logs[|logs| - 1])
  }

  /** Logs that differ share no address. */
  ghost predicate NoClash(logs: seq<seq<Store>>)
  {
    forall u, v :: u in logs && v in logs && u != v ==> Apart(u, v)
  }

  lemma {:induction false} ApplyAllAt(mem: seq<bv8>, logs: seq<seq<Store>>, a: int)
    requires NoClash(logs) && 0 <= a < |mem|
    ensures (forall u :: u in logs ==> Last(u, a).None?) ==> ApplyAll(mem, logs)[a] == mem[a]
    ensures forall u :: u in logs && Last(u, a).Some? ==> ApplyAll(mem, logs)[a] == Last(u, a).value
  {
    if logs != [] {
      var before, last := logs[..|logs| - 1], logs[|logs| - 1];
      ApplyAllAt(mem, before, a);
      ApplyAt(ApplyAll(mem, before), last, a);
      forall u | u in logs
        ensures u in before || u == last
        ensures u != last ==> Apart(u, last)
      {
      }
    }
  }

  lemma {:induction false} ApplyAllMiss(mem: seq<bv8>, logs: seq<seq<Store>>, a: int)
    requires 0 <= a < |mem| && forall u :: u in logs ==> Last(u, a).None?
    ensures ApplyAll(mem, logs)[a] == mem[a]
  {
    if logs != [] {
      var before, last := logs[..|logs| - 1], logs[|logs| - 1];
      ApplyAllMiss(mem, before, a);
      ApplyAt(ApplyAll(mem, before), last, a);
      assert last in logs;
    }
  }

  /** Logs that do not clash may be applied in any order and any number of times:
      the memory reached depends only on which logs are applied. */
  lemma OrderIrrelevant(mem: seq<bv8>, logs: seq<seq<Store>>, again: seq<seq<Store>>)
    requires NoClash(logs) && forall u :: u in logs <==> u in again
    ensures ApplyAll(mem, logs) == ApplyAll(mem, again)
  {
    forall a | 0 <= a < |mem|
      ensures ApplyAll(mem, logs)[a] == ApplyAll(mem, again)[a]
    {
      ApplyAllAt(mem, logs, a);
      ApplyAllAt(mem, again, a);
      if u :| u in logs && Last(u, a).Some? {
        assert u in again;
      }
    }
  }

  // ----- two nested loops over a grid -----

  /** The stores of columns 0..n-1 of row r. */
  function Row(emit: (int, int) -> seq<Store>, r: int, n: int): seq<Store>
    decreases if n <= 0 then 0 else n
  {
    if n <= 0 then [] else Row(emit, r, n - 1) + emit(r, n - 1)
  }

  /** The stores of rows 0..m-1, each of w columns. */
  function Grid(emit: (int, int) -> seq<Store>, m: int, w: int): seq<Store>
    decreases if m <= 0 then 0 else m
  {
    if m <= 0 then [] else Grid(emit, m - 1, w) + Row(emit, m - 1, w)
  }

  ghost predicate GridInside(emit: (int, int) -> seq<Store>, m: int, w: int, size: nat)
  {
    forall r, c :: 0 <= r < m && 0 <= c < w ==> Inside(emit(r, c), size)
  }

  lemma {:induction false} RowMiss(emit: (int, int) -> seq<Store>, r: int, n: int, a: int)
    requires forall c :: 0 <= c < n ==> Hits(emit(r, c), a) == 0
    ensures Hits(Row(emit, r, n), a) == 0
    decreases if n <= 0 then 0 else n
  {
    if n > 0 {
      RowMiss(emit, r, n - 1, a);
      HitsConcat(Row(emit, r, n - 1), emit(r, n - 1), a);
    }
  }

  lemma {:induction false} GridMiss(emit: (int, int) -> seq<Store>, m: int, w: int, a: int)
    requires forall r, c :: 0 <= r < m && 0 <= c < w ==> Hits(emit(r, c), a) == 0
    ensures Hits(Grid(emit, m, w), a) == 0
    ensures Last(Grid(emit, m, w), a).None?
    decreases if m <= 0 then 0 else m
  {
    if m > 0 {
      GridMiss(emit, m - 1, w, a);
      RowMiss(emit, m - 1, w, a);
      HitsConcat(Grid(emit, m - 1, w), Row(emit, m - 1, w), a);
    }
    HitsLast(Grid(emit, m, w), a);
  }

  lemma {:induction false} RowHit(emit: (int, int) -> seq<Store>, r: int, n: int, c: int, a: int)
    requires 0 <= c < n
    requires forall c' :: 0 <= c' < n && c' != c ==> Hits(emit(r, c'), a) == 0
    ensures Hits(Row(emit, r, n), a) == Hits(emit(r, c), a)
    ensures Last(Row(emit, r, n), a) == Last(emit(r, c), a)
    decreases n
  {
    var before, cell := Row(emit, r, n - 1), emit(r, n - 1);
    HitsConcat(before, cell, a);
    LastConcat(before, cell, a);
    HitsLast(before, a);
    HitsLast(cell, a);
    if c < n - 1 {
      RowHit(emit, r, n - 1, c, a);
    } else {
      RowMiss(emit, r, n - 1, a);
    }
  }

  /** No cell of the grid but (r, c) stores to `a`; with r or c outside the grid, none does. */
  ghost predicate OnlyCell(emit: (int, int) -> seq<Store>, m: int, w: int, r: int, c: int, a: int)
  {
    forall r', c' :: 0 <= r' < m && 0 <= c' < w && (r' != r || c' != c) ==> Hits(emit(r', c'), a) == 0
  }

  lemma OnlyCellRow(emit: (int, int) -> seq<Store>, m: int, w: int, r: int, c: int, a: int)
    requires OnlyCell(emit, m, w, r, c, a) && 0 <= r < m && 0 <= c < w
    ensures Hits(Row(emit, r, w), a) == Hits(emit(r, c), a) && Last(Row(emit, r, w), a) == Last(emit(r, c), a)
    ensures forall r' :: 0 <= r' < m && r' != r ==> Hits(Row(emit, r', w), a) == 0
  {
    RowHit(emit, r, w, c, a);
    forall r' | 0 <= r' < m && r' != r
      ensures Hits(Row(emit, r', w), a) == 0
    {
      RowMiss(emit, r', w, a);
    }
  }

  lemma {:induction false} OneRow(emit: (int, int) -> seq<Store>, m: int, w: int, r: int, a: int)
    requires forall r' :: 0 <= r' < m && r' != r ==> Hits(Row(emit, r', w), a) == 0
    ensures Hits(Grid(emit, m, w), a) == if 0 <= r < m then Hits(Row(emit, r, w), a) else 0
    ensures Last(Grid(emit, m, w), a) == if 0 <= r < m then Last(Row(emit, r, w), a) else None
    decreases if m <= 0 then 0 else m
  {
    hide Hits, Last, Row;
    NothingStored(a);
    if m > 0 {
      GridSplit(emit, m, w, a);
      OneRow(emit, m - 1, w, r, a);
    }
  }

  /** When only cell (r, c) stores to `a`, the whole grid does there what that cell does. */
  lemma GridHit(emit: (int, int) -> seq<Store>, m: int, w: int, r: int, c: int, a: int)
    requires OnlyCell(emit, m, w, r, c, a) && 0 <= r < m && 0 <= c < w
    ensures Hits(Grid(emit, m, w), a) == Hits(emit(r, c), a)
    ensures Last(Grid(emit, m, w), a) == Last(emit(r, c), a)
  {
    OnlyCellRow(emit, m, w, r, c, a);
    OneRow(emit, m, w, r, a);
  }

  lemma GridSplit(emit: (int, int) -> seq<Store>, m: int, w: int, a: int)
    requires m > 0
    ensures Hits(Grid(emit, m, w), a) == Hits(Grid(emit, m - 1, w), a) + Hits(Row(emit, m - 1, w), a)
    ensures Last(Grid(emit, m, w), a) ==
            if Last(Row(emit, m - 1, w), a).Some? then Last(Row(emit, m - 1, w), a) else Last(Grid(emit, m - 1, w), a)
    ensures Last(Grid(emit, m - 1, w), a).None? <==> Hits(Grid(emit, m - 1, w), a) == 0
    ensures Last(Row(emit, m - 1, w), a).None? <==> Hits(Row(emit, m - 1, w), a) == 0
  {
    HitsConcat(Grid(emit, m - 1, w), Row(emit, m - 1, w), a);
    LastConcat(Grid(emit, m - 1, w), Row(emit, m - 1, w), a);
    HitsLast(Grid(emit, m - 1, w), a);
    HitsLast(Row(emit, m - 1, w), a);
  }

  lemma {:induction false} RowSame(e: (int, int) -> seq<Store>, f: (int, int) -> seq<Store>, r: int, n: int)
    requires forall c :: 0 <= c < n ==> e(r, c) == f(r, c)
    ensures Row(e, r, n) == Row(f, r, n)
    decreases if n <= 0 then 0 else n
  {
    if n > 0 {
      RowSame(e, f, r, n - 1);
    }
  }

  /** Grids that agree cell by cell make the same stores in the same order. */
  lemma {:induction false} GridSame(e: (int, int) -> seq<Store>, f: (int, int) -> seq<Store>, m: int, w: int)
    requires forall r, c :: 0 <= r < m && 0 <= c < w ==> e(r, c) == f(r, c)
    ensures Grid(e, m, w) == Grid(f, m, w)
    decreases if m <= 0 then 0 else m
  {
    if m > 0 {
      GridSame(e, f, m - 1, w);
      RowSame(e, f, m - 1, w);
    }
  }

  /** The stores made when rows 0..m-1 and columns 0..n-1 of row m are done. */
  function Done(emit: (int, int) -> seq<Store>, w: int, m: int, n: int): seq<Store>
  {
    Grid(emit, m, w) + Row(emit, m, n)
  }

  lemma DoneStart(mem: seq<bv8>, emit: (int, int) -> seq<Store>, w: int)
    ensures Apply(mem, Done(emit, w, 0, 0)) == mem
  {
  }

  lemma DoneCell(mem: seq<bv8>, emit: (int, int) -> seq<Store>, w: int, m: int, n: int)
    requires n >= 0
    ensures Apply(Apply(mem, Done(emit, w, m, n)), emit(m, n)) == Apply(mem, Done(emit, w, m, n + 1))
  {
    var g, rw, cell := Grid(emit, m, w), Row(emit, m, n), emit(m, n);
    ApplyConcat(mem, g + rw, cell);
    assert g + (rw + cell) == g + rw + cell;
  }

  lemma DoneRow(emit: (int, int) -> seq<Store>, w: int, m: int, n: int)
    requires 0 <= m && 0 <= n && w <= n && (n <= w || n == 0)
    ensures Done(emit, w, m, n) == Done(emit, w, m + 1, 0)
  {
  }

  lemma DoneAll(emit: (int, int) -> seq<Store>, w: int, m: int, h: int)
    requires 0 <= m && h <= m && (m <= h || m == 0)
    ensures Done(emit, w, m, 0) == Grid(emit, h, w)
  {
  }

  // ----- words, least significant byte first -----

  function ByteOf(w: bv32, k: int): bv8
  {
    if k <= 0 then (w & 0xff) as bv8
    else if k == 1 then ((w >> 8) & 0xff) as bv8
    else if k == 2 then ((w >> 16) & 0xff) as bv8
    else ((w >> 24) & 0xff) as bv8
  }

  function Word(b0: bv8, b1: bv8, b2: bv8, b3: bv8): bv32
  {
    (b0 as bv32) | ((b1 as bv32) << 8) | ((b2 as bv32) << 16) | ((b3 as bv32) << 24)
  }

  function WordAt(mem: seq<bv8>, a: int): bv32
  {
    Word(At(mem, a), At(mem, a + 1), At(mem, a + 2), At(mem, a + 3))
  }

  function WordStores(a: int, w: bv32): seq<Store>
  {
    [Store(a, ByteOf(w, 0)), Store(a + 1, ByteOf(w, 1)), Store(a + 2, ByteOf(w, 2)), Store(a + 3, ByteOf(w, 3))]
  }

  function HalfByte(h: bv16, k: int): bv8
  {
    if k <= 0 then (h & 0xff) as bv8 else ((h >> 8) & 0xff) as bv8
  }

  function HalfAt(mem: seq<bv8>, a: int): bv16
  {
    (At(mem, a) as bv16) | ((At(mem, a + 1) as bv16) << 8)
  }

  lemma HalfBytes(h: bv16)
    ensures (HalfByte(h, 0) as bv16) | ((HalfByte(h, 1) as bv16) << 8) == h
  {
  }

  function HalfStores(a: int, h: bv16): seq<Store>
  {
    [Store(a, HalfByte(h, 0)), Store(a + 1, HalfByte(h, 1))]
  }

  /** Splitting a word into bytes and joining them again is the identity both ways. */
  lemma WordBytes(w: bv32, b0: bv8, b1: bv8, b2: bv8, b3: bv8)
    ensures Word(ByteOf(w, 0), ByteOf(w, 1), ByteOf(w, 2), ByteOf(w, 3)) == w
    ensures ByteOf(Word(b0, b1, b2, b3), 0) == b0 && ByteOf(Word(b0, b1, b2, b3), 1) == b1
    ensures ByteOf(Word(b0, b1, b2, b3), 2) == b2 && ByteOf(Word(b0, b1, b2, b3), 3) == b3
  {
  }

  lemma ApplyTwoStores(mem: seq<bv8>, s0: Store, s1: Store)
    ensures Apply(mem, [s0, s1]) == Put(Put(mem, s0), s1)
  {
    assert [s0, s1] == ([] + [s0]) + [s1];
    ApplySnoc(mem, [] + [s0], s1);
    ApplySnoc(mem, [], s0);
  }

  lemma ApplyThreeStores(mem: seq<bv8>, s0: Store, s1: Store, s2: Store)
    ensures Apply(mem, [s0, s1, s2]) == Put(Put(Put(mem, s0), s1), s2)
  {
    assert [s0, s1, s2] == [s0, s1] + [s2];
    ApplySnoc(mem, [s0, s1], s2);
    ApplyTwoStores(mem, s0, s1);
  }

  lemma ApplyFourStores(mem: seq<bv8>, s0: Store, s1: Store, s2: Store, s3: Store)
    ensures Apply(mem, [s0, s1, s2, s3]) == Put(Put(Put(Put(mem, s0), s1), s2), s3)
  {
    assert [s0, s1, s2, s3] == [s0, s1, s2] + [s3];
    ApplySnoc(mem, [s0, s1, s2], s3);
    ApplyThreeStores(mem, s0, s1, s2);
  }

  // Logs of at most four stores, decided by looking at each store.

  lemma LastOfTwo(s0: Store, s1: Store, a: int)
    ensures Last([s0, s1], a) == if s1.addr == a then Some(s1.val) else if s0.addr == a then Some(s0.val) else None
    ensures Hits([s0, s1], a) == (if s0.addr == a then 1 else 0) + (if s1.addr == a then 1 else 0)
  {
    LastConcat([s0], [s1], a);
    HitsConcat([s0], [s1], a);
    assert [s0] + [s1] == [s0, s1];
  }

  lemma LastOfFour(s0: Store, s1: Store, s2: Store, s3: Store, a: int)
    ensures Last([s0, s1, s2, s3], a) ==
            if s3.addr == a then Some(s3.val) else if s2.addr == a then Some(s2.val)
            else if s1.addr == a then Some(s1.val) else if s0.addr == a then Some(s0.val) else None
    ensures Hits([s0, s1, s2, s3], a) ==
            (if s0.addr == a then 1 else 0) + (if s1.addr == a then 1 else 0) +
            (if s2.addr == a then 1 else 0) + (if s3.addr == a then 1 else 0)
  {
    LastOfTwo(s0, s1, a);
    LastOfTwo(s2, s3, a);
    LastConcat([s0, s1], [s2, s3], a);
    HitsConcat([s0, s1], [s2, s3], a);
    assert [s0, s1] + [s2, s3] == [s0, s1, s2, s3];
  }

  lemma LastOfThree(s0: Store, s1: Store, s2: Store, a: int)
    ensures Last([s0, s1, s2], a) ==
            if s2.addr == a then Some(s2.val)
            else if s1.addr == a then Some(s1.val) else if s0.addr == a then Some(s0.val) else None
    ensures Hits([s0, s1, s2], a) ==
            (if s0.addr == a then 1 else 0) + (if s1.addr == a then 1 else 0) + (if s2.addr == a then 1 else 0)
  {
    LastOfTwo(s0, s1, a);
    LastConcat([s0, s1], [s2], a);
    HitsConcat([s0, s1], [s2], a);
    assert [s0, s1] + [s2] == [s0, s1, s2];
  }

  method StoreWord(mem: array<bv8>, a: int, w: bv32)
    requires 0 <= a && a + 4 <= mem.Length
    modifies mem
    ensures mem[..] == Apply(old(mem[..]), WordStores(a, w))
  {
    ghost var was := mem[..];
    mem[a] := ByteOf(w, 0);
    mem[a + 1] := ByteOf(w, 1);
    mem[a + 2] := ByteOf(w, 2);
    mem[a + 3] := ByteOf(w, 3);
    ApplyFourStores(was, Store(a, ByteOf(w, 0)), Store(a + 1, ByteOf(w, 1)), Store(a + 2, ByteOf(w, 2)), Store(a + 3, ByteOf(w, 3)));
  }

  method StoreHalf(mem: array<bv8>, a: int, h: bv16)
    requires 0 <= a && a + 2 <= mem.Length
    modifies mem
    ensures mem[..] == Apply(old(mem[..]), HalfStores(a, h))
  {
    ghost var was := mem[..];
    mem[a] := HalfByte(h, 0);
    mem[a + 1] := HalfByte(h, 1);
    ApplyTwoStores(was, Store(a, HalfByte(h, 0)), Store(a + 1, HalfByte(h, 1)));
  }

  method LoadWord(mem: array<bv8>, a: int) returns (w: bv32)
    requires 0 <= a && a + 4 <= mem.Length
    ensures w == WordAt(mem[..], a)
  {
    w := Word(mem[a], mem[a + 1], mem[a + 2], mem[a + 3]);
  }

  // ----- blocks -----

  /** The memory with a block of bytes laid over it at d. */
  function Splice(mem: seq<bv8>, d: nat, block: seq<bv8>): (r: seq<bv8>)
    requires d + |block| <= |mem|
    ensures |r| == |mem|
    ensures forall a :: 0 <= a < |mem| ==> r[a] == if d <= a < d + |block| then block[a - d] else mem[a]
  {
    mem[..d] + block + mem[d + |block|..]
  }

  /** The memory after n bytes at s have been copied to d. */
  function CopyBlock(mem: seq<bv8>, d: nat, s: nat, n: nat): (r: seq<bv8>)
    requires d + n <= |mem| && s + n <= |mem|
    ensures |r| == |mem|
  {
    Splice(mem, d, mem[s..s + n])
  }

  /** memcpy, one byte after the other.  The blocks may lie in one array as long as
      no byte is overwritten before it is read. */
  method MemCpy(dest: array<bv8>, d: nat, src: array<bv8>, s: nat, n: nat)
    requires d + n <= dest.Length && s + n <= src.Length
    requires dest != src || d <= s || s + n <= d
    modifies dest
    ensures dest[..] == Splice(old(dest[..]), d, old(src[s..s + n]))
  {
    hide Splice;
    ghost var was, block := dest[..], src[s..s + n];
    for i := 0 to n
      invariant forall k :: i <= k < n ==> src[s + k] == block[k]
      invariant forall a :: 0 <= a < dest.Length ==> dest[a] == if d <= a < d + i then block[a - d] else was[a]
    {
      dest[d + i] := src[s + i];
    }
  }
}
