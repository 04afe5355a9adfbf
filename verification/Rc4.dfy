/**
 The RC4 listing of lab4/README.md: fill the state, shuffle it by the key, then make
 one keystream byte per message byte and combine the two by exclusive or.
 */
module Rc4 {
  import opened Arith
  import opened ByteBits

  type byte = b: int | 0 <= b < 256

  /** The shuffle's variables besides its counter. */
  datatype Shuffle = Shuffle(j: byte, s: seq<byte>)

  /** The keystream's variables. */
  datatype Stream = Stream(i: byte, j: byte, s: seq<byte>)

  function Identity(): (s: seq<byte>)
    ensures |s| == 256 && forall k :: 0 <= k < 256 ==> s[k] == k
  {
    seq(256, k requires 0 <= k < 256 => k)
  }

  function Swap(s: seq<byte>, i: byte, j: byte): (r: seq<byte>)
    requires |s| == 256
    ensures |r| == 256
  {
    s[i := s[j]][j := s[i]]
  }

  // ----- one round of each loop -----

  function ShuffleRound(key: seq<byte>, i: byte, st: Shuffle): (r: Shuffle)
    requires |key| > 0 && |st.s| == 256
    ensures |r.s| == 256
  {
    var j := (st.j + st.s[i] + key[i % |key|]) % 256;
    Shuffle(j, Swap(st.s, i, j))
  }

  function StreamRound(st: Stream): (r: Stream)
    requires |st.s| == 256
    ensures |r.s| == 256
  {
    var i := (st.i + 1) % 256;
    var j := (st.j + st.s[i]) % 256;
    Stream(i, j, Swap(st.s, i, j))
  }

  function Bits(b: byte): bv8
  {
    b as bv8
  }

  /** The keystream byte of the round that ended in this state. */
  function KeyByte(st: Stream): bv8
    requires |st.s| == 256
  {
    var sum := st.s[st.i] as int + st.s[st.j] as int;
    Bits(st.s[sum % 256])
  }

  // ----- whole loops -----

  /** After n rounds of the shuffle. */
  function Schedule(key: seq<byte>, n: nat): (r: Shuffle)
    requires |key| > 0 && n <= 256
    ensures |r.s| == 256
  {
    if n == 0 then Shuffle(0, Identity()) else ShuffleRound(key, n - 1, Schedule(key, n - 1))
  }

  function Start(key: seq<byte>): (r: Stream)
    requires |key| > 0
    ensures |r.s| == 256
  {
    Stream(0, 0, Schedule(key, 256).s)
  }

  /** After n keystream rounds. */
  function Run(st: Stream, n: nat): (r: Stream)
    requires |st.s| == 256
    ensures |r.s| == 256
  {
    if n == 0 then st else StreamRound(Run(st, n - 1))
  }

  /** The last loop of the listing: the variables it ends in and the output. */
  function Decrypt(st: Stream, msg: seq<bv8>): (r: (Stream, seq<bv8>))
    requires |st.s| == 256
    ensures |r.0.s| == 256 && |r.1| == |msg|
  {
    if msg == [] then (st, [])
    else
      var (mid, output) := Decrypt(st, msg[..|msg| - 1]);
      var st' := StreamRound(mid);
      (st', output + [KeyByte(st') ^ msg[|msg| - 1]])
  }

  /** The whole listing. */
  function Cipher(key: seq<byte>, msg: seq<bv8>): (r: seq<bv8>)
    requires |key| > 0
    ensures |r| == |msg|
  {
    Decrypt(Start(key), msg).1
  }

  // ----- the message does not steer the state -----

  /** Two runs on messages of one length pass through the same variables: those after
      that many rounds, whatever the messages hold. */
  lemma {:induction false} TrajectoryIgnoresMessage(st: Stream, m1: seq<bv8>, m2: seq<bv8>)
    requires |st.s| == 256 && |m1| == |m2|
    ensures Decrypt(st, m1).0 == Decrypt(st, m2).0 == Run(st, |m1|)
  {
    if m1 != [] {
      TrajectoryIgnoresMessage(st, m1[..|m1| - 1], m2[..|m2| - 1]);
    }
  }

  /** Output byte k is input byte k combined with the keystream byte of round k + 1. */
  lemma {:induction false} DecryptAt(st: Stream, msg: seq<bv8>, k: nat)
    requires |st.s| == 256 && k < |msg|
    ensures Decrypt(st, msg).1[k] == KeyByte(Run(st, k + 1)) ^ msg[k]
  {
    hide KeyByte;
    var before := msg[..|msg| - 1];
    TrajectoryIgnoresMessage(st, before, before);
    if k < |before| {
      DecryptAt(st, before, k);
    }
  }

  lemma XorTwice(f: bv8, c: bv8)
    ensures f ^ (f ^ c) == c
  {
  }

  /** Running the listing twice with one key returns the message. */
  lemma CipherTwice(key: seq<byte>, msg: seq<bv8>)
    requires |key| > 0
    ensures Cipher(key, Cipher(key, msg)) == msg
  {
    hide KeyByte, Start;
    var st := Start(key);
    var once := Cipher(key, msg);
    forall k | 0 <= k < |msg|
      ensures Cipher(key, once)[k] == msg[k]
    {
      DecryptAt(st, msg, k);
      DecryptAt(st, once, k);
      XorTwice(KeyByte(Run(st, k + 1)), msg[k]);
    }
  }

  /** A message may be split anywhere and the second part decrypted from the variables
      the first part ends in. */
  lemma {:induction false} DecryptConcat(st: Stream, m1: seq<bv8>, m2: seq<bv8>)
    requires |st.s| == 256
    ensures var first := Decrypt(st, m1);
            var second := Decrypt(first.0, m2);
            Decrypt(st, m1 + m2) == (second.0, first.1 + second.1)
  {
    hide KeyByte, StreamRound, Swap;
    if m2 == [] {
      assert m1 + m2 == m1;
      assert Decrypt(st, m1).1 + [] == Decrypt(st, m1).1;
    } else {
      DecryptConcat(st, m1, m2[..|m2| - 1]);
      assert (m1 + m2)[..|m1 + m2| - 1] == m1 + m2[..|m2| - 1];
      var first := Decrypt(st, m1);
      var (mid, output) := Decrypt(first.0, m2[..|m2| - 1]);
      var last := [KeyByte(StreamRound(mid)) ^ m2[|m2| - 1]];
      assert (first.1 + output) + last == first.1 + (output + last);
    }
  }

  // ----- the state stays a permutation -----

  ghost predicate IsPermutation(s: seq<byte>)
  {
    |s| == 256 && multiset(s) == multiset(Identity())
  }

  lemma SwapPermutes(s: seq<byte>, i: byte, j: byte)
    requires |s| == 256
    ensures multiset(Swap(s, i, j)) == multiset(s)
  {
  }

  lemma {:induction false} SchedulePermutes(key: seq<byte>, n: nat)
    requires |key| > 0 && n <= 256
    ensures IsPermutation(Schedule(key, n).s)
  {
    if n > 0 {
      SchedulePermutes(key, n - 1);
      SwapPermutes(Schedule(key, n - 1).s, n - 1, Schedule(key, n).j);
    }
  }

  lemma RoundPermutes(st: Stream)
    requires |st.s| == 256 && IsPermutation(st.s)
    ensures IsPermutation(StreamRound(st).s) && StreamRound(st).i == (st.i + 1) % 256
  {
    hide Swap, Identity;
    var i := (st.i + 1) % 256;
    SwapPermutes(st.s, i, (st.j + st.s[i]) % 256);
  }

  lemma {:induction false} RunPermutes(st: Stream, n: nat)
    requires |st.s| == 256 && IsPermutation(st.s)
    ensures IsPermutation(Run(st, n).s) && Run(st, n).i == (st.i + n) % 256
  {
    hide IsPermutation, StreamRound;
    if n > 0 {
      RunPermutes(st, n - 1);
      RoundPermutes(Run(st, n - 1));
      CountOn(st.i, n - 1);
    }
  }

  lemma CountOn(i: byte, n: nat)
    ensures ((i + n) % 256 + 1) % 256 == (i + n + 1) % 256
  {
  }

  /** For every key and however long the message, the array is a permutation of 0..255
      after every shuffle round and every keystream round, and i counts the latter. */
  lemma AlwaysPermutation(key: seq<byte>, n: nat, k: nat)
    requires |key| > 0 && n <= 256
    ensures IsPermutation(Schedule(key, n).s)
    ensures IsPermutation(Run(Start(key), k).s) && Run(Start(key), k).i == k % 256
  {
    SchedulePermutes(key, n);
    SchedulePermutes(key, 256);
    RunPermutes(Start(key), k);
  }

  // ----- the rounds can be undone -----

  function UndoShuffleRound(key: seq<byte>, i: byte, st: Shuffle): (r: Shuffle)
    requires |key| > 0 && |st.s| == 256
    ensures |r.s| == 256
  {
    var s := Swap(st.s, i, st.j);
    Shuffle((st.j - s[i] - key[i % |key|]) % 256, s)
  }

  function UndoStreamRound(st: Stream): (r: Stream)
    requires |st.s| == 256
    ensures |r.s| == 256
  {
    var s := Swap(st.s, st.i, st.j);
    Stream((st.i - 1) % 256, (st.j - s[st.i]) % 256, s)
  }

  lemma SwapTwice(s: seq<byte>, i: byte, j: byte)
    requires |s| == 256
    ensures Swap(Swap(s, i, j), i, j) == s
  {
  }

  lemma AddSubtract(j: byte, a: int)
    ensures ((j + a) % 256 - a) % 256 == j
    ensures ((j - a) % 256 + a) % 256 == j
  {
    DivMod(-((j + a) / 256), j, 256);
    DivMod(-((j - a) / 256), j, 256);
  }

  /** Each shuffle round is a bijection on its variables, for a known key. */
  lemma ShuffleRoundReversible(key: seq<byte>, i: byte, st: Shuffle)
    requires |key| > 0 && |st.s| == 256
    ensures UndoShuffleRound(key, i, ShuffleRound(key, i, st)) == st
    ensures ShuffleRound(key, i, UndoShuffleRound(key, i, st)) == st
  {
    hide Swap;
    var k := key[i % |key|];
    var after := ShuffleRound(key, i, st);
    SwapTwice(st.s, i, after.j);
    AddSubtract(st.j, st.s[i] as int + k as int);
    var before := UndoShuffleRound(key, i, st);
    SwapTwice(st.s, i, st.j);
    AddSubtract(st.j, before.s[i] as int + k as int);
  }

  /** Each keystream round is a bijection on its variables. */
  lemma StreamRoundReversible(st: Stream)
    requires |st.s| == 256
    ensures UndoStreamRound(StreamRound(st)) == st
    ensures StreamRound(UndoStreamRound(st)) == st
  {
    StreamRoundUndone(st);
    UndoneStreamRound(st);
  }

  lemma StreamRoundUndone(st: Stream)
    requires |st.s| == 256
    ensures UndoStreamRound(StreamRound(st)) == st
  {
    hide Swap;
    AddSubtract(st.i, 1);
    var after := StreamRound(st);
    SwapTwice(st.s, after.i, after.j);
    AddSubtract(st.j, st.s[after.i]);
  }

  lemma UndoneStreamRound(st: Stream)
    requires |st.s| == 256
    ensures StreamRound(UndoStreamRound(st)) == st
  {
    hide Swap;
    AddSubtract(st.i, 1);
    var before := UndoStreamRound(st);
    SwapTwice(st.s, st.i, st.j);
    AddSubtract(st.j, before.s[st.i]);
  }

  /** Undo rounds n-1, ..., 0 of the shuffle. */
  function UndoShuffle(key: seq<byte>, n: nat, st: Shuffle): (r: Shuffle)
    requires |key| > 0 && n <= 256 && |st.s| == 256
    ensures |r.s| == 256
  {
    if n == 0 then st else UndoShuffle(key, n - 1, UndoShuffleRound(key, n - 1, st))
  }

  /** Undoing the shuffle from its final j and s restores the filled array and j = 0. */
  lemma {:induction false} ShuffleReversible(key: seq<byte>, n: nat)
    requires |key| > 0 && n <= 256
    ensures UndoShuffle(key, n, Schedule(key, n)) == Shuffle(0, Identity())
  {
    if n > 0 {
      ShuffleRoundReversible(key, n - 1, Schedule(key, n - 1));
      ShuffleReversible(key, n - 1);
    }
  }

  function UndoRun(st: Stream, n: nat): (r: Stream)
    requires |st.s| == 256
    ensures |r.s| == 256
    decreases n
  {
    if n == 0 then st else UndoRun(UndoStreamRound(st), n - 1)
  }

  lemma {:induction false} RunReversible(st: Stream, n: nat)
    requires |st.s| == 256
    ensures UndoRun(Run(st, n), n) == st
  {
    if n > 0 {
      StreamRoundReversible(Run(st, n - 1));
      RunReversible(st, n - 1);
    }
  }

  // ----- what a round does, position by position -----

  /** r is s with the entries at i and j exchanged. */
  ghost predicate Exchanged(s: seq<byte>, r: seq<byte>, i: byte, j: byte)
  {
    && |s| == 256 && |r| == 256
    && forall k :: 0 <= k < 256 ==> r[k] == if k == i then s[j] else if k == j then s[i] else s[k]
  }

  lemma SwapAt(s: seq<byte>, i: byte, j: byte, k: byte)
    requires |s| == 256
    ensures Swap(s, i, j)[k] == if k == i then s[j] else if k == j then s[i] else s[k]
  {
  }

  lemma SwapExchanges(s: seq<byte>, r: seq<byte>, i: byte, j: byte)
    requires |s| == 256
    ensures r == Swap(s, i, j) <==> Exchanged(s, r, i, j)
  {
  }

  /** A shuffle round moves j on by s[i] and the key byte and exchanges s[i] and s[j]:
      what it leaves at i, at j and everywhere else. */
  lemma ShuffleRoundAt(key: seq<byte>, i: byte, st: Shuffle, k: byte)
    requires |key| > 0 && |st.s| == 256
    ensures var r := ShuffleRound(key, i, st);
            && r.j == (st.j as int + st.s[i] as int + key[i % |key|] as int) % 256
            && r.s[i] == st.s[r.j] && r.s[r.j] == st.s[i]
            && (k != i && k != r.j ==> r.s[k] == st.s[k])
  {
    hide Swap;
    var r := ShuffleRound(key, i, st);
    SwapAt(st.s, i, r.j, i);
    SwapAt(st.s, i, r.j, r.j);
    SwapAt(st.s, i, r.j, k);
  }

  /** A keystream round moves i on by one and j on by the entry at the new i, and
      exchanges the two entries. */
  lemma StreamRoundAt(st: Stream, k: byte)
    requires |st.s| == 256
    ensures var r := StreamRound(st);
            && r.i == (st.i as int + 1) % 256 && r.j == (st.j as int + st.s[r.i] as int) % 256
            && r.s[r.i] == st.s[r.j] && r.s[r.j] == st.s[r.i]
            && (k != r.i && k != r.j ==> r.s[k] == st.s[k])
  {
    hide Swap;
    var r := StreamRound(st);
    SwapAt(st.s, r.i, r.j, r.i);
    SwapAt(st.s, r.i, r.j, r.j);
    SwapAt(st.s, r.i, r.j, k);
  }

  /** A value that stands at two places is counted twice. */
  lemma CountedTwice(s: seq<byte>, a: nat, b: nat)
    requires a < b < |s| && s[a] == s[b]
    ensures multiset(s)[s[a]] >= 2
  {
    assert s == s[..b] + s[b..];
    assert s[..b][a] == s[a] && s[b..][0] == s[a];
  }

  lemma IdentityCounts(v: byte)
    ensures multiset(Identity())[v] == 1
  {
    var s := Identity();
    assert s == s[..v] + [s[v]] + s[v + 1..];
  }

  lemma PermutationInjective(s: seq<byte>, a: byte, b: byte)
    requires IsPermutation(s) && a != b
    ensures s[a] != s[b]
  {
    if s[a] == s[b] {
      CountedTwice(s, if a < b then a else b, if a < b then b else a);
      IdentityCounts(s[a]);
      assert false;
    }
  }

  /** In a permutation exactly one place holds the keystream byte: the one numbered by
      the sum of the entries at i and j. */
  lemma KeyBytePlace(x: Stream, t: byte)
    requires |x.s| == 256 && IsPermutation(x.s)
    ensures x.s[t] as bv8 == KeyByte(x) <==> t == (x.s[x.i] as int + x.s[x.j] as int) % 256
  {
    hide IsPermutation;
    var place := (x.s[x.i] as int + x.s[x.j] as int) % 256;
    SameBits(x.s[t], x.s[place]);
    if t != place {
      PermutationInjective(x.s, t, place);
    }
  }

  /** Output byte k is input byte k combined with the entry of the array of round k + 1
      at that place, and with no other entry. */
  lemma OutputByte(key: seq<byte>, msg: seq<bv8>, k: nat, t: byte)
    requires |key| > 0 && k < |msg|
    ensures var x := Run(Start(key), k + 1);
            Cipher(key, msg)[k] == (x.s[t] as bv8) ^ msg[k] <==> t == (x.s[x.i] as int + x.s[x.j] as int) % 256
  {
    hide KeyByte, Start, Run;
    AlwaysPermutation(key, 0, k + 1);
    var x := Run(Start(key), k + 1);
    KeyBytePlace(x, t);
    DecryptAt(Start(key), msg, k);
    XorCancels(x.s[t] as bv8, KeyByte(x), msg[k]);
  }

  lemma XorCancels(a: bv8, b: bv8, c: bv8)
    ensures b ^ c == a ^ c <==> a == b
  {
    XorTwice(c, a);
    XorTwice(c, b);
    assert a ^ c == c ^ a && b ^ c == c ^ b;
  }

  // ----- the listing as equations -----

  /** One line of the shuffle takes a to b. */
  ghost predicate ShuffleLine(key: seq<byte>, n: byte, a: Shuffle, b: Shuffle)
    requires |key| > 0
  {
    && |a.s| == 256 && b.j == (a.j as int + a.s[n] as int + key[n % |key|] as int) % 256
    && Exchanged(a.s, b.s, n, b.j)
  }

  /** The first three lines of the last loop take a to b. */
  ghost predicate StreamLine(a: Stream, b: Stream)
  {
    && |a.s| == 256 && b.i == (a.i as int + 1) % 256 && b.j == (a.j as int + a.s[b.i] as int) % 256
    && Exchanged(a.s, b.s, b.i, b.j)
  }

  /** The last two lines make output byte o of input byte c. */
  ghost predicate OutputLine(x: Stream, c: bv8, o: bv8)
  {
    |x.s| == 256 && o == Bits(x.s[(x.s[x.i] as int + x.s[x.j] as int) % 256]) ^ c
  }

  ghost predicate Filled(st: Shuffle)
  {
    st.j == 0 && |st.s| == 256 && forall k :: 0 <= k < 256 ==> st.s[k] == k
  }

  /** The values of the variables before and after every round of the last two loops. */
  datatype Trace = Trace(shuffle: seq<Shuffle>, stream: seq<Stream>)

  /** With these values every line of the listing holds. */
  ghost predicate IsListing(key: seq<byte>, msg: seq<bv8>, output: seq<bv8>, t: Trace)
    requires |key| > 0
  {
    && |t.shuffle| == 257 && |t.stream| == |msg| + 1 && |output| == |msg|
    && Filled(t.shuffle[0]) && (forall n :: 0 <= n < 256 ==> ShuffleLine(key, n, t.shuffle[n], t.shuffle[n + 1]))
    && t.stream[0] == Stream(0, 0, t.shuffle[256].s)
    && (forall k :: 0 <= k < |msg| ==> StreamLine(t.stream[k], t.stream[k + 1]))
    && (forall k :: 0 <= k < |msg| ==> OutputLine(t.stream[k + 1], msg[k], output[k]))
  }

  lemma ShuffleLineIff(key: seq<byte>, n: byte, a: Shuffle, b: Shuffle)
    requires |key| > 0 && |a.s| == 256
    ensures ShuffleLine(key, n, a, b) <==> b == ShuffleRound(key, n, a)
  {
    SwapExchanges(a.s, b.s, n, b.j);
    hide Swap, Exchanged;
  }

  lemma StreamLineIff(a: Stream, b: Stream)
    requires |a.s| == 256
    ensures StreamLine(a, b) <==> b == StreamRound(a)
  {
    SwapExchanges(a.s, b.s, b.i, b.j);
    hide Swap, Exchanged;
  }

  lemma OutputLineIff(x: Stream, c: bv8, o: bv8)
    requires |x.s| == 256
    ensures OutputLine(x, c, o) <==> o == KeyByte(x) ^ c
  {
    hide Bits, KeyByte;
    var e := Bits(x.s[(x.s[x.i] as int + x.s[x.j] as int) % 256]);
    KeyByteIs(x);
    XorCancels(e, KeyByte(x), c);
  }

  lemma KeyByteIs(x: Stream)
    requires |x.s| == 256
    ensures KeyByte(x) == Bits(x.s[(x.s[x.i] as int + x.s[x.j] as int) % 256])
  {
    hide Bits;
  }

  lemma FilledIff(st: Shuffle)
    ensures Filled(st) <==> st == Shuffle(0, Identity())
  {
  }

  lemma {:induction false} ShuffleDetermined(key: seq<byte>, msg: seq<bv8>, output: seq<bv8>, t: Trace, n: nat)
    requires |key| > 0 && IsListing(key, msg, output, t) && n <= 256
    ensures t.shuffle[n] == Schedule(key, n)
  {
    hide Filled, ShuffleLine, StreamLine, OutputLine, ShuffleRound;
    FilledIff(t.shuffle[0]);
    if n > 0 {
      ShuffleDetermined(key, msg, output, t, n - 1);
      ShuffleLineIff(key, n - 1, t.shuffle[n - 1], t.shuffle[n - 1 + 1]);
    }
  }

  lemma {:induction false} StreamDetermined(key: seq<byte>, msg: seq<bv8>, output: seq<bv8>, t: Trace, k: nat)
    requires |key| > 0 && IsListing(key, msg, output, t) && k <= |msg|
    ensures t.stream[k] == Run(Start(key), k)
  {
    hide Filled, ShuffleLine, StreamLine, OutputLine, StreamRound, Schedule;
    ShuffleDetermined(key, msg, output, t, 256);
    if k > 0 {
      StreamDetermined(key, msg, output, t, k - 1);
      StreamLineIff(t.stream[k - 1], t.stream[k - 1 + 1]);
    }
  }

  lemma ListingDetermined(key: seq<byte>, msg: seq<bv8>, output: seq<bv8>, t: Trace)
    requires |key| > 0 && IsListing(key, msg, output, t)
    ensures output == Cipher(key, msg)
  {
    forall k | 0 <= k < |msg|
      ensures output[k] == Cipher(key, msg)[k]
    {
      ByteDetermined(key, msg, output, t, k);
    }
  }

  lemma ByteDetermined(key: seq<byte>, msg: seq<bv8>, output: seq<bv8>, t: Trace, k: nat)
    requires |key| > 0 && IsListing(key, msg, output, t) && k < |msg|
    ensures |output| == |msg| && output[k] == Cipher(key, msg)[k]
  {
    hide Filled, ShuffleLine, StreamLine, OutputLine, Run, Start, KeyByte, Decrypt;
    StreamDetermined(key, msg, output, t, k + 1);
    CipherAt(key, msg, k);
    OutputLineIff(t.stream[k + 1], msg[k], output[k]);
  }

  lemma CipherAt(key: seq<byte>, msg: seq<bv8>, k: nat)
    requires |key| > 0 && k < |msg|
    ensures Cipher(key, msg)[k] == KeyByte(Run(Start(key), k + 1)) ^ msg[k]
  {
    hide Start, KeyByte, Run;
    DecryptAt(Start(key), msg, k);
  }

  function TraceOf(key: seq<byte>, rounds: nat): Trace
    requires |key| > 0
  {
    Trace(seq(257, n requires 0 <= n < 257 => Schedule(key, n)), seq(rounds + 1, n requires 0 <= n => Run(Start(key), n)))
  }

  lemma TraceIsListing(key: seq<byte>, msg: seq<bv8>)
    requires |key| > 0
    ensures IsListing(key, msg, Cipher(key, msg), TraceOf(key, |msg|))
  {
    hide Filled, ShuffleLine, StreamLine, OutputLine, KeyByte, ShuffleRound, StreamRound, Decrypt, Schedule, Run;
    var t := TraceOf(key, |msg|);
    FilledIff(t.shuffle[0]);
    ScheduleStep(key, 0);
    RunStep(Start(key), 0);
    forall n | 0 <= n < 256
      ensures ShuffleLine(key, n, t.shuffle[n], t.shuffle[n + 1])
    {
      ScheduleStep(key, n);
      ShuffleLineIff(key, n, t.shuffle[n], t.shuffle[n + 1]);
    }
    forall k | 0 <= k < |msg|
      ensures StreamLine(t.stream[k], t.stream[k + 1]) && OutputLine(t.stream[k + 1], msg[k], Cipher(key, msg)[k])
    {
      RunStep(Start(key), k);
      StreamLineIff(t.stream[k], t.stream[k + 1]);
      CipherAt(key, msg, k);
      OutputLineIff(t.stream[k + 1], msg[k], Cipher(key, msg)[k]);
    }
  }

  /** A sequence of bytes is the cipher's result exactly when, for some values of the
      variables, it satisfies every line of the listing. */
  lemma ListingIff(key: seq<byte>, msg: seq<bv8>, output: seq<bv8>)
    requires |key| > 0
    ensures output == Cipher(key, msg) <==> exists t :: IsListing(key, msg, output, t)
  {
    TraceIsListing(key, msg);
    if t :| IsListing(key, msg, output, t) {
      ListingDetermined(key, msg, output, t);
    }
  }

  // ----- a repeated key -----

  function Repeat(key: seq<byte>, n: nat): (r: seq<byte>)
    ensures |r| == n * |key|
  {
    if n == 0 then [] else Repeat(key, n - 1) + key
  }

  lemma {:induction false} RepeatAt(key: seq<byte>, n: nat, i: nat)
    requires i < n * |key|
    ensures |key| > 0 && Repeat(key, n)[i] == key[i % |key|]
  {
    if i < (n - 1) * |key| {
      RepeatAt(key, n - 1, i);
    } else {
      var r := i - (n - 1) * |key|;
      assert i == (n - 1) * |key| + r;
      DivMod(n - 1, r, |key|);
    }
  }

  /** A key written several times over shuffles as the key itself, round by round. */
  lemma {:induction false} RepeatedKeySameSchedule(key: seq<byte>, n: nat, rounds: nat)
    requires |key| > 0 && n > 0 && rounds <= 256
    ensures |Repeat(key, n)| > 0 && Schedule(Repeat(key, n), rounds) == Schedule(key, rounds)
  {
    hide Swap, Identity, Repeat, ShuffleRound;
    RemainderOfMultiple(0, n, |key|);
    if rounds > 0 {
      RepeatedKeySameSchedule(key, n, rounds - 1);
      RepeatedKeySameRound(key, n, rounds - 1, Schedule(key, rounds - 1));
    }
  }

  lemma RepeatedKeySameRound(key: seq<byte>, n: nat, i: byte, st: Shuffle)
    requires |key| > 0 && n > 0 && |st.s| == 256
    ensures |Repeat(key, n)| > 0 && ShuffleRound(Repeat(key, n), i, st) == ShuffleRound(key, i, st)
  {
    hide Swap, Repeat;
    RemainderOfMultiple(i, n, |key|);
    RepeatAt(key, n, i % |Repeat(key, n)|);
  }

  // ----- the short cycle is never entered -----

  /** j one ahead of i on an entry 1: from here every round moves that entry along. */
  ghost predicate Stuck(st: Stream)
    requires |st.s| == 256
  {
    st.j == (st.i + 1) % 256 && st.s[st.j] == 1
  }

  /** A round stays in the short cycle when it starts there, and never gets there otherwise. */
  lemma StuckIffBefore(st: Stream)
    requires |st.s| == 256
    ensures Stuck(StreamRound(st)) <==> Stuck(st)
  {
    var i := (st.i + 1) % 256;
    var j := (st.j + st.s[i]) % 256;
    assert StreamRound(st).s[j] == st.s[i];
  }

  /** No key and no number of rounds lead the listing into the short cycle. */
  lemma {:induction false} NeverStuck(key: seq<byte>, n: nat)
    requires |key| > 0
    ensures !Stuck(Run(Start(key), n))
  {
    if n > 0 {
      NeverStuck(key, n - 1);
      StuckIffBefore(Run(Start(key), n - 1));
    }
  }

  // ----- the keystream is periodic from its first byte -----

  lemma {:induction false} RunAdds(st: Stream, m: nat, n: nat)
    requires |st.s| == 256
    ensures Run(st, m + n) == Run(Run(st, m), n)
  {
    hide StreamRound;
    if n > 0 {
      RunAdds(st, m, n - 1);
    }
  }

  /** Two different round counts with one state in common put the start on a cycle. */
  lemma {:induction false} MeetAtStart(st: Stream, m: nat, n: nat)
    requires |st.s| == 256 && m < n && Run(st, m) == Run(st, n)
    ensures Run(st, n - m) == st
  {
    hide StreamRound;
    if m > 0 {
      StreamRoundReversible(Run(st, m - 1));
      StreamRoundReversible(Run(st, n - 1));
      MeetAtStart(st, m - 1, n - 1);
    }
  }

  ghost function AllArrays(n: nat): set<seq<byte>>
  {
    if n == 0 then {[]} else set s, b: byte | s in AllArrays(n - 1) && 0 <= b < 256 :: s + [b]
  }

  lemma {:induction false} EveryArray(s: seq<byte>)
    ensures s in AllArrays(|s|)
  {
    if s != [] {
      EveryArray(s[..|s| - 1]);
      assert s == s[..|s| - 1] + [s[|s| - 1]];
    }
  }

  ghost function AllStreams(): set<Stream>
  {
    set i: byte, j: byte, s | 0 <= i < 256 && 0 <= j < 256 && s in AllArrays(256) :: Stream(i, j, s)
  }

  lemma InAllStreams(x: Stream)
    requires |x.s| == 256
    ensures x in AllStreams()
  {
    EveryArray(x.s);
  }

  /** The states after 0, 1, ..., n-1 rounds. */
  ghost function Visited(st: Stream, n: nat): (r: set<Stream>)
    requires |st.s| == 256
  {
    if n == 0 then {} else Visited(st, n - 1) + {Run(st, n - 1)}
  }

  lemma {:induction false} InVisited(st: Stream, n: nat, x: Stream) returns (m: nat)
    requires |st.s| == 256 && x in Visited(st, n)
    ensures m < n && Run(st, m) == x
  {
    if x == Run(st, n - 1) {
      m := n - 1;
    } else {
      m := InVisited(st, n - 1, x);
    }
  }

  /** Either some state comes twice within n rounds or n different states are visited. */
  lemma {:induction false} VisitedGrows(st: Stream, n: nat) returns (a: nat, b: nat)
    requires |st.s| == 256
    ensures if a < b then Run(st, a) == Run(st, b) else |Visited(st, n)| == n && Visited(st, n) <= AllStreams()
  {
    hide StreamRound, AllStreams, Run, AllArrays;
    a, b := 0, 0;
    if n > 0 {
      a, b := VisitedGrows(st, n - 1);
      if a >= b {
        var before, x := Visited(st, n - 1), Run(st, n - 1);
        if x in before {
          a := InVisited(st, n - 1, x);
          b := n - 1;
        } else {
          InAllStreams(x);
          OneMoreMember(before, x, AllStreams());
        }
      }
    }
  }

  lemma OneMoreMember<T>(u: set<T>, x: T, v: set<T>)
    requires u <= v && x !in u && x in v
    ensures |u + {x}| == |u| + 1 && u + {x} <= v
  {
  }

  lemma SubsetSize<T>(u: set<T>, v: set<T>)
    requires u <= v
    ensures |u| <= |v|
  {
    assert v == u + (v - u);
  }

  /** From every state the rounds return to that very state: the keystream has no
      run-in, and from some length on it repeats from its first byte. */
  lemma KeystreamPeriodic(st: Stream) returns (period: nat)
    requires |st.s| == 256
    ensures period > 0 && Run(st, period) == st
    ensures forall k: nat :: KeyByte(Run(st, period + k)) == KeyByte(Run(st, k))
  {
    hide KeyByte, AllStreams, StreamRound, Run, Visited;
    var a, b := VisitedGrows(st, |AllStreams()| + 1);
    if a >= b {
      SubsetSize(Visited(st, |AllStreams()| + 1), AllStreams());
      assert false;
    }
    MeetAtStart(st, a, b);
    period := b - a;
    forall k: nat
      ensures KeyByte(Run(st, period + k)) == KeyByte(Run(st, k))
    {
      RunAdds(st, period, k);
    }
  }

  // ----- the listing -----

  method FillState(s: array<byte>)
    requires s.Length == 256
    modifies s
    ensures s[..] == Identity()
  {
    for i := 0 to 256
      invariant forall k :: 0 <= k < i ==> s[k] == k
    {
      s[i] := i;
    }
  }

  method ShuffleByKey(s: array<byte>, secretKey: array<byte>) returns (j: byte)
    requires s.Length == 256 && s != secretKey && secretKey.Length > 0
    requires s[..] == Identity()
    modifies s
    ensures Shuffle(j, s[..]) == Schedule(secretKey[..], 256)
  {
    hide Schedule, Swap;
    j := 0;
    ghost var key := secretKey[..];
    ScheduleStep(key, 0);
    for i := 0 to 256
      invariant secretKey[..] == key
      invariant Shuffle(j, s[..]) == Schedule(key, i)
    {
      ScheduleStep(key, i);
      ghost var before := Shuffle(j, s[..]);
      assert secretKey[i % secretKey.Length] == key[i % |key|];
      j := (j + s[i] + secretKey[i % secretKey.Length]) % 256;
      s[i], s[j] := s[j], s[i];
      SwapExchanges(before.s, s[..], i, j);
    }
  }

  lemma ScheduleStep(key: seq<byte>, n: nat)
    requires |key| > 0 && n < 256
    ensures Schedule(key, 0) == Shuffle(0, Identity())
    ensures Schedule(key, n + 1) == ShuffleRound(key, n, Schedule(key, n))
  {
  }

  /** The body of the last loop up to f. */
  method NextKeyByte(s: array<byte>, i0: byte, j0: byte) returns (i: byte, j: byte, f: bv8)
    requires s.Length == 256
    modifies s
    ensures Stream(i, j, s[..]) == StreamRound(Stream(i0, j0, old(s[..])))
    ensures f == KeyByte(Stream(i, j, s[..]))
  {
    i := (i0 + 1) % 256;
    j := (j0 + s[i]) % 256;
    s[i], s[j] := s[j], s[i];
    var sum := s[i] as int + s[j] as int;
    f := s[sum % 256] as bv8;
  }

  method DecryptMessage(s: array<byte>, encryptedInput: array<bv8>, decryptedOutput: array<bv8>) returns (i: byte, j: byte)
    requires s.Length == 256 && encryptedInput.Length == decryptedOutput.Length
    requires encryptedInput != decryptedOutput && s as object != encryptedInput && s as object != decryptedOutput
    modifies s, decryptedOutput
    ensures Stream(i, j, s[..]) == Decrypt(Stream(0, 0, old(s[..])), encryptedInput[..]).0
    ensures decryptedOutput[..] == Decrypt(Stream(0, 0, old(s[..])), encryptedInput[..]).1
  {
    hide Decrypt, StreamRound, KeyByte, Run;
    i, j := 0, 0;
    ghost var st, msg := Stream(0, 0, s[..]), encryptedInput[..];
    RunStep(st, 0);
    for k := 0 to encryptedInput.Length
      invariant encryptedInput[..] == msg
      invariant Stream(i, j, s[..]) == Run(st, k)
      invariant forall m :: 0 <= m < k ==> decryptedOutput[m] == KeyByte(Run(st, m + 1)) ^ msg[m]
    {
      RunStep(st, k);
      var f;
      i, j, f := NextKeyByte(s, i, j);
      decryptedOutput[k] := f ^ encryptedInput[k];
    }
    TrajectoryIgnoresMessage(st, msg, msg);
    forall m | 0 <= m < |msg|
      ensures decryptedOutput[m] == Decrypt(st, msg).1[m]
    {
      DecryptAt(st, msg, m);
    }
    assert decryptedOutput[..] == Decrypt(st, msg).1;
  }

  lemma RunStep(st: Stream, k: nat)
    requires |st.s| == 256
    ensures Run(st, 0) == st && Run(st, k + 1) == StreamRound(Run(st, k))
  {
  }

  method RunListing(secretKey: array<byte>, encryptedInput: array<bv8>) returns (decryptedOutput: array<bv8>)
    requires secretKey.Length > 0
    ensures fresh(decryptedOutput)
    ensures decryptedOutput[..] == Cipher(secretKey[..], encryptedInput[..])
    ensures exists t :: IsListing(secretKey[..], encryptedInput[..], decryptedOutput[..], t)
  {
    ListingIff(secretKey[..], encryptedInput[..], Cipher(secretKey[..], encryptedInput[..]));
    hide IsListing, Cipher;
    var s := new byte[256];
    decryptedOutput := new bv8[encryptedInput.Length];
    FillState(s);
    var j := ShuffleByKey(s, secretKey);
    var i;
    i, j := DecryptMessage(s, encryptedInput, decryptedOutput);
  }
}
