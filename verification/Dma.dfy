/**
 The chained DMA copy `my_memcpy` of lab5/Lab5_template_de1soc/software/lab5/vip_fr.c.
 Descriptors are written into an allocated array; a null `next` pointer is None and
 any other one an index into that array.
 */
module Dma {
  import opened Memory

  const MAX_BLOCK := 32 * 1024

  datatype Descriptor = Descriptor(next: Option<nat>, dest: nat, src: nat, len: nat)

  datatype Status = Transferred | DeviceNotFound | DescriptorFault

  /** How many descriptors the C code allocates for a transfer of n bytes. */
  function BlockCount(n: nat): nat
  {
    (n + MAX_BLOCK - 1) / MAX_BLOCK
  }

  function Min(a: int, b: int): int
  {
    if a < b then a else b
  }

  /** Descriptor i of the chain that copies n bytes from s to d. */
  function Block(d: nat, s: nat, n: nat, i: nat): (b: Descriptor)
    requires i * MAX_BLOCK <= n
  {
    var len := Min(MAX_BLOCK, n - i * MAX_BLOCK);
    Descriptor(if i * MAX_BLOCK + len == n then None else Some(i + 1), d + i * MAX_BLOCK, s + i * MAX_BLOCK, len)
  }

  function Chain(d: nat, s: nat, n: nat): (chain: seq<Descriptor>)
    ensures |chain| == BlockCount(n)
  {
    seq(BlockCount(n), i requires 0 <= i < BlockCount(n) => Block(d, s, n, i))
  }

  /** The chain covers the transfer exactly: byte o of it lies in one block only,
      number o / 32768, and is carried from s + o to d + o. */
  lemma ChainTiles(d: nat, s: nat, n: nat, o: nat)
    requires o < n
    ensures var k := o / 32768;
            k < |Chain(d, s, n)| &&
            (forall i :: 0 <= i < |Chain(d, s, n)| ==>
              (Chain(d, s, n)[i].dest <= d + o < Chain(d, s, n)[i].dest + Chain(d, s, n)[i].len <==> i == k)) &&
            d + o - Chain(d, s, n)[k].dest == s + o - Chain(d, s, n)[k].src
  {
  }

  /** The number of descriptors is n / 32768 rounded up. */
  lemma ChainLength(d: nat, s: nat, n: nat)
    ensures var k := |Chain(d, s, n)|;
            32768 * k >= n && (n > 0 ==> 32768 * (k - 1) < n) && (n == 0 ==> k == 0)
  {
  }

  /** Every block holds 1 to 32768 bytes, each starts where the one before ends in
      both memories, the last ends the transfer, and only the last is unlinked. */
  lemma ChainShape(d: nat, s: nat, n: nat, i: nat)
    requires i < |Chain(d, s, n)|
    ensures var b := Chain(d, s, n)[i];
            && 1 <= b.len <= 32768
            && (i == 0 ==> b.dest == d && b.src == s)
            && (i + 1 < |Chain(d, s, n)| ==>
                  b.next == Some(i + 1) && b.len == 32768 &&
                  Chain(d, s, n)[i + 1].dest == b.dest + b.len && Chain(d, s, n)[i + 1].src == b.src + b.len)
            && (i + 1 == |Chain(d, s, n)| ==> b.next == None && b.dest + b.len == d + n && b.src + b.len == s + n)
  {
  }

  /** The builder loop: the descriptors for n bytes, in an array of exactly the
      allocated size. */
  method BuildChain(pDes: nat, pSrc: nat, nSize: nat) returns (desc: array<Descriptor>)
    ensures fresh(desc) && desc[..] == Chain(pDes, pSrc, nSize)
  {
    var nCnt := (nSize + MAX_BLOCK - 1) / MAX_BLOCK;
    desc := new Descriptor[nCnt](_ => Descriptor(None, 0, 0, 0));
    var nIndex := 0;
    var nRemaindSize, pDesBlock, pSrcBlock := nSize, pDes, pSrc;
    while nRemaindSize > 0
      invariant nIndex <= nCnt
      invariant nRemaindSize == if nIndex < nCnt then nSize - nIndex * MAX_BLOCK else 0
      invariant nIndex < nCnt ==> pDesBlock == pDes + nIndex * MAX_BLOCK && pSrcBlock == pSrc + nIndex * MAX_BLOCK
      invariant forall i :: 0 <= i < nIndex ==> desc[i] == Chain(pDes, pSrc, nSize)[i]
    {
      var nBlockSize := MAX_BLOCK;
      if nBlockSize > nRemaindSize {
        nBlockSize := nRemaindSize;
      }
      nRemaindSize := nRemaindSize - nBlockSize;
      desc[nIndex] := Descriptor(if nRemaindSize == 0 then None else Some(nIndex + 1), pDesBlock, pSrcBlock, nBlockSize);
      pDesBlock := pDesBlock + nBlockSize;
      pSrcBlock := pSrcBlock + nBlockSize;
      nIndex := nIndex + 1;
    }
  }

  /** A chain the engine can run: links lead to later descriptors, and each block
      lies in memory and may be copied byte by byte. */
  ghost predicate Runnable(chain: seq<Descriptor>, size: nat)
  {
    forall i :: 0 <= i < |chain| ==>
      && (chain[i].next.Some? ==> i < chain[i].next.value)
      && chain[i].dest + chain[i].len <= size && chain[i].src + chain[i].len <= size
      && (chain[i].dest <= chain[i].src || chain[i].src + chain[i].len <= chain[i].dest)
  }

  /** The memory after the engine has run the chain from descriptor `at`: copy the
      block, follow the link, stop after an unlinked one or at one never allocated. */
  ghost function Execute(chain: seq<Descriptor>, mem: seq<bv8>, at: nat): (r: seq<bv8>)
    requires Runnable(chain, |mem|)
    ensures |r| == |mem|
    decreases |chain| - at
  {
    if at >= |chain| then mem
    else
      var b := chain[at];
      var mem' := CopyBlock(mem, b.dest, b.src, b.len);
      if b.next.None? then mem' else Execute(chain, mem', b.next.value)
  }

  lemma ChainRunnable(d: nat, s: nat, n: nat, size: nat)
    requires d + n <= size && s + n <= size && (d <= s || s + n <= d)
    ensures Runnable(Chain(d, s, n), size)
  {
    forall i | 0 <= i < |Chain(d, s, n)|
      ensures var b := Chain(d, s, n)[i];
              (b.next.Some? ==> i < b.next.value) && b.dest + b.len <= size && b.src + b.len <= size &&
              (b.dest <= b.src || b.src + b.len <= b.dest)
    {
      ChainShape(d, s, n, i);
    }
  }

  /** Running the chain built for n bytes is one plain copy of n bytes. */
  lemma ChainCopies(mem: seq<bv8>, d: nat, s: nat, n: nat)
    requires d + n <= |mem| && s + n <= |mem| && (d <= s || s + n <= d)
    ensures Runnable(Chain(d, s, n), |mem|)
    ensures Execute(Chain(d, s, n), mem, 0) == CopyBlock(mem, d, s, n)
  {
    hide CopyBlock;
    ChainRunnable(d, s, n, |mem|);
    CopyNothing(mem, d, s);
    if n > 0 {
      ChainCopiesFrom(mem, mem, d, s, n, 0);
    }
  }

  lemma CopyNothing(mem: seq<bv8>, d: nat, s: nat)
    requires d <= |mem| && s <= |mem|
    ensures CopyBlock(mem, d, s, 0) == mem
  {
  }

  lemma {:induction false} ChainCopiesFrom(was: seq<bv8>, mem: seq<bv8>, d: nat, s: nat, n: nat, i: nat)
    requires d + n <= |was| == |mem| && s + n <= |was| && (d <= s || s + n <= d)
    requires i < |Chain(d, s, n)|
    requires mem == CopyBlock(was, d, s, i * MAX_BLOCK)
    requires Runnable(Chain(d, s, n), |mem|)
    ensures Execute(Chain(d, s, n), mem, i) == CopyBlock(was, d, s, n)
    decreases |Chain(d, s, n)| - i
  {
    hide CopyBlock;
    var chain := Chain(d, s, n);
    var b := chain[i];
    ChainShape(d, s, n, i);
    var mem' := CopyBlock(mem, b.dest, b.src, b.len);
    NextBlock(was, mem, d, s, i * MAX_BLOCK, b.len);
    assert mem' == CopyBlock(was, d, s, i * MAX_BLOCK + b.len);
    if b.next.Some? {
      ChainCopiesFrom(was, mem', d, s, n, i + 1);
    }
  }

  /** Copying the next len bytes extends a copy of the first k, because the bytes
      still to be read have not been written. */
  lemma NextBlock(was: seq<bv8>, mem: seq<bv8>, d: nat, s: nat, k: nat, len: nat)
    requires d + k + len <= |was| == |mem| && s + k + len <= |was| && (d <= s || s + k + len <= d)
    requires mem == CopyBlock(was, d, s, k)
    ensures CopyBlock(mem, d + k, s + k, len) == CopyBlock(was, d, s, k + len)
  {
    var after, whole := CopyBlock(mem, d + k, s + k, len), CopyBlock(was, d, s, k + len);
    forall a | 0 <= a < |was|
      ensures after[a] == whole[a]
    {
      if d + k <= a < d + k + len {
        assert mem[s + (a - d)] == was[s + (a - d)];
      }
    }
  }

  lemma ChainEndsIff(d: nat, s: nat, n: nat)
    ensures Ends(Chain(d, s, n), 0) <==> n > 0
  {
    if n > 0 {
      ChainEnds(d, s, n, 0);
    }
  }

  method CopyInPlace(mem: array<bv8>, d: nat, s: nat, n: nat)
    requires d + n <= mem.Length && s + n <= mem.Length && (d <= s || s + n <= d)
    modifies mem
    ensures mem[..] == CopyBlock(old(mem[..]), d, s, n)
  {
    MemCpy(mem, d, mem, s, n);
    assert old(mem[..])[s..s + n] == old(mem[s..s + n]);
  }

  method RunChain(mem: array<bv8>, desc: array<Descriptor>) returns (status: Status)
    requires mem as object != desc && Runnable(desc[..], mem.Length)
    modifies mem
    ensures status == if Ends(desc[..], 0) then Transferred else DescriptorFault
    ensures mem[..] == Execute(desc[..], old(mem[..]), 0)
  {
    hide CopyBlock;
    var at := 0;
    while at < desc.Length
      invariant Runnable(desc[..], mem.Length)
      invariant Execute(desc[..], mem[..], at) == Execute(desc[..], old(mem[..]), 0)
      invariant Ends(desc[..], at) == Ends(desc[..], 0)
      decreases desc.Length - at
    {
      var b := desc[at];
      assert b == desc[..][at];
      ghost var was := mem[..];
      CopyInPlace(mem, b.dest, b.src, b.len);
      assert mem[..] == CopyBlock(was, b.dest, b.src, b.len);
      if b.next.None? {
        return Transferred;
      }
      at := b.next.value;
    }
    return DescriptorFault;
  }

  /** Whether the links from `at` reach an unlinked descriptor inside the array. */
  ghost predicate Ends(chain: seq<Descriptor>, at: nat)
    decreases |chain| - at
  {
    at < |chain| && (chain[at].next.None? || (at < chain[at].next.value && Ends(chain, chain[at].next.value)))
  }

  lemma {:induction false} ChainEnds(d: nat, s: nat, n: nat, i: nat)
    requires i < |Chain(d, s, n)|
    ensures Ends(Chain(d, s, n), i)
    decreases |Chain(d, s, n)| - i
  {
    ChainShape(d, s, n, i);
    if i + 1 < |Chain(d, s, n)| {
      ChainEnds(d, s, n, i + 1);
    }
  }

  /** The chained transfer is one plain copy of nSize bytes, exactly when the device
      is there and nSize is positive.  With nothing to copy no descriptor is
      allocated, yet the transfer is still started on the first one. */
  method MyMemcpy(mem: array<bv8>, pDes: nat, pSrc: nat, nSize: nat, deviceFound: bool) returns (status: Status)
    requires pDes + nSize <= mem.Length && pSrc + nSize <= mem.Length
    requires pDes <= pSrc || pSrc + nSize <= pDes
    modifies mem
    ensures status == if !deviceFound then DeviceNotFound else if nSize == 0 then DescriptorFault else Transferred
    ensures mem[..] == if status == Transferred then CopyBlock(old(mem[..]), pDes, pSrc, nSize) else old(mem[..])
  {
    hide CopyBlock, Chain, Execute, Runnable;
    if !deviceFound {
      return DeviceNotFound;
    }
    var desc := BuildChain(pDes, pSrc, nSize);
    ChainCopies(mem[..], pDes, pSrc, nSize);
    ChainEndsIff(pDes, pSrc, nSize);
    CopyNothing(mem[..], pDes, pSrc);
    status := RunChain(mem, desc);
  }
}
