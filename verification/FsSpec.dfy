/** Inodes, their block slots, and who owns a block.  Slots 0..11 of an inode are its direct block
    numbers, slot 12 its indirect block, and slots 13.. the words of that block. */
module FsSpec {
  import opened FsData
  import opened Machine

  const NDIRECT: nat := 12
  const MAXFILE: nat := 268
  const NSLOTS: nat := 269
  const BPB: nat := 8192
  const IPB: nat := 16

  datatype Inode = Inode(size: nat, addrs: seq<nat>)
  datatype Slot = Slot(ino: nat, k: nat)

  type Inodes = seq<Inode>
  type Blocks = seq<Block>
  type Owners = map<nat, Slot>

  /** The block number in a slot, 0 if there is none. */
  function Addr(inodes: Inodes, blocks: Blocks, s: Slot): nat {
    if s.ino < |inodes| && s.k < |inodes[s.ino].addrs| then inodes[s.ino].addrs[s.k]
    else if s.k < NSLOTS then WordIn(blocks, Table(inodes, s.ino), s.k - 13)
    else 0
  }

  /** The indirect block of an inode. */
  function Table(inodes: Inodes, i: nat): nat {
    if i < |inodes| && |inodes[i].addrs| == 13 then inodes[i].addrs[NDIRECT] else 0
  }

  function WordIn(blocks: Blocks, b: nat, j: int): nat {
    if 0 < b < |blocks| && 0 <= j < NINDIRECT then GetWord(blocks[b], j) else 0
  }

  /** The slot of the bn-th block of a file. */
  function FileSlot(i: nat, bn: nat): Slot {
    Slot(i, if bn < NDIRECT then bn else bn + 1)
  }

  ghost predicate Named(inodes: Inodes, blocks: Blocks, owner: Owners, b: nat)
    requires b in owner
  {
    Addr(inodes, blocks, owner[b]) == b
  }

  /** No block is named twice, and `owner` lists the named blocks. */
  ghost predicate Owned(inodes: Inodes, blocks: Blocks, owner: Owners, nmeta: nat) {
    && (forall i :: 0 <= i < |inodes| ==> |inodes[i].addrs| == 13)
    && (forall s {:trigger Addr(inodes, blocks, s)} :: Addr(inodes, blocks, s) != 0 ==>
          Addr(inodes, blocks, s) in owner && owner[Addr(inodes, blocks, s)] == s)
    && (forall b {:trigger Named(inodes, blocks, owner, b)} :: b in owner ==> Named(inodes, blocks, owner, b))
    && (forall b :: b in owner ==> 0 < nmeta <= b < |blocks|)
  }

  /** A block's bit is set exactly when it is metadata, named, or just allocated. */
  ghost predicate Marked(bits: seq<bool>, owner: Owners, held: set<nat>, nmeta: nat) {
    && (forall b :: 0 <= b < |bits| ==> (bits[b] <==> b < nmeta || b in owner || b in held))
    && (forall b :: b in held ==> 0 < nmeta <= b < |bits| && b !in owner)
  }

  /** A file has a block for every byte of its size. */
  ghost predicate NoHoles(inodes: Inodes, blocks: Blocks) {
    forall i: nat, bn: nat {:trigger Backed(inodes, blocks, i, bn)} :: i < |inodes| ==> Backed(inodes, blocks, i, bn)
  }

  ghost predicate Backed(inodes: Inodes, blocks: Blocks, i: nat, bn: nat)
    requires i < |inodes|
  {
    bn * BSIZE < inodes[i].size ==> bn < MAXFILE && Addr(inodes, blocks, FileSlot(i, bn)) != 0
  }

  /** A file keeps its blocks if no slot loses its block and sizes stay. */
  lemma StillBacked(inodes: Inodes, blocks: Blocks, inodes': Inodes, blocks': Blocks)
    requires NoHoles(inodes, blocks) && |inodes'| == |inodes|
    requires forall i :: 0 <= i < |inodes| ==> inodes'[i].size == inodes[i].size
    requires forall s {:trigger Addr(inodes, blocks, s)} :: Addr(inodes, blocks, s) != 0 ==> Addr(inodes', blocks', s) != 0
    ensures NoHoles(inodes', blocks')
  {
    forall i: nat, bn: nat | i < |inodes'| ensures Backed(inodes', blocks', i, bn) {
      assert Backed(inodes, blocks, i, bn);
    }
  }

  /** Zeroing or rewriting a block that holds no block numbers changes no slot. */
  lemma SameAddrs(inodes: Inodes, blocks: Blocks, owner: Owners, nmeta: nat, b: nat, blk: Block)
    requires Owned(inodes, blocks, owner, nmeta) && b < |blocks|
    requires b in owner ==> owner[b].k != NDIRECT
    ensures forall s :: Addr(inodes, blocks[b := blk], s) == Addr(inodes, blocks, s)
    ensures Owned(inodes, blocks[b := blk], owner, nmeta)
  {
    var blocks' := blocks[b := blk];
    forall s ensures Addr(inodes, blocks', s) == Addr(inodes, blocks, s) {
      TableSlot(inodes, blocks, owner, nmeta, s.ino);
    }
    forall c | c in owner ensures Named(inodes, blocks', owner, c) {
      assert Named(inodes, blocks, owner, c);
    }
  }

  lemma TableSlot(inodes: Inodes, blocks: Blocks, owner: Owners, nmeta: nat, i: nat)
    requires Owned(inodes, blocks, owner, nmeta)
    ensures var t := Table(inodes, i); t != 0 ==> t in owner && owner[t] == Slot(i, NDIRECT) && t < |blocks|
  {
    assert Table(inodes, i) != 0 ==> Addr(inodes, blocks, Slot(i, NDIRECT)) == Table(inodes, i);
  }

  /** One slot now holds b, the others what they held. */
  ghost predicate Filled(inodes: Inodes, blocks: Blocks, inodes': Inodes, blocks': Blocks, s: Slot, b: nat) {
    forall t {:trigger Addr(inodes', blocks', t)} ::
      Addr(inodes', blocks', t) == if t == s then b else Addr(inodes, blocks, t)
  }

  lemma FilledOwned(inodes: Inodes, blocks: Blocks, inodes': Inodes, blocks': Blocks, owner: Owners, nmeta: nat, s: Slot, b: nat)
    requires Owned(inodes, blocks, owner, nmeta) && b !in owner && 0 < nmeta <= b < |blocks|
    requires Filled(inodes, blocks, inodes', blocks', s, b) && Addr(inodes, blocks, s) == 0
    requires |blocks'| == |blocks| && forall i :: 0 <= i < |inodes'| ==> |inodes'[i].addrs| == 13
    ensures Owned(inodes', blocks', owner[b := s], nmeta)
  {
    var owner' := owner[b := s];
    forall c | c in owner' ensures Named(inodes', blocks', owner', c) {
      assert c != b ==> Named(inodes, blocks, owner, c);
    }
  }

  /** bmap stores a new block number in the inode. */
  lemma FillDirect(inodes: Inodes, blocks: Blocks, owner: Owners, nmeta: nat, i: nat, k: nat, b: nat)
    requires Owned(inodes, blocks, owner, nmeta) && i < |inodes| && k <= NDIRECT && 0 < b < |blocks| && blocks[b] == ZEROS
    requires inodes[i].addrs[k] == 0
    ensures var inodes' := inodes[i := inodes[i].(addrs := inodes[i].addrs[k := b])];
            Filled(inodes, blocks, inodes', blocks, Slot(i, k), b)
  {
    var inodes' := inodes[i := inodes[i].(addrs := inodes[i].addrs[k := b])];
    forall t ensures Addr(inodes', blocks, t) == if t == Slot(i, k) then b else Addr(inodes, blocks, t) {
      if 0 <= t.k - 13 < NINDIRECT {
        ZeroWord(t.k - 13);
      }
    }
  }

  /** bmap stores a new block number in the indirect block. */
  lemma FillIndirect(inodes: Inodes, blocks: Blocks, owner: Owners, nmeta: nat, i: nat, j: nat, b: nat)
    requires Owned(inodes, blocks, owner, nmeta) && i < |inodes| && j < NINDIRECT && b < 0x1_0000_0000
    requires Table(inodes, i) != 0
    ensures var t := Table(inodes, i);
            t < |blocks| && Filled(inodes, blocks, inodes, blocks[t := PutWord(blocks[t], j, b)], Slot(i, 13 + j), b)
  {
    TableSlot(inodes, blocks, owner, nmeta, i);
    var t := Table(inodes, i);
    var blocks' := blocks[t := PutWord(blocks[t], j, b)];
    forall s ensures Addr(inodes, blocks', s) == if s == Slot(i, 13 + j) then b else Addr(inodes, blocks, s) {
      TableSlot(inodes, blocks, owner, nmeta, s.ino);
      if 0 <= s.k - 13 < NINDIRECT {
        PutGet(blocks[t], j, b, s.k - 13);
      }
    }
  }

  /** What was in a slot, and in the data block it names, is still there. */
  ghost predicate Keeps(inodes: Inodes, blocks: Blocks, inodes': Inodes, blocks': Blocks) {
    && |inodes'| == |inodes| && |blocks'| == |blocks|
    && (forall i :: 0 <= i < |inodes| ==> inodes'[i].size == inodes[i].size)
    && (forall s {:trigger Addr(inodes, blocks, s)} :: 0 < Addr(inodes, blocks, s) < |blocks| ==>
          && Addr(inodes', blocks', s) == Addr(inodes, blocks, s)
          && (s.k != NDIRECT ==> blocks'[Addr(inodes, blocks, s)] == blocks[Addr(inodes, blocks, s)]))
  }

  lemma KeepsTrans(inodes: Inodes, blocks: Blocks, inodes1: Inodes, blocks1: Blocks, inodes2: Inodes, blocks2: Blocks)
    requires Keeps(inodes, blocks, inodes1, blocks1) && Keeps(inodes1, blocks1, inodes2, blocks2)
    ensures Keeps(inodes, blocks, inodes2, blocks2)
  {}

  /** Filling a slot keeps everything that was there. */
  lemma FilledKeeps(inodes: Inodes, blocks: Blocks, inodes': Inodes, blocks': Blocks, owner: Owners, nmeta: nat, s: Slot, b: nat, c: nat)
    requires Owned(inodes, blocks, owner, nmeta) && Filled(inodes, blocks, inodes', blocks', s, b) && Addr(inodes, blocks, s) == 0
    requires |inodes'| == |inodes| && |blocks'| == |blocks| && c < |blocks| && blocks' == blocks[c := blocks'[c]]
    requires c in owner ==> owner[c].k == NDIRECT
    requires forall i :: 0 <= i < |inodes| ==> inodes'[i].size == inodes[i].size
    requires NoHoles(inodes, blocks)
    ensures Keeps(inodes, blocks, inodes', blocks') && NoHoles(inodes', blocks')
  {
    forall t | 0 < Addr(inodes, blocks, t) < |blocks|
      ensures Addr(inodes', blocks', t) == Addr(inodes, blocks, t)
      ensures t.k != NDIRECT ==> blocks'[Addr(inodes, blocks, t)] == blocks[Addr(inodes, blocks, t)]
    {}
    assert forall t :: Addr(inodes, blocks, t) != 0 ==> Addr(inodes', blocks', t) != 0;
    StillBacked(inodes, blocks, inodes', blocks');
  }

  /** A byte of a file, and the file's contents. */
  function ByteAt(inodes: Inodes, blocks: Blocks, i: nat, k: nat): byte {
    var a := Addr(inodes, blocks, FileSlot(i, k / BSIZE));
    if 0 < a < |blocks| then blocks[a][k % BSIZE] else 0
  }

  function Content(inodes: Inodes, blocks: Blocks, i: nat): (c: seq<byte>)
    requires i < |inodes|
    ensures |c| == inodes[i].size
  {
    seq(inodes[i].size, k requires 0 <= k => ByteAt(inodes, blocks, i, k))
  }

  /** Bytes taken from one block are that stretch of the file. */
  lemma ChunkOf(inodes: Inodes, blocks: Blocks, i: nat, off: nat, m: nat)
    requires i < |inodes| && off % BSIZE + m <= BSIZE && off + m <= inodes[i].size
    requires 0 < Addr(inodes, blocks, FileSlot(i, off / BSIZE)) < |blocks|
    ensures var a := Addr(inodes, blocks, FileSlot(i, off / BSIZE));
            blocks[a][off % BSIZE..off % BSIZE + m] == Content(inodes, blocks, i)[off..off + m]
  {
    forall k | off <= k < off + m ensures k / BSIZE == off / BSIZE && k % BSIZE == off % BSIZE + (k - off) {
      SameBlock(off, k);
    }
  }

  lemma SameBlock(off: nat, k: nat)
    requires off <= k && off % BSIZE + (k - off) < BSIZE
    ensures k / BSIZE == off / BSIZE && k % BSIZE == off % BSIZE + (k - off)
  {}

  /** Within a file there is a block. */
  lemma InFile(inodes: Inodes, blocks: Blocks, owner: Owners, nmeta: nat, i: nat, k: nat)
    requires NoHoles(inodes, blocks) && Owned(inodes, blocks, owner, nmeta) && i < |inodes| && k < inodes[i].size
    ensures k / BSIZE < MAXFILE && 0 < Addr(inodes, blocks, FileSlot(i, k / BSIZE)) < |blocks|
  {
    assert Backed(inodes, blocks, i, k / BSIZE);
    assert k / BSIZE * BSIZE <= k;
  }

  /** Where byte k of a file is on disk: in the block that one of the twelve direct entries names, or the word of the
      indirect block for it. */
  lemma ContentAt(inodes: Inodes, blocks: Blocks, owner: Owners, nmeta: nat, i: nat, k: nat)
    requires NoHoles(inodes, blocks) && Owned(inodes, blocks, owner, nmeta) && i < |inodes| && k < inodes[i].size
    ensures var bn, addrs := k / 1024, inodes[i].addrs;
            && bn < 12 + 256 && |addrs| == 13 && (bn >= 12 ==> 0 < addrs[12] < |blocks|)
            && var a := if bn < 12 then addrs[bn] else GetWord(blocks[addrs[12]], bn - 12);
            0 < a < |blocks| && Content(inodes, blocks, i)[k] == blocks[a][k % 1024]
  {
    InFile(inodes, blocks, owner, nmeta, i, k);
    TableSlot(inodes, blocks, owner, nmeta, i);
  }

  /** Bytes lo.. of file i now read `bytes`; every other byte of every file is as it was. */
  ghost predicate Wrote(inodes: Inodes, blocks: Blocks, inodes': Inodes, blocks': Blocks, i: nat, lo: nat, bytes: seq<byte>) {
    && |inodes'| == |inodes| && |blocks'| == |blocks| && (forall j :: 0 <= j < |inodes| ==> inodes'[j].size == inodes[j].size)
    && (forall s {:trigger Addr(inodes, blocks, s)} {:trigger Addr(inodes', blocks', s)} ::
          Addr(inodes, blocks, s) != 0 ==> Addr(inodes', blocks', s) == Addr(inodes, blocks, s))
    && (forall k: nat {:trigger ByteAt(inodes', blocks', i, k)} :: lo <= k < lo + |bytes| ==>
          Addr(inodes', blocks', FileSlot(i, k / BSIZE)) != 0 && ByteAt(inodes', blocks', i, k) == bytes[k - lo])
    && (forall j: nat, k: nat {:trigger ByteAt(inodes', blocks', j, k)} ::
          !(j == i && lo <= k < lo + |bytes|) && Addr(inodes, blocks, FileSlot(j, k / BSIZE)) != 0 ==>
            ByteAt(inodes', blocks', j, k) == ByteAt(inodes, blocks, j, k))
  }

  lemma KeepsWrote(inodes: Inodes, blocks: Blocks, inodes': Inodes, blocks': Blocks, owner: Owners, nmeta: nat, i: nat, lo: nat)
    requires Keeps(inodes, blocks, inodes', blocks') && Owned(inodes, blocks, owner, nmeta)
    ensures Wrote(inodes, blocks, inodes', blocks', i, lo, [])
  {}

  lemma WroteMore(inodes: Inodes, blocks: Blocks, inodes1: Inodes, blocks1: Blocks, inodes2: Inodes, blocks2: Blocks,
                  i: nat, lo: nat, a: seq<byte>, b: seq<byte>)
    requires Wrote(inodes, blocks, inodes1, blocks1, i, lo, a) && Wrote(inodes1, blocks1, inodes2, blocks2, i, lo + |a|, b)
    ensures Wrote(inodes, blocks, inodes2, blocks2, i, lo, a + b)
  {
    forall k: nat | lo <= k < lo + |a + b|
      ensures Addr(inodes2, blocks2, FileSlot(i, k / BSIZE)) != 0 && ByteAt(inodes2, blocks2, i, k) == (a + b)[k - lo]
    {
      assert k < lo + |a| ==> ByteAt(inodes1, blocks1, i, k) == a[k - lo];
      assert ByteAt(inodes2, blocks2, i, k) == (a + b)[k - lo];
    }
    forall j: nat, k: nat | !(j == i && lo <= k < lo + |a + b|) && Addr(inodes, blocks, FileSlot(j, k / BSIZE)) != 0
      ensures ByteAt(inodes2, blocks2, j, k) == ByteAt(inodes, blocks, j, k)
    {
      assert ByteAt(inodes1, blocks1, j, k) == ByteAt(inodes, blocks, j, k);
    }
  }

  /** A block with some bytes replaced. */
  function Patch(b: Block, o: nat, bytes: seq<byte>): (r: Block)
    requires o + |bytes| <= BSIZE
    ensures forall k :: 0 <= k < BSIZE ==> r[k] == if o <= k < o + |bytes| then bytes[k - o] else b[k]
  {
    b[..o] + bytes + b[o + |bytes|..]
  }

  /** Writing into one block of a file. */
  lemma ChunkWrote(inodes: Inodes, blocks: Blocks, owner: Owners, nmeta: nat, i: nat, off: nat, bytes: seq<byte>)
    requires Owned(inodes, blocks, owner, nmeta) && off % BSIZE + |bytes| <= BSIZE
    requires 0 < Addr(inodes, blocks, FileSlot(i, off / BSIZE)) < |blocks|
    ensures var a := Addr(inodes, blocks, FileSlot(i, off / BSIZE));
            var blocks' := blocks[a := Patch(blocks[a], off % BSIZE, bytes)];
            Wrote(inodes, blocks, inodes, blocks', i, off, bytes) && Owned(inodes, blocks', owner, nmeta)
  {
    var a := Addr(inodes, blocks, FileSlot(i, off / BSIZE));
    var blocks' := blocks[a := Patch(blocks[a], off % BSIZE, bytes)];
    SameAddrs(inodes, blocks, owner, nmeta, a, Patch(blocks[a], off % BSIZE, bytes));
    forall k: nat | off <= k < off + |bytes| ensures ByteAt(inodes, blocks', i, k) == bytes[k - off] && k / BSIZE == off / BSIZE {
      SameBlock(off, k);
    }
    forall j: nat, k: nat | !(j == i && off <= k < off + |bytes|) && Addr(inodes, blocks, FileSlot(j, k / BSIZE)) != 0
      ensures ByteAt(inodes, blocks', j, k) == ByteAt(inodes, blocks, j, k)
    {
      if Addr(inodes, blocks, FileSlot(j, k / BSIZE)) == a {
        OtherByte(inodes, blocks, owner, nmeta, i, off, j, k, |bytes|);
      }
    }
  }

  lemma OtherByte(inodes: Inodes, blocks: Blocks, owner: Owners, nmeta: nat, i: nat, off: nat, j: nat, k: nat, m: nat)
    requires Owned(inodes, blocks, owner, nmeta) && off % BSIZE + m <= BSIZE
    requires !(j == i && off <= k < off + m) && Addr(inodes, blocks, FileSlot(j, k / BSIZE)) != 0
    requires Addr(inodes, blocks, FileSlot(j, k / BSIZE)) == Addr(inodes, blocks, FileSlot(i, off / BSIZE))
    ensures j == i && k / BSIZE == off / BSIZE && !(off % BSIZE <= k % BSIZE < off % BSIZE + m)
  {
    assert FileSlot(j, k / BSIZE) == FileSlot(i, off / BSIZE);
  }

  /** A file with bytes written at off, which is at most its size. */
  function Spliced(c: seq<byte>, off: nat, bytes: seq<byte>): (r: seq<byte>)
    requires off <= |c|
    ensures |r| == if off + |bytes| <= |c| then |c| else off + |bytes|
    ensures forall k :: 0 <= k < |r| ==> r[k] == if off <= k < off + |bytes| then bytes[k - off] else c[k]
  {
    c[..off] + bytes + c[if off + |bytes| <= |c| then off + |bytes| else |c|..]
  }

  lemma SplicedTwice(c: seq<byte>, off: nat, a: seq<byte>, b: seq<byte>)
    requires off <= |c|
    ensures |Spliced(c, off, a)| >= off + |a|
    ensures Spliced(Spliced(c, off, a), off + |a|, b) == Spliced(c, off, a + b)
  {
    var x, y := Spliced(Spliced(c, off, a), off + |a|, b), Spliced(c, off, a + b);
    assert |x| == |y|;
    assert forall k :: 0 <= k < |x| ==> x[k] == y[k];
  }

  /** What was written is what a read at the same place gives. */
  lemma ReadBack(c: seq<byte>, off: nat, bytes: seq<byte>, n: nat)
    requires off <= |c| && n <= |bytes|
    ensures off + n <= |Spliced(c, off, bytes)| && Spliced(c, off, bytes)[off..off + n] == bytes[..n]
  {}

  /** The size after a write. */
  function Resized(inodes: Inodes, i: nat, end: nat): Inodes
    requires i < |inodes|
  {
    if end > inodes[i].size then inodes[i := inodes[i].(size := end)] else inodes
  }

  lemma ResizedAddrs(inodes: Inodes, blocks: Blocks, i: nat, end: nat)
    requires i < |inodes|
    ensures forall s :: Addr(Resized(inodes, i, end), blocks, s) == Addr(inodes, blocks, s)
    ensures forall j: nat, k: nat :: ByteAt(Resized(inodes, i, end), blocks, j, k) == ByteAt(inodes, blocks, j, k)
  {}

  lemma ResizedOwned(inodes: Inodes, blocks: Blocks, owner: Owners, nmeta: nat, i: nat, end: nat)
    requires i < |inodes| && Owned(inodes, blocks, owner, nmeta)
    ensures Owned(Resized(inodes, i, end), blocks, owner, nmeta)
  {
    ResizedAddrs(inodes, blocks, i, end);
    forall b | b in owner ensures Named(Resized(inodes, i, end), blocks, owner, b) {
      assert Named(inodes, blocks, owner, b);
    }
  }

  /** What a write does to the contents of its file, and of every other file. */
  lemma WroteContent(inodes: Inodes, blocks: Blocks, inodes': Inodes, blocks': Blocks, owner: Owners, nmeta: nat,
                     i: nat, off: nat, bytes: seq<byte>)
    requires Wrote(inodes, blocks, inodes', blocks', i, off, bytes) && NoHoles(inodes, blocks) && Owned(inodes, blocks, owner, nmeta)
    requires i < |inodes| && off <= inodes[i].size
    ensures Content(Resized(inodes', i, off + |bytes|), blocks', i) == Spliced(Content(inodes, blocks, i), off, bytes)
  {
    var inodes2 := Resized(inodes', i, off + |bytes|);
    ResizedAddrs(inodes', blocks', i, off + |bytes|);
    var was, now := Content(inodes, blocks, i), Content(inodes2, blocks', i);
    var want := Spliced(was, off, bytes);
    forall k: nat | k < |now| ensures now[k] == want[k] {
      assert now[k] == ByteAt(inodes', blocks', i, k);
      if k < inodes[i].size {
        InFile(inodes, blocks, owner, nmeta, i, k);
        assert was[k] == ByteAt(inodes, blocks, i, k);
      }
    }
  }

  lemma WroteOthers(inodes: Inodes, blocks: Blocks, inodes': Inodes, blocks': Blocks, owner: Owners, nmeta: nat,
                    i: nat, off: nat, bytes: seq<byte>, j: nat)
    requires Wrote(inodes, blocks, inodes', blocks', i, off, bytes) && NoHoles(inodes, blocks) && Owned(inodes, blocks, owner, nmeta)
    requires i < |inodes| && j < |inodes| && j != i
    ensures Content(Resized(inodes', i, off + |bytes|), blocks', j) == Content(inodes, blocks, j)
  {
    ResizedAddrs(inodes', blocks', i, off + |bytes|);
    forall k: nat | k < inodes[j].size ensures ByteAt(inodes', blocks', j, k) == ByteAt(inodes, blocks, j, k) {
      InFile(inodes, blocks, owner, nmeta, j, k);
    }
  }

  /** A write leaves no hole. */
  lemma WroteBacked(inodes: Inodes, blocks: Blocks, inodes': Inodes, blocks': Blocks, i: nat, off: nat, bytes: seq<byte>)
    requires Wrote(inodes, blocks, inodes', blocks', i, off, bytes) && NoHoles(inodes, blocks)
    requires i < |inodes| && off <= inodes[i].size && off + |bytes| <= MAXFILE * BSIZE
    ensures NoHoles(Resized(inodes', i, off + |bytes|), blocks')
  {
    var inodes2 := Resized(inodes', i, off + |bytes|);
    ResizedAddrs(inodes', blocks', i, off + |bytes|);
    forall j: nat, bn: nat | j < |inodes2| ensures Backed(inodes2, blocks', j, bn) {
      assert Backed(inodes, blocks, j, bn);
      var k := bn * BSIZE;
      assert k / BSIZE == bn;
      if j == i && inodes[i].size <= k < off + |bytes| {
        assert ByteAt(inodes', blocks', i, k) == bytes[k - off];
      }
    }
  }

  // ----- freeing ----------------------------------------------------------------------------

  /** The owners without slots lo..hi-1 of an inode. */
  ghost function Without(owner: Owners, i: nat, lo: nat, hi: nat): Owners {
    map b | b in owner && !(owner[b].ino == i && lo <= owner[b].k < hi) :: owner[b]
  }

  /** Slots lo..hi-1 of an inode are empty now, the others hold what they held. */
  ghost predicate Emptied(inodes: Inodes, blocks: Blocks, inodes': Inodes, i: nat, lo: nat, hi: nat) {
    forall t {:trigger Addr(inodes', blocks, t)} ::
      Addr(inodes', blocks, t) == if t.ino == i && lo <= t.k < hi then 0 else Addr(inodes, blocks, t)
  }

  lemma EmptiedOwned(inodes: Inodes, blocks: Blocks, inodes': Inodes, owner: Owners, nmeta: nat, i: nat, lo: nat, hi: nat)
    requires Owned(inodes, blocks, owner, nmeta) && Emptied(inodes, blocks, inodes', i, lo, hi)
    requires forall j :: 0 <= j < |inodes'| ==> |inodes'[j].addrs| == 13
    ensures Owned(inodes', blocks, Without(owner, i, lo, hi), nmeta)
  {
    var owner' := Without(owner, i, lo, hi);
    forall b | b in owner' ensures Named(inodes', blocks, owner', b) {
      assert Named(inodes, blocks, owner, b);
    }
  }

  /** An empty slot owns nothing. */
  lemma EmptySlot(inodes: Inodes, blocks: Blocks, owner: Owners, nmeta: nat, i: nat, k: nat)
    requires Owned(inodes, blocks, owner, nmeta) && Addr(inodes, blocks, Slot(i, k)) == 0
    ensures Without(owner, i, k, k + 1) == owner
  {
    forall b | b in owner ensures owner[b] != Slot(i, k) {
      assert Named(inodes, blocks, owner, b);
    }
  }

  lemma WithoutMore(owner: Owners, i: nat, k: nat)
    ensures Without(Without(owner, i, 0, k), i, k, k + 1) == Without(owner, i, 0, k + 1)
  {}

  /** Free, named and metadata blocks make up the disk. */
  lemma Conservation(bits: seq<bool>, owner: Owners, nmeta: nat, blocks: Blocks, inodes: Inodes)
    requires Owned(inodes, blocks, owner, nmeta) && Marked(bits, owner, {}, nmeta) && |bits| == |blocks| && nmeta <= |bits|
    ensures |set b: nat | b < |bits| && !bits[b]| + |owner.Keys| + nmeta == |bits|
  {
    var free := set b: nat | b < |bits| && !bits[b];
    var named, meta, all := owner.Keys, UpTo(nmeta), UpTo(|bits|);
    forall b ensures b in all <==> b in free || b in named || b in meta
             ensures !(b in free && b in named) && !(b in free && b in meta) && !(b in named && b in meta)
    {}
    Partition(all, free, named, meta);
  }

  lemma Partition(all: set<nat>, a: set<nat>, b: set<nat>, c: set<nat>)
    requires forall x :: x in all <==> x in a || x in b || x in c
    requires forall x :: !(x in a && x in b) && !(x in a && x in c) && !(x in b && x in c)
    ensures |all| == |a| + |b| + |c|
  {
    assert all == a + b + c && a !! b && (a + b) !! c;
  }

  function UpTo(n: nat): (r: set<nat>)
    ensures |r| == n && forall b :: b in r <==> 0 <= b < n
  {
    if n == 0 then {} else UpTo(n - 1) + {n - 1}
  }

  /** Clearing a direct slot. */
  lemma EmptyDirect(inodes: Inodes, blocks: Blocks, i: nat, k: nat)
    requires i < |inodes| && k < NDIRECT && |inodes[i].addrs| == 13
    ensures Emptied(inodes, blocks, inodes[i := inodes[i].(addrs := inodes[i].addrs[k := 0])], i, k, k + 1)
  {}

  /** Clearing the indirect block number empties its words too. */
  lemma EmptyIndirect(inodes: Inodes, blocks: Blocks, i: nat)
    requires i < |inodes| && |inodes[i].addrs| == 13
    ensures Emptied(inodes, blocks, inodes[i := inodes[i].(addrs := inodes[i].addrs[NDIRECT := 0])], i, NDIRECT, NSLOTS)
  {}

  /** Other files keep their blocks. */
  lemma EmptiedBacked(inodes: Inodes, blocks: Blocks, inodes': Inodes, i: nat, lo: nat, hi: nat)
    requires i < |inodes| == |inodes'| && Emptied(inodes, blocks, inodes', i, lo, hi)
    requires NoHoles(inodes[i := inodes[i].(size := 0)], blocks) && forall j :: 0 <= j < |inodes| && j != i ==> inodes'[j] == inodes[j]
    ensures NoHoles(inodes'[i := inodes'[i].(size := 0)], blocks)
  {
    var a, a' := inodes[i := inodes[i].(size := 0)], inodes'[i := inodes'[i].(size := 0)];
    forall j: nat, bn: nat | j < |a'| ensures Backed(a', blocks, j, bn) {
      assert Backed(a, blocks, j, bn);
      assert j != i ==> Addr(a', blocks, FileSlot(j, bn)) == Addr(a, blocks, FileSlot(j, bn));
    }
  }

  /** Clearing the bit of a slot's block. */
  lemma MarkedDrop(bits: seq<bool>, inodes: Inodes, blocks: Blocks, owner: Owners, held: set<nat>, nmeta: nat, i: nat, k: nat)
    requires Owned(inodes, blocks, owner, nmeta) && Marked(bits, owner, held, nmeta) && |bits| == |blocks|
    requires Addr(inodes, blocks, Slot(i, k)) != 0
    ensures var b := Addr(inodes, blocks, Slot(i, k));
            b < |bits| && bits[b] && Marked(bits[b := false], Without(owner, i, k, k + 1), held, nmeta)
  {
    forall c | c in owner && owner[c] == Slot(i, k) ensures c == Addr(inodes, blocks, Slot(i, k)) {
      assert Named(inodes, blocks, owner, c);
    }
  }

  /** Without an indirect block there is nothing behind slots 12 and up. */
  lemma EmptyTable(inodes: Inodes, blocks: Blocks, owner: Owners, nmeta: nat, i: nat)
    requires Owned(inodes, blocks, owner, nmeta) && i < |inodes| && Table(inodes, i) == 0
    ensures Without(owner, i, NDIRECT, NSLOTS) == owner
  {
    forall b | b in owner && owner[b].ino == i ensures owner[b].k < NDIRECT {
      assert Named(inodes, blocks, owner, b);
    }
  }

  /** Bits after the first j words of the indirect block have been freed. */
  ghost predicate WordsFreed(bits0: seq<bool>, bits: seq<bool>, owner: Owners, i: nat, j: nat) {
    |bits| == |bits0| && forall b: nat :: b < |bits| ==>
      (bits[b] <==> bits0[b] && !(b in owner && owner[b].ino == i && 13 <= owner[b].k < 13 + j))
  }

  lemma WordsFreedStep(bits0: seq<bool>, bits: seq<bool>, inodes: Inodes, blocks: Blocks, owner: Owners, held: set<nat>,
                       nmeta: nat, i: nat, j: nat)
    requires Owned(inodes, blocks, owner, nmeta) && Marked(bits0, owner, held, nmeta) && |bits0| == |blocks|
    requires WordsFreed(bits0, bits, owner, i, j)
    ensures var b := Addr(inodes, blocks, Slot(i, 13 + j));
            if b != 0 then b < |bits| && bits[b] && WordsFreed(bits0, bits[b := false], owner, i, j + 1)
            else WordsFreed(bits0, bits, owner, i, j + 1)
  {
    forall c | c in owner && owner[c] == Slot(i, 13 + j) ensures c == Addr(inodes, blocks, Slot(i, 13 + j)) {
      assert Named(inodes, blocks, owner, c);
    }
  }

  /** The words and then the indirect block itself have been freed. */
  lemma MarkedEnd(bits0: seq<bool>, bits: seq<bool>, inodes: Inodes, blocks: Blocks, owner: Owners, held: set<nat>, nmeta: nat, i: nat)
    requires Owned(inodes, blocks, owner, nmeta) && Marked(bits0, owner, held, nmeta) && |bits0| == |blocks|
    requires WordsFreed(bits0, bits, owner, i, NINDIRECT) && Addr(inodes, blocks, Slot(i, NDIRECT)) != 0
    ensures var t := Addr(inodes, blocks, Slot(i, NDIRECT));
            t < |bits| && bits[t] && Marked(bits[t := false], Without(owner, i, NDIRECT, NSLOTS), held, nmeta)
  {
    forall c | c in owner && owner[c] == Slot(i, NDIRECT) ensures c == Addr(inodes, blocks, Slot(i, NDIRECT)) {
      assert Named(inodes, blocks, owner, c);
    }
  }

  lemma WithoutAll(owner: Owners, i: nat)
    ensures Without(Without(owner, i, 0, NDIRECT), i, NDIRECT, NSLOTS) == Without(owner, i, 0, NSLOTS)
  {}

  /** Truncation frees exactly the blocks of the file. */
  lemma TruncatedBits(bits0: seq<bool>, bits: seq<bool>, inodes: Inodes, blocks: Blocks, owner: Owners, held: set<nat>, nmeta: nat, i: nat)
    requires Owned(inodes, blocks, owner, nmeta) && Marked(bits0, owner, held, nmeta) && |bits| == |bits0|
    requires Marked(bits, Without(owner, i, 0, NSLOTS), held, nmeta)
    ensures forall b: nat :: b < |bits| ==> (bits[b] <==> bits0[b] && !(b in owner && owner[b].ino == i))
  {
    forall b | b in owner ensures owner[b].k < NSLOTS {
      assert Named(inodes, blocks, owner, b);
    }
  }
}
