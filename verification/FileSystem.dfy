/** The block allocator and the inode contents of fs.c. */
module FileSystem {
  import opened FsData
  import opened FsSpec
  import opened Machine

  /** The number of blocks that n bytes from off on touch. */
  function Spanned(off: nat, n: nat): nat {
    if n == 0 then 0 else (off + n - 1) / BSIZE - off / BSIZE + 1
  }

  lemma SpannedMore(off: nat, tot: nat, m: nat)
    requires m > 0 && (tot == 0 || (off + tot) % BSIZE == 0)
    ensures Spanned(off, tot) + 1 <= Spanned(off, tot + m)
  {}

  lemma Adjacent(c: seq<byte>, a: nat, b: nat, d: nat)
    requires a <= b <= d <= |c|
    ensures c[a..b] + c[b..d] == c[a..d]
  {}

  datatype DiskImage = DiskImage(bits: seq<bool>, blocks: Blocks, dinodes: Inodes)

  const MAXOPBLOCKS: nat := 10

  /** The largest chunk filewrite hands to writei. */
  const CHUNK: nat := (MAXOPBLOCKS - 1 - 1 - 2) / 2 * BSIZE

  /** A chunk touches at most four blocks, so with the inode, the indirect block and the only
      bitmap block it fits the log's budget for one operation. */
  lemma ChunkBudget(touched: set<nat>, data: set<nat>, off: nat, n: nat, table: nat, inode: nat, bitmap: nat)
    requires n <= CHUNK && |data| <= Spanned(off, n) && touched <= data + {table, inode, bitmap}
    ensures |touched| <= 7 <= MAXOPBLOCKS
  {
    var extra := {table, inode, bitmap};
    assert extra == {table} + {inode} + {bitmap};
    assert |extra| <= 3;
    assert |data + extra| <= |data| + |extra|;
    Within(touched, data + extra);
  }

  lemma {:induction false} Within(a: set<nat>, b: set<nat>)
    requires a <= b
    ensures |a| <= |b|
  {
    assert b == a + (b - a);
  }

  class Disk {
    const nmeta: nat           // boot block, superblock, log, inode blocks and free map
    const bmapStart: nat
    const inodeStart: nat
    var bits: seq<bool>        // the free map, one bit for each block
    var blocks: Blocks
    var inodes: Inodes         // in memory
    var dinodes: Inodes        // on disk

    ghost var owner: Owners
    ghost var held: set<nat>      // allocated, and not yet in a slot
    ghost var touched: set<nat>   // blocks passed to log_write

    ghost predicate Valid()
      reads this
    {
      && Owned(inodes, blocks, owner, nmeta) && Marked(bits, owner, held, nmeta) && NoHoles(inodes, blocks)
      && |bits| == |blocks| < UINT && 0 < nmeta <= |blocks| && |dinodes| == |inodes|
    }

    /** A disk on which every file is empty. */
    constructor (size: nat, nmeta: nat, ninodes: nat, bmapStart: nat, inodeStart: nat)
      requires 0 < nmeta <= size < UINT
      ensures Valid() && held == {} && touched == {} && owner == map[] && |blocks| == size && |inodes| == ninodes
    {
      this.nmeta, this.bmapStart, this.inodeStart := nmeta, bmapStart, inodeStart;
      bits := seq(size, b => b < nmeta);
      blocks := seq(size, _ => ZEROS);
      inodes := seq(ninodes, _ => Inode(0, seq(13, _ => 0)));
      dinodes := seq(ninodes, _ => Inode(0, seq(13, _ => 0)));
      owner, held, touched := map[], {}, {};
      new;
      assert NoHoles(inodes, blocks) by {
        forall i: nat, bn: nat | i < |inodes| ensures Backed(inodes, blocks, i, bn) {
          assert inodes[i].size == 0;
        }
      }
    }

    /** BBLOCK(b, sb) */
    function Bblock(b: nat): (r: nat)
      ensures r >= bmapStart && 8192 * (r - bmapStart) <= b < 8192 * (r - bmapStart) + 8192
    {
      b / BPB + bmapStart
    }

    /** Every block that changed, and the bitmap block of every bit that changed, was logged. */
    ghost predicate Logged(bits0: seq<bool>, blocks0: Blocks, bits1: seq<bool>, blocks1: Blocks, logged: set<nat>) {
      && |bits1| == |bits0| && |blocks1| == |blocks0|
      && (forall b: nat :: b < |blocks1| && blocks1[b] != blocks0[b] ==> b in logged)
      && (forall b: nat :: b < |bits1| && bits1[b] != bits0[b] ==> Bblock(b) in logged)
    }

    /** What of the disk a log operation can change. */
    ghost function Image(): DiskImage
      reads this`bits, this`blocks, this`dinodes
    {
      DiskImage(bits, blocks, dinodes)
    }

    /** The operation that led from a to b logged every block it changed. */
    ghost predicate Covers(logged: set<nat>, a: DiskImage, b: DiskImage) {
      && Logged(a.bits, a.blocks, b.bits, b.blocks, logged)
      && |b.dinodes| == |a.dinodes| && forall i: nat :: i < |b.dinodes| && b.dinodes[i] != a.dinodes[i] ==> Iblock(i) in logged
    }

    /** A sequence of log operations, with the blocks each of them logged. */
    ghost predicate Operations(images: seq<DiskImage>, logged: seq<set<nat>>) {
      |images| == |logged| + 1 && forall k :: 0 <= k < |logged| ==> Covers(logged[k], images[k], images[k + 1])
    }

    ghost predicate IsBitmap(b: nat)
      reads this`bits
    {
      bmapStart <= b && (b - bmapStart) * BPB < |bits|
    }

    /** balloc's search: the first block whose bit is clear. */
    method FindFree() returns (r: nat)
      ensures r <= |bits| && (forall c :: 0 <= c < r ==> bits[c]) && (r < |bits| ==> !bits[r])
    {
      var b := 0;
      r := |bits|;
      while b < |bits| && r == |bits|
        invariant 0 <= b && b % BPB == 0 && r <= |bits| && (r < |bits| ==> !bits[r])
        invariant forall c :: 0 <= c < r && c < b ==> bits[c]
        invariant r < |bits| ==> r < b
      {
        var bi := 0;
        while bi < BPB && b + bi < |bits| && r == |bits|
          invariant 0 <= bi <= BPB && r <= |bits| && (r < |bits| ==> !bits[r])
          invariant forall c :: 0 <= c < r && c < b + bi ==> bits[c]
          invariant r < |bits| ==> r < b + bi
          invariant b + bi <= |bits| || bi == 0
        {
          if !bits[b + bi] {
            r := b + bi;
          }
          bi := bi + 1;
        }
        b := b + BPB;
      }
    }

    method Balloc() returns (b: nat)
      requires Valid()
      modifies this`bits, this`blocks, this`held, this`touched
      ensures Valid() && |bits| == |old(bits)| && |blocks| == |old(blocks)|
      ensures b == 0 <==> forall c :: 0 <= c < |bits| ==> old(bits)[c]
      ensures b == 0 ==> bits == old(bits) && blocks == old(blocks) && held == old(held) && touched == old(touched)
      ensures b != 0 ==> nmeta <= b < |blocks| && !old(bits)[b] && forall c :: 0 <= c < b ==> old(bits)[c]
      ensures b != 0 ==> bits == old(bits)[b := true] && blocks == old(blocks)[b := ZEROS] && b !in owner
      ensures b != 0 ==> held == old(held) + {b} && b !in old(held) && touched == old(touched) + {Bblock(b), b}
      ensures forall s :: Addr(inodes, blocks, s) == old(Addr(inodes, blocks, s))
      ensures Keeps(inodes, old(blocks), inodes, blocks)
    {
      b := FindFree();
      if b == |bits| {
        return 0;
      }
      SameAddrs(inodes, blocks, owner, nmeta, b, ZEROS);
      StillBacked(inodes, blocks, inodes, blocks[b := ZEROS]);
      bits := bits[b := true];
      blocks := blocks[b := ZEROS];
      held := held + {b};
      touched := touched + {Bblock(b), b};
    }

    /** A new block for an empty slot of the inode itself. */
    method NewDirect(i: nat, k: nat) returns (b: nat)
      requires Valid() && i < |inodes| && k <= NDIRECT && inodes[i].addrs[k] == 0
      modifies this`bits, this`blocks, this`held, this`touched, this`inodes, this`owner
      ensures Valid() && held == old(held) && (b == 0 <==> Full(old(bits)))
      ensures Keeps(old(inodes), old(blocks), inodes, blocks)
      ensures Filled(old(inodes), old(blocks), inodes, blocks, Slot(i, k), b)
      ensures b == 0 ==> inodes == old(inodes) && blocks == old(blocks) && bits == old(bits) && touched == old(touched)
      ensures b != 0 ==> touched == old(touched) + {Bblock(b), b} && b < |bits| == |old(bits)| && bits == old(bits)[b := true]
      ensures old(touched) <= touched && Logged(old(bits), old(blocks), bits, blocks, touched)
    {
      b := Balloc();
      if b != 0 {
        ghost var blocks1 := blocks;
        PutDirect(i, k, b);
        KeepsTrans(old(inodes), old(blocks), old(inodes), blocks1, inodes, blocks);
      }
    }

    method PutDirect(i: nat, k: nat, b: nat)
      requires Valid() && i < |inodes| && k <= NDIRECT && inodes[i].addrs[k] == 0 && b in held && blocks[b] == ZEROS
      modifies this`held, this`inodes, this`owner
      ensures Valid() && held == old(held) - {b}
      ensures Keeps(old(inodes), blocks, inodes, blocks)
      ensures Filled(old(inodes), blocks, inodes, blocks, Slot(i, k), b)
    {
      FillDirect(inodes, blocks, owner, nmeta, i, k, b);
      ghost var inodes0 := inodes;
      inodes := inodes[i := inodes[i].(addrs := inodes[i].addrs[k := b])];
      FilledOwned(inodes0, blocks, inodes, blocks, owner, nmeta, Slot(i, k), b);
      FilledKeeps(inodes0, blocks, inodes, blocks, owner, nmeta, Slot(i, k), b, b);
      owner := owner[b := Slot(i, k)];
      held := held - {b};
    }

    /** A new block for an empty word of the indirect block. */
    method NewIndirect(i: nat, j: nat) returns (b: nat)
      requires Valid() && i < |inodes| && j < NINDIRECT && Table(inodes, i) != 0 && WordIn(blocks, Table(inodes, i), j) == 0
      modifies this`bits, this`blocks, this`held, this`touched, this`owner
      ensures Valid() && held == old(held) && (b == 0 <==> Full(old(bits)))
      ensures Keeps(inodes, old(blocks), inodes, blocks)
      ensures Filled(inodes, old(blocks), inodes, blocks, Slot(i, 13 + j), b)
      ensures b == 0 ==> blocks == old(blocks) && bits == old(bits) && touched == old(touched)
      ensures b != 0 ==> touched == old(touched) + {Bblock(b), b, Table(inodes, i)} && b < |bits| == |old(bits)|
                         && bits == old(bits)[b := true]
      ensures old(touched) <= touched && Logged(old(bits), old(blocks), bits, blocks, touched)
    {
      b := Balloc();
      if b != 0 {
        ghost var blocks1 := blocks;
        PutIndirect(i, j, b);
        KeepsTrans(inodes, old(blocks), inodes, blocks1, inodes, blocks);
      }
    }

    method PutIndirect(i: nat, j: nat, b: nat)
      requires Valid() && i < |inodes| && j < NINDIRECT && Table(inodes, i) != 0 && WordIn(blocks, Table(inodes, i), j) == 0
      requires b in held
      modifies this`held, this`blocks, this`owner, this`touched
      ensures Valid() && held == old(held) - {b} && touched == old(touched) + {Table(inodes, i)}
      ensures Logged(bits, old(blocks), bits, blocks, touched)
      ensures Keeps(inodes, old(blocks), inodes, blocks)
      ensures Filled(inodes, old(blocks), inodes, blocks, Slot(i, 13 + j), b)
    {
      FillIndirect(inodes, blocks, owner, nmeta, i, j, b);
      TableSlot(inodes, blocks, owner, nmeta, i);
      ghost var blocks0 := blocks;
      var t := inodes[i].addrs[NDIRECT];
      blocks := blocks[t := PutWord(blocks[t], j, b)];
      touched := touched + {t};
      FilledOwned(inodes, blocks0, inodes, blocks, owner, nmeta, Slot(i, 13 + j), b);
      FilledKeeps(inodes, blocks0, inodes, blocks, owner, nmeta, Slot(i, 13 + j), b, t);
      owner := owner[b := Slot(i, 13 + j)];
      held := held - {b};
    }

    static ghost predicate Full(bits: seq<bool>) {
      forall c :: 0 <= c < |bits| ==> bits[c]
    }

    /** bmap: the block of a file, allocated if there is none; 0 if the disk is full. */
    method Bmap(i: nat, bn: nat) returns (addr: nat)
      requires Valid() && i < |inodes| && bn < MAXFILE
      modifies this`bits, this`blocks, this`held, this`touched, this`inodes, this`owner
      ensures Valid() && held == old(held) && |bits| == |old(bits)|
      ensures Keeps(old(inodes), old(blocks), inodes, blocks)
      ensures addr == Addr(inodes, blocks, FileSlot(i, bn)) < |blocks|
      ensures addr != 0 ==> |inodes| == |old(inodes)| && |inodes[i].addrs| == 13
      ensures addr != 0 && bn < 12 ==> addr == inodes[i].addrs[bn]
      ensures addr != 0 && bn >= 12 ==> 0 < inodes[i].addrs[12] < |blocks| && addr == GetWord(blocks[inodes[i].addrs[12]], bn - 12)
      ensures old(Addr(inodes, blocks, FileSlot(i, bn))) != 0 ==> bits == old(bits) && blocks == old(blocks) && inodes == old(inodes) && touched == old(touched)
      ensures forall s :: s != FileSlot(i, bn) && s != Slot(i, NDIRECT) ==> Addr(inodes, blocks, s) == old(Addr(inodes, blocks, s))
      ensures addr == 0 ==> Full(bits)
      ensures forall b :: b in touched ==> b in old(touched) || 0 < b == addr || 0 < b == Table(inodes, i) || IsBitmap(b)
      ensures old(touched) <= touched && Logged(old(bits), old(blocks), bits, blocks, touched)
    {
      if bn < NDIRECT {
        addr := inodes[i].addrs[bn];
        assert Addr(inodes, blocks, FileSlot(i, bn)) == addr;
        if addr == 0 {
          addr := NewDirect(i, bn);
        }
      } else {
        addr := BmapIndirect(i, bn - NDIRECT);
      }
    }

    method BmapIndirect(i: nat, j: nat) returns (addr: nat)
      requires Valid() && i < |inodes| && j < NINDIRECT
      modifies this`bits, this`blocks, this`held, this`touched, this`inodes, this`owner
      ensures Valid() && held == old(held) && |bits| == |old(bits)|
      ensures Keeps(old(inodes), old(blocks), inodes, blocks)
      ensures addr == Addr(inodes, blocks, Slot(i, 13 + j)) < |blocks|
      ensures old(Addr(inodes, blocks, Slot(i, 13 + j))) != 0 ==> bits == old(bits) && blocks == old(blocks) && inodes == old(inodes) && touched == old(touched)
      ensures forall s :: s != Slot(i, 13 + j) && s != Slot(i, NDIRECT) ==> Addr(inodes, blocks, s) == old(Addr(inodes, blocks, s))
      ensures addr == 0 ==> Full(bits)
      ensures forall b :: b in touched ==> b in old(touched) || 0 < b == addr || 0 < b == Table(inodes, i) || IsBitmap(b)
      ensures old(touched) <= touched && Logged(old(bits), old(blocks), bits, blocks, touched)
    {
      var t := IndirectBlock(i);
      if t == 0 {
        return 0;
      }
      ghost var inodes1, blocks1 := inodes, blocks;
      addr := GetWord(blocks[t], j);
      if addr == 0 {
        addr := NewIndirect(i, j);
        KeepsTrans(old(inodes), old(blocks), inodes1, blocks1, inodes, blocks);
      }
    }

    /** The indirect block, allocated if there is none. */
    method IndirectBlock(i: nat) returns (t: nat)
      requires Valid() && i < |inodes|
      modifies this`bits, this`blocks, this`held, this`touched, this`inodes, this`owner
      ensures Valid() && held == old(held) && |bits| == |old(bits)| && i < |inodes| && t == Table(inodes, i) < |blocks|
      ensures Keeps(old(inodes), old(blocks), inodes, blocks)
      ensures old(Table(inodes, i)) != 0 ==> bits == old(bits) && blocks == old(blocks) && inodes == old(inodes) && touched == old(touched)
      ensures forall s :: s != Slot(i, NDIRECT) ==> Addr(inodes, blocks, s) == old(Addr(inodes, blocks, s))
      ensures t == 0 ==> Full(bits)
      ensures forall b :: b in touched ==> b in old(touched) || 0 < b == t || IsBitmap(b)
      ensures old(touched) <= touched && Logged(old(bits), old(blocks), bits, blocks, touched)
    {
      TableSlot(inodes, blocks, owner, nmeta, i);
      t := inodes[i].addrs[NDIRECT];
      if t == 0 {
        t := NewDirect(i, NDIRECT);
        assert Addr(inodes, blocks, Slot(i, NDIRECT)) == Table(inodes, i);
      }
    }

    /** readi: the bytes of the file from off on, at most n; it changes nothing. */
    method Readi(i: nat, off: nat, n: nat) returns (dst: seq<byte>)
      requires Valid() && i < |inodes| && off < UINT && n < UINT
      modifies this`bits, this`blocks, this`held, this`touched, this`inodes, this`owner
      ensures bits == old(bits) && blocks == old(blocks) && inodes == old(inodes) && touched == old(touched)
      ensures Valid() && held == old(held)
      ensures var c := Content(inodes, blocks, i);
              dst == if off > |c| || off + n >= UINT then [] else c[off..if off + n > |c| then |c| else off + n]
    {
      dst := [];
      if off > inodes[i].size || (off + n) % UINT < off {
        return;
      }
      dst := ReadBytes(i, off, if off + n > inodes[i].size then inodes[i].size - off else n);
    }

    method ReadBytes(i: nat, off: nat, n: nat) returns (dst: seq<byte>)
      requires Valid() && i < |inodes| && off + n <= inodes[i].size
      modifies this`bits, this`blocks, this`held, this`touched, this`inodes, this`owner
      ensures bits == old(bits) && blocks == old(blocks) && inodes == old(inodes) && touched == old(touched)
      ensures Valid() && held == old(held)
      ensures dst == Content(inodes, blocks, i)[off..off + n]
    {
      ghost var c := Content(inodes, blocks, i);
      dst := [];
      while |dst| < n
        invariant |dst| <= n && Valid() && held == old(held)
        invariant bits == old(bits) && blocks == old(blocks) && inodes == old(inodes) && touched == old(touched)
        invariant dst == c[off..off + |dst|]
      {
        var bytes := ReadChunk(i, off + |dst|, n - |dst|);
        Adjacent(c, off, off + |dst|, off + |dst| + |bytes|);
        dst := dst + bytes;
      }
    }

    /** One iteration of readi: bmap finds the block and allocates nothing. */
    method ReadChunk(i: nat, off: nat, left: nat) returns (bytes: seq<byte>)
      requires Valid() && i < |inodes| && 0 < left <= inodes[i].size - off
      modifies this`bits, this`blocks, this`held, this`touched, this`inodes, this`owner
      ensures bits == old(bits) && blocks == old(blocks) && inodes == old(inodes) && touched == old(touched)
      ensures Valid() && held == old(held)
      ensures 0 < |bytes| <= left && bytes == Content(inodes, blocks, i)[off..off + |bytes|]
    {
      var m := MinChunk(off, left);
      InFile(inodes, blocks, owner, nmeta, i, off);
      ChunkOf(inodes, blocks, i, off, m);
      var addr := Bmap(i, off / BSIZE);
      bytes := blocks[addr][off % BSIZE..off % BSIZE + m];
    }

    static method MinChunk(off: nat, left: nat) returns (m: nat)
      requires left > 0
      ensures 0 < m <= left && off % BSIZE + m <= BSIZE && (m == left || (off + m) % BSIZE == 0)
    {
      m := BSIZE - off % BSIZE;
      if left < m {
        m := left;
      }
    }

    /** One iteration of writei. */
    method WriteChunk(i: nat, off: nat, bytes: seq<byte>) returns (addr: nat)
      requires Valid() && i < |inodes| && off / BSIZE < MAXFILE && off % BSIZE + |bytes| <= BSIZE
      modifies this`bits, this`blocks, this`held, this`touched, this`inodes, this`owner
      ensures Valid() && held == old(held) && |bits| == |old(bits)|
      ensures Wrote(old(inodes), old(blocks), inodes, blocks, i, off, if addr != 0 then bytes else [])
      ensures addr == 0 ==> Full(bits)
      ensures forall b :: b in touched ==> b in old(touched) || 0 < b == addr || 0 < b == Table(inodes, i) || IsBitmap(b)
      ensures old(touched) <= touched && Logged(old(bits), old(blocks), bits, blocks, touched)
    {
      ghost var owner0 := owner;
      addr := Bmap(i, off / BSIZE);
      ghost var inodes1, blocks1 := inodes, blocks;
      KeepsWrote(old(inodes), old(blocks), inodes, blocks, owner0, nmeta, i, off);
      if addr != 0 {
        PatchBlock(i, off, bytes, addr);
        WroteMore(old(inodes), old(blocks), inodes1, blocks1, inodes, blocks, i, off, [], bytes);
        assert [] + bytes == bytes;
      }
    }

    /** The copy into the buffer, and log_write. */
    method PatchBlock(i: nat, off: nat, bytes: seq<byte>, addr: nat)
      requires Valid() && i < |inodes| && 0 < addr == Addr(inodes, blocks, FileSlot(i, off / BSIZE)) < |blocks|
      requires off % BSIZE + |bytes| <= BSIZE
      modifies this`blocks, this`touched
      ensures Valid() && Wrote(inodes, old(blocks), inodes, blocks, i, off, bytes) && touched == old(touched) + {addr}
      ensures Logged(bits, old(blocks), bits, blocks, touched)
    {
      ChunkWrote(inodes, blocks, owner, nmeta, i, off, bytes);
      StillBacked(inodes, blocks, inodes, blocks[addr := Patch(blocks[addr], off % BSIZE, bytes)]);
      blocks := blocks[addr := Patch(blocks[addr], off % BSIZE, bytes)];
      touched := touched + {addr};
    }

    /** writei's loop: how many bytes it wrote before the disk was full.  `data` are the blocks it wrote to. */
    method WriteBytes(i: nat, off: nat, src: seq<byte>) returns (tot: nat, ghost data: set<nat>)
      requires Valid() && i < |inodes| && off + |src| <= MAXFILE * BSIZE
      modifies this`bits, this`blocks, this`held, this`touched, this`inodes, this`owner
      ensures Valid() && held == old(held) && |bits| == |old(bits)| && tot <= |src|
      ensures Wrote(old(inodes), old(blocks), inodes, blocks, i, off, src[..tot])
      ensures tot < |src| ==> Full(bits)
      ensures forall b :: b in touched ==> b in old(touched) || b in data || 0 < b == Table(inodes, i) || IsBitmap(b)
      ensures |data| <= Spanned(off, |src|)
      ensures old(touched) <= touched && Logged(old(bits), old(blocks), bits, blocks, touched)
    {
      ghost var inodes0, blocks0, owner0 := inodes, blocks, owner;
      tot, data := 0, {};
      var full := false;
      KeepsWrote(inodes, blocks, inodes, blocks, owner, nmeta, i, off);
      while tot < |src| && !full
        invariant tot <= |src| && Valid() && held == old(held) && |bits| == |old(bits)| && |inodes| == |inodes0|
        invariant Wrote(inodes0, blocks0, inodes, blocks, i, off, src[..tot])
        invariant full ==> Full(bits)
        invariant forall b :: b in touched ==> b in old(touched) || b in data || 0 < b == Table(inodes, i) || IsBitmap(b)
        invariant old(touched) <= touched && Logged(old(bits), blocks0, bits, blocks, touched)
        invariant |data| <= Spanned(off, tot) && (tot == 0 || tot == |src| || (off + tot) % BSIZE == 0)
        decreases |src| - tot, !full
      {
        full, tot, data := WriteNext(i, off, src, tot, data, inodes0, blocks0, owner0);
      }
    }

    /** One iteration of writei, in terms of the bytes written so far. */
    method WriteNext(i: nat, off: nat, src: seq<byte>, tot: nat, ghost data: set<nat>,
                     ghost inodes0: Inodes, ghost blocks0: Blocks, ghost owner0: Owners)
      returns (full: bool, next: nat, ghost data': set<nat>)
      requires Valid() && i < |inodes| && tot < |src| && off + |src| <= MAXFILE * BSIZE
      requires Wrote(inodes0, blocks0, inodes, blocks, i, off, src[..tot])
      requires |data| <= Spanned(off, tot) && (tot == 0 || (off + tot) % BSIZE == 0)
      modifies this`bits, this`blocks, this`held, this`touched, this`inodes, this`owner
      ensures Valid() && held == old(held) && |bits| == |old(bits)| && |inodes| == |inodes0|
      ensures if full then next == tot && Full(bits) else tot < next <= |src|
      ensures Wrote(inodes0, blocks0, inodes, blocks, i, off, src[..next])
      ensures |data'| <= Spanned(off, next) && (next == 0 || next == |src| || (off + next) % BSIZE == 0) && data <= data'
      ensures forall b :: b in touched ==> b in old(touched) || b in data' || 0 < b == Table(inodes, i) || IsBitmap(b)
      ensures old(Table(inodes, i)) != 0 ==> Table(inodes, i) == old(Table(inodes, i))
      ensures old(touched) <= touched && Logged(old(bits), old(blocks), bits, blocks, touched)
    {
      var m := MinChunk(off + tot, |src| - tot);
      ghost var inodes1, blocks1 := inodes, blocks;
      SpannedMore(off, tot, m);
      var addr := WriteChunk(i, off + tot, src[tot..tot + m]);
      full := addr == 0;
      next := if full then tot else tot + m;
      data' := if full then data else data + {addr};
      WroteMore(inodes0, blocks0, inodes1, blocks1, inodes, blocks, i, off, src[..tot], if full then [] else src[tot..tot + m]);
      assert src[..tot] + (if full then [] else src[tot..tot + m]) == src[..next];
      assert Table(inodes1, i) == Addr(inodes1, blocks1, Slot(i, NDIRECT)) && Table(inodes, i) == Addr(inodes, blocks, Slot(i, NDIRECT));
    }

    /** iupdate */
    method Iupdate(i: nat)
      requires i < |inodes| == |dinodes|
      modifies this`dinodes, this`touched
      ensures dinodes == old(dinodes)[i := inodes[i]] && touched == old(touched) + {Iblock(i)}
    {
      dinodes := dinodes[i := inodes[i]];
      touched := touched + {Iblock(i)};
    }

    /** IBLOCK: inode i is one of the sixteen in its block. */
    function Iblock(i: nat): (b: nat)
      ensures inodeStart <= b && 16 * (b - inodeStart) <= i < 16 * (b - inodeStart) + 16
    {
      i / IPB + inodeStart
    }

    /** writei of bytes that the source copy delivers.  -1: past the end or too big; else the number of bytes written. */
    method Writei(i: nat, off: nat, src: seq<byte>) returns (r: int, ghost data: set<nat>)
      requires Valid() && i < |inodes| && off < UINT && |src| < UINT
      modifies this`bits, this`blocks, this`held, this`touched, this`inodes, this`owner, this`dinodes
      ensures Valid() && held == old(held) && |inodes| == |old(inodes)| && |bits| == |old(bits)|
      ensures r == -1 <==> off > old(inodes)[i].size || off + |src| >= UINT || off + |src| > MAXFILE * BSIZE
      ensures r == -1 ==> bits == old(bits) && blocks == old(blocks) && inodes == old(inodes) && dinodes == old(dinodes) && touched == old(touched)
      ensures r != -1 ==> 0 <= r <= |src| && (r < |src| ==> Full(bits))
      ensures r != -1 ==> Content(inodes, blocks, i) == Spliced(old(Content(inodes, blocks, i)), off, src[..r])
      ensures forall j: nat :: j < |inodes| && j != i ==> Content(inodes, blocks, j) == old(Content(inodes, blocks, j))
      ensures r != -1 ==> dinodes == old(dinodes)[i := inodes[i]]
      ensures forall b :: b in touched ==> b in old(touched) || b in data || 0 < b == Table(inodes, i) || IsBitmap(b) || b == Iblock(i)
      ensures |data| <= Spanned(off, |src|)
      ensures old(touched) <= touched && Logged(old(bits), old(blocks), bits, blocks, touched) && (r != -1 ==> Iblock(i) in touched)
    {
      data := {};
      if off > inodes[i].size || (off + |src|) % UINT < off {
        return -1, {};
      }
      if off + |src| > MAXFILE * BSIZE {
        return -1, {};
      }
      ghost var owner0 := owner;
      var tot;
      tot, data := WriteBytes(i, off, src);
      Resize(i, off, src[..tot], old(inodes), old(blocks), owner0);
      Iupdate(i);
      r := tot;
    }

    /** readi gives back what writei wrote, whatever was in the file and however many bytes are asked for. */
    method WriteThenRead(i: nat, off: nat, src: seq<byte>, n: nat) returns (r: int, dst: seq<byte>)
      requires Valid() && i < |inodes| && off < UINT && |src| < UINT && n < UINT
      modifies this`bits, this`blocks, this`held, this`touched, this`inodes, this`owner, this`dinodes
      ensures Valid() && -1 <= r <= |src|
      ensures r == -1 <==> off > old(inodes)[i].size || off + |src| >= UINT || off + |src| > MAXFILE * BSIZE
      ensures r != -1 && r < |src| ==> Full(bits)
      ensures r != -1 && n <= r ==> dst == src[..n]
    {
      ghost var data;
      ghost var was := Content(inodes, blocks, i);
      r, data := Writei(i, off, src);
      dst := Readi(i, off, n);
      if n <= r {
        ReadBack(was, off, src[..r], n);
        assert src[..r][..n] == src[..n];
      }
    }

    /** The end of writei: the file now reaches at least off + |bytes|. */
    method Resize(i: nat, off: nat, bytes: seq<byte>, ghost inodes0: Inodes, ghost blocks0: Blocks, ghost owner0: Owners)
      requires Valid() && i < |inodes| && off + |bytes| <= MAXFILE * BSIZE
      requires Wrote(inodes0, blocks0, inodes, blocks, i, off, bytes) && NoHoles(inodes0, blocks0)
      requires Owned(inodes0, blocks0, owner0, nmeta) && off <= inodes0[i].size
      modifies this`inodes
      ensures Valid() && Table(inodes, i) == old(Table(inodes, i)) && |inodes| == |inodes0|
      ensures Content(inodes, blocks, i) == Spliced(Content(inodes0, blocks0, i), off, bytes)
      ensures forall j: nat :: j < |inodes| && j != i ==> Content(inodes, blocks, j) == Content(inodes0, blocks0, j)
    {
      WroteContent(inodes0, blocks0, inodes, blocks, owner0, nmeta, i, off, bytes);
      forall j: nat | j < |inodes| && j != i ensures Content(Resized(inodes, i, off + |bytes|), blocks, j) == Content(inodes0, blocks0, j) {
        WroteOthers(inodes0, blocks0, inodes, blocks, owner0, nmeta, i, off, bytes, j);
      }
      WroteBacked(inodes0, blocks0, inodes, blocks, i, off, bytes);
      ResizedOwned(inodes, blocks, owner, nmeta, i, off + |bytes|);
      inodes := if off + |bytes| > inodes[i].size then inodes[i := inodes[i].(size := off + |bytes|)] else inodes;
    }

    /** bfree: clears a bit, and panics if it is clear. */
    method Bfree(b: nat) returns (ok: bool)
      requires b < |bits|
      modifies this`bits, this`touched
      ensures ok <==> old(bits)[b]
      ensures bits == old(bits)[b := false] && touched == old(touched) + {Bblock(b)}
    {
      ok := bits[b];
      bits := bits[b := false];
      touched := touched + {Bblock(b)};
    }

    /** Valid, but for the size of a file that is being truncated. */
    ghost predicate Truncating(i: nat)
      reads this
    {
      && i < |inodes| && Owned(inodes, blocks, owner, nmeta) && Marked(bits, owner, held, nmeta)
      && NoHoles(inodes[i := inodes[i].(size := 0)], blocks)
      && |bits| == |blocks| < UINT && 0 < nmeta <= |blocks| && |dinodes| == |inodes|
    }

    /** itrunc: frees exactly the blocks of a file, and bfree never panics. */
    method Itrunc(i: nat) returns (ok: bool)
      requires Valid() && i < |inodes|
      modifies this`bits, this`touched, this`inodes, this`owner, this`dinodes
      ensures Valid() && ok && |inodes| == |old(inodes)|
      ensures inodes == old(inodes)[i := inodes[i]] && dinodes == old(dinodes)[i := inodes[i]]
      ensures owner == Without(old(owner), i, 0, NSLOTS) && Content(inodes, blocks, i) == []
      ensures |bits| == |old(bits)| && forall b: nat :: b < |bits| ==>
                (bits[b] <==> old(bits)[b] && !(b in old(owner) && old(owner)[b].ino == i))
      ensures forall j: nat :: j < |inodes| && j != i ==> Content(inodes, blocks, j) == old(Content(inodes, blocks, j))
      ensures Logged(old(bits), blocks, bits, blocks, touched) && Iblock(i) in touched
    {
      ghost var bits0, inodes0, owner0 := bits, inodes, owner;
      StartTruncating(i);
      var ok1 := FreeDirect(i);
      var ok2 := FreeIndirect(i);
      ok := ok1 && ok2;
      EndTruncating(i);
      WithoutAll(owner0, i);
      TruncatedBits(bits0, bits, inodes0, blocks, owner0, held, nmeta, i);
      inodes := inodes[i := inodes[i].(size := 0)];
      Iupdate(i);
    }

    /** The direct blocks. */
    method FreeDirect(i: nat) returns (ok: bool)
      requires Truncating(i)
      modifies this`bits, this`touched, this`inodes, this`owner
      ensures Truncating(i) && ok && |bits| == |old(bits)| && |inodes| == |old(inodes)| && inodes == old(inodes)[i := inodes[i]]
      ensures owner == Without(old(owner), i, 0, NDIRECT)
      ensures old(touched) <= touched && Logged(old(bits), blocks, bits, blocks, touched)
    {
      ghost var owner0, inodes0 := owner, inodes;
      ok := true;
      var k := 0;
      assert Without(owner0, i, 0, 0) == owner0;
      while k < NDIRECT
        invariant k <= NDIRECT && Truncating(i) && ok && |bits| == |old(bits)| && |inodes| == |inodes0| && inodes == inodes0[i := inodes[i]]
        invariant owner == Without(owner0, i, 0, k)
        invariant old(touched) <= touched && Logged(old(bits), blocks, bits, blocks, touched)
      {
        WithoutMore(owner0, i, k);
        ok := DropDirect(i, k);
        k := k + 1;
      }
    }

    method DropDirect(i: nat, k: nat) returns (ok: bool)
      requires Truncating(i) && k < NDIRECT
      modifies this`bits, this`touched, this`inodes, this`owner
      ensures Truncating(i) && ok && |bits| == |old(bits)| && |inodes| == |old(inodes)| && inodes == old(inodes)[i := inodes[i]]
      ensures owner == Without(old(owner), i, k, k + 1)
      ensures old(touched) <= touched && Logged(old(bits), blocks, bits, blocks, touched)
    {
      ok := true;
      assert Addr(inodes, blocks, Slot(i, k)) == inodes[i].addrs[k];
      if inodes[i].addrs[k] != 0 {
        ghost var inodes0 := inodes;
        MarkedDrop(bits, inodes, blocks, owner, held, nmeta, i, k);
        ok := Bfree(inodes[i].addrs[k]);
        inodes := inodes[i := inodes[i].(addrs := inodes[i].addrs[k := 0])];
        EmptyDirect(inodes0, blocks, i, k);
        EmptiedOwned(inodes0, blocks, inodes, owner, nmeta, i, k, k + 1);
        EmptiedBacked(inodes0, blocks, inodes, i, k, k + 1);
        owner := Without(owner, i, k, k + 1);
      } else {
        EmptySlot(inodes, blocks, owner, nmeta, i, k);
      }
    }

    /** The indirect block and the blocks it names. */
    method FreeIndirect(i: nat) returns (ok: bool)
      requires Truncating(i)
      modifies this`bits, this`touched, this`inodes, this`owner
      ensures Truncating(i) && ok && |bits| == |old(bits)| && |inodes| == |old(inodes)| && inodes == old(inodes)[i := inodes[i]]
      ensures owner == Without(old(owner), i, NDIRECT, NSLOTS)
      ensures old(touched) <= touched && Logged(old(bits), blocks, bits, blocks, touched)
    {
      ok := true;
      if inodes[i].addrs[NDIRECT] != 0 {
        ghost var bits0 := bits;
        var ok1 := FreeWords(i);
        var ok2 := FreeTable(i, bits0);
        ok := ok1 && ok2;
      } else {
        EmptyTable(inodes, blocks, owner, nmeta, i);
      }
    }

    method FreeWords(i: nat) returns (ok: bool)
      requires Truncating(i) && inodes[i].addrs[NDIRECT] != 0
      modifies this`bits, this`touched
      ensures ok && WordsFreed(old(bits), bits, owner, i, NINDIRECT)
      ensures old(touched) <= touched && Logged(old(bits), blocks, bits, blocks, touched)
    {
      ghost var bits0 := bits;
      TableSlot(inodes, blocks, owner, nmeta, i);
      var t := inodes[i].addrs[NDIRECT];
      ok := true;
      var j := 0;
      while j < NINDIRECT
        invariant j <= NINDIRECT && ok && WordsFreed(bits0, bits, owner, i, j)
        invariant old(touched) <= touched && Logged(bits0, blocks, bits, blocks, touched)
      {
        WordsFreedStep(bits0, bits, inodes, blocks, owner, held, nmeta, i, j);
        assert Addr(inodes, blocks, Slot(i, 13 + j)) == GetWord(blocks[t], j);
        if GetWord(blocks[t], j) != 0 {
          ok := Bfree(GetWord(blocks[t], j));
        }
        j := j + 1;
      }
    }

    method FreeTable(i: nat, ghost bits0: seq<bool>) returns (ok: bool)
      requires i < |inodes| == |dinodes| && Owned(inodes, blocks, owner, nmeta) && Marked(bits0, owner, held, nmeta)
      requires NoHoles(inodes[i := inodes[i].(size := 0)], blocks) && WordsFreed(bits0, bits, owner, i, NINDIRECT)
      requires |bits0| == |blocks| < UINT && 0 < nmeta <= |blocks| && inodes[i].addrs[NDIRECT] != 0
      modifies this`bits, this`touched, this`inodes, this`owner
      ensures Truncating(i) && ok && |bits| == |bits0| && |inodes| == |old(inodes)| && inodes == old(inodes)[i := inodes[i]]
      ensures owner == Without(old(owner), i, NDIRECT, NSLOTS)
      ensures old(touched) <= touched && Logged(old(bits), blocks, bits, blocks, touched)
    {
      ghost var inodes0 := inodes;
      assert Addr(inodes, blocks, Slot(i, NDIRECT)) == inodes[i].addrs[NDIRECT];
      MarkedEnd(bits0, bits, inodes, blocks, owner, held, nmeta, i);
      ok := Bfree(inodes[i].addrs[NDIRECT]);
      inodes := inodes[i := inodes[i].(addrs := inodes[i].addrs[NDIRECT := 0])];
      EmptyIndirect(inodes0, blocks, i);
      EmptiedOwned(inodes0, blocks, inodes, owner, nmeta, i, NDIRECT, NSLOTS);
      EmptiedBacked(inodes0, blocks, inodes, i, NDIRECT, NSLOTS);
      owner := Without(owner, i, NDIRECT, NSLOTS);
    }

    lemma EndTruncating(i: nat)
      requires Truncating(i)
      ensures Owned(inodes[i := inodes[i].(size := 0)], blocks, owner, nmeta)
    {
      var inodes' := inodes[i := inodes[i].(size := 0)];
      assert forall s :: Addr(inodes', blocks, s) == Addr(inodes, blocks, s);
      forall b | b in owner ensures Named(inodes', blocks, owner, b) {
        assert Named(inodes, blocks, owner, b);
      }
    }

    lemma StartTruncating(i: nat)
      requires Valid() && i < |inodes|
      ensures Truncating(i)
    {
      var inodes' := inodes[i := inodes[i].(size := 0)];
      forall j: nat, bn: nat | j < |inodes'| ensures Backed(inodes', blocks, j, bn) {
        assert Backed(inodes, blocks, j, bn);
        assert Addr(inodes', blocks, FileSlot(j, bn)) == Addr(inodes, blocks, FileSlot(j, bn));
      }
    }

    /** filewrite on an inode: chunk by chunk, each in a log operation of its own.  `w` bytes are
        written before it ends; `images` are the disk before, between and after the operations, and
        `logged` the blocks that each of them passed to log_write. */
    method FileWrite(i: nat, off: nat, src: seq<byte>)
      returns (ret: int, off': nat, ghost w: nat, ghost images: seq<DiskImage>, ghost logged: seq<set<nat>>)
      requires Valid() && i < |inodes| && off < UINT && |src| < 0x8000_0000
      modifies this`bits, this`blocks, this`held, this`touched, this`inodes, this`owner, this`dinodes
      ensures Valid() && held == old(held) && |inodes| == |old(inodes)| && |bits| == |old(bits)|
      ensures w <= |src| && off' == off + w && ret == if w == |src| then |src| else -1
      ensures off > old(inodes)[i].size ==> w == 0 && inodes == old(inodes) && blocks == old(blocks) && bits == old(bits)
      ensures off <= old(inodes)[i].size ==> Content(inodes, blocks, i) == Spliced(old(Content(inodes, blocks, i)), off, src[..w])
      ensures forall j: nat :: j < |inodes| && j != i ==> Content(inodes, blocks, j) == old(Content(inodes, blocks, j))
      ensures Operations(images, logged) && images[0] == old(Image()) && images[|logged|] == Image()
      ensures |bits| <= BPB ==> forall k :: 0 <= k < |logged| ==> |logged[k]| <= MAXOPBLOCKS
      ensures Chunks(|src|, w, |logged|)
      ensures w < |src| ==> Stopped(off, old(inodes)[i].size, |src|, w)
    {
      hide Valid, Content, Spliced, Covers, Stopped;
      ghost var inodes0, blocks0 := inodes, blocks;
      StartWriting(i, off, src);
      off', w := off, 0;
      images, logged := [Image()], [];
      var k, more := 0, true;
      while k < |src| && more
        invariant k <= |src| && Valid() && held == old(held) && |inodes| == |inodes0| && |bits| == |old(bits)|
        invariant w <= |src| && off' == off + w < UINT && k <= w && (more ==> w == k) && (!more ==> k < |src| && w < |src|)
        invariant off > inodes0[i].size ==> w == 0 && inodes == inodes0 && blocks == blocks0 && bits == old(bits)
        invariant off <= inodes0[i].size ==> Content(inodes, blocks, i) == Spliced(Content(inodes0, blocks0, i), off, src[..w])
        invariant forall j: nat :: j < |inodes| && j != i ==> Content(inodes, blocks, j) == Content(inodes0, blocks0, j)
        invariant Operations(images, logged) && images[0] == old(Image()) && images[|logged|] == Image()
        invariant |bits| <= BPB ==> forall k :: 0 <= k < |logged| ==> |logged[k]| <= MAXOPBLOCKS
        invariant !more ==> Stopped(off, inodes0[i].size, |src|, w)
        invariant if more && k < |src| then w == |logged| * CHUNK else Chunks(|src|, w, |logged|)
        decreases |src| - k, more
      {
        ghost var op;
        var r;
        r, off', op := WriteOne(i, off, src, k, inodes0, blocks0);
        images, logged := images + [Image()], logged + [op];
        w := if r > 0 then k + r else k;
        more := r == NextChunk(|src|, k);
        k := if more then k + r else k;
      }
      ret := if k == |src| then |src| else -1;
    }

    lemma StartWriting(i: nat, off: nat, src: seq<byte>)
      requires Valid() && i < |inodes|
      ensures off <= inodes[i].size ==> Content(inodes, blocks, i) == Spliced(Content(inodes, blocks, i), off, src[..0])
    {}

    /** Why filewrite stops after w of n bytes: the offset lies behind the end of the file, the disk is full, or
        the next chunk would make the file too large. */
    ghost predicate Stopped(off: nat, size: nat, n: nat, w: nat)
      requires w <= n
      reads this`bits
    {
      off > size || Full(bits) || off + w + NextChunk(n, w) > MAXFILE * BSIZE
    }

    /** How many operations filewrite takes to write w of n bytes: one for each chunk, and one that falls short. */
    static predicate Chunks(n: nat, w: nat, ops: nat) {
      if w == n then (ops - 1) * CHUNK < n <= ops * CHUNK else ops > 0 && (ops - 1) * CHUNK <= w < ops * CHUNK
    }

    static function NextChunk(n: nat, k: nat): nat
      requires k <= n
    {
      if n - k > CHUNK then CHUNK else n - k
    }

    /** One iteration of filewrite, k bytes into the source. */
    method WriteOne(i: nat, off: nat, src: seq<byte>, k: nat, ghost inodes0: Inodes, ghost blocks0: Blocks)
      returns (r: int, off': nat, ghost logged: set<nat>)
      requires Valid() && i < |inodes| == |inodes0| && k < |src| < 0x8000_0000 && off + k < UINT
      requires off > inodes0[i].size ==> k == 0 && inodes == inodes0 && blocks == blocks0
      requires off <= inodes0[i].size ==> Content(inodes, blocks, i) == Spliced(Content(inodes0, blocks0, i), off, src[..k])
      requires forall j: nat :: j < |inodes| && j != i ==> Content(inodes, blocks, j) == Content(inodes0, blocks0, j)
      modifies this`bits, this`blocks, this`held, this`touched, this`inodes, this`owner, this`dinodes
      ensures Valid() && held == old(held) && |inodes| == |inodes0| && |bits| == |old(bits)|
      ensures -1 <= r <= NextChunk(|src|, k) && off' == off + k + (if r > 0 then r else 0) < UINT
      ensures off > inodes0[i].size ==> r == -1 && inodes == inodes0 && blocks == blocks0 && bits == old(bits)
      ensures off <= inodes0[i].size ==>
                Content(inodes, blocks, i) == Spliced(Content(inodes0, blocks0, i), off, src[..k + if r > 0 then r else 0])
      ensures forall j: nat :: j < |inodes| && j != i ==> Content(inodes, blocks, j) == Content(inodes0, blocks0, j)
      ensures Covers(logged, old(Image()), Image()) && (|bits| <= BPB ==> |logged| <= MAXOPBLOCKS)
      ensures r < NextChunk(|src|, k) ==> Stopped(off, inodes0[i].size, |src|, if r > 0 then k + r else k)
    {
      var n1 := NextChunk(|src|, k);
      ghost var was := Content(inodes, blocks, i);
      r, logged := WriteOp(i, off + k, src[k..k + n1]);
      off' := if r > 0 then off + k + r else off + k;
      if off <= inodes0[i].size {
        SplicedTwice(Content(inodes0, blocks0, i), off, src[..k], []);
        SplicedMore(Content(inodes0, blocks0, i), was, Content(inodes, blocks, i), off, src, k, n1, r);
      }
    }

    static lemma SplicedMore(c0: seq<byte>, c1: seq<byte>, c2: seq<byte>, off: nat, src: seq<byte>, k: nat, n1: nat, r: int)
      requires off <= |c0| && k + n1 <= |src| && -1 <= r <= n1 && c1 == Spliced(c0, off, src[..k])
      requires if r == -1 then c2 == c1 else off + k <= |c1| && c2 == Spliced(c1, off + k, src[k..k + n1][..r])
      ensures c2 == Spliced(c0, off, src[..k + if r > 0 then r else 0])
    {
      if r >= 0 {
        SplicedTwice(c0, off, src[..k], src[k..k + r]);
        assert src[k..k + n1][..r] == src[k..k + r] && src[..k] + src[k..k + r] == src[..k + r];
      }
    }

    /** begin_op, writei, end_op: `logged` is what it passed to log_write. */
    method WriteOp(i: nat, off: nat, bytes: seq<byte>) returns (r: int, ghost logged: set<nat>)
      requires Valid() && i < |inodes| && off < UINT && |bytes| <= CHUNK
      modifies this`bits, this`blocks, this`held, this`touched, this`inodes, this`owner, this`dinodes
      ensures Valid() && held == old(held) && |inodes| == |old(inodes)| && |bits| == |old(bits)| && -1 <= r <= |bytes|
      ensures r == -1 <==> off > old(inodes)[i].size || off + |bytes| >= UINT || off + |bytes| > MAXFILE * BSIZE
      ensures r == -1 ==> bits == old(bits) && blocks == old(blocks) && inodes == old(inodes)
      ensures 0 <= r < |bytes| ==> Full(bits)
      ensures r != -1 ==> Content(inodes, blocks, i) == Spliced(old(Content(inodes, blocks, i)), off, bytes[..r])
      ensures forall j: nat :: j < |inodes| && j != i ==> Content(inodes, blocks, j) == old(Content(inodes, blocks, j))
      ensures logged == touched && Covers(logged, old(Image()), Image()) && (|bits| <= BPB ==> |logged| <= MAXOPBLOCKS)
    {
      touched := {};
      ghost var data;
      r, data := Writei(i, off, bytes);
      logged := touched;
      if |bits| <= BPB {
        assert forall b :: IsBitmap(b) ==> b == bmapStart;
        ChunkBudget(touched, data, off, |bytes|, Table(inodes, i), Iblock(i), bmapStart);
      }
    }
  }
}
