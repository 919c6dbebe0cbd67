// fs/bc.c: disk blocks cached in the file server's address space, and the flushing
// loops of fs/fs.c over it.  A panic ends the server and is reported.
module BlockCache {
  import opened Inc
  import opened Fs
  import opened FsFaults

  const DISKMAP := 0x1000_0000
  const DISKSIZE := 0xC000_0000

  // struct File: its size, and the offsets of its fields
  const FILE_BYTES := 256
  const F_SIZE := 128
  const F_DIRECT := 136
  const F_INDIRECT := 176

  // A cached block: its bytes in memory, and the PTE_D bit of its page.
  datatype Cached = Cached(content: Block, dirty: bool)

  class Cache {
    const nblocks: nat
    var disk: seq<Block>
    var page: map<nat, Cached>
    // which page tables of the cache region exist
    var tables: set<nat>
    // blocks the in-memory bitmap marks free
    var free: set<nat>

    // What a block reads as, wherever it currently is.
    ghost function Logical(b: nat): (block: Block)
      requires b < |disk|
      reads this
    {
      if b in page then page[b].content else disk[b]
    }

    // A clean cached block equals its disk block.
    ghost predicate Valid()
      reads this
    {
      && nblocks * BLKSIZE <= DISKSIZE && nblocks <= |disk|
      && (forall b :: 0 <= b < |disk| ==> |disk[b]| == BLKSIZE)
      && (forall b :: b in page ==> b < nblocks && |page[b].content| == BLKSIZE && b / GROUP in tables)
      && (forall b :: b in page && !page[b].dirty ==> page[b].content == disk[b])
    }

    // fs_init: bc_init touches the super-block at its first byte, check_bitmap the first
    // bitmap block at its own.  The marks it asserts are the precondition on `free`.
    constructor (disk: seq<Block>, nblocks: nat, free: set<nat>)
      requires 2 < nblocks <= |disk| && nblocks * BLKSIZE <= DISKSIZE
      requires forall b :: 0 <= b < FirstBlock(nblocks) ==> b !in free
      requires forall b :: 0 <= b < |disk| ==> |disk[b]| == BLKSIZE
      ensures Valid() && this.nblocks == nblocks && this.disk == disk && this.free == free
      ensures Booted() && forall b :: 0 <= b < |disk| ==> Logical(b) == disk[b]
    {
      this.disk, this.nblocks, this.free := disk, nblocks, free;
      page := map[];
      tables := {};
      new;
      var panic := BcPgfault(DiskAddr(1), true);
      panic := BcPgfault(DiskAddr(2), true);
    }

    ghost predicate Booted()
      reads this
    {
      page.Keys == {1, 2} && tables == {0}
    }

    // What FsFaults.dfy keeps of this state; the kernel would find memory for the
    // blocks `m`.
    ghost function Residence(m: set<nat>): Residency
      reads this
    {
      Residency(page.Keys, tables, m)
    }

    // No block's logical content changed.
    twostate predicate SameContent()
      requires old(Valid()) && Valid() && old(|disk|) == |disk|
      reads this
    {
      forall b :: 0 <= b < |disk| ==> Logical(b) == old(Logical(b))
    }

    predicate BadBlock(blockno: nat) {
      blockno == 0 || blockno >= nblocks
    }

    function DiskAddr(blockno: nat): nat {
      DISKMAP + blockno * BLKSIZE
    }

    predicate FaultPanics(va: nat, memory: bool)
      reads this
    {
      !(DISKMAP <= va < DISKMAP + DISKSIZE && (va - DISKMAP) / BLKSIZE < nblocks && memory && va % PGSIZE == 0 &&
        (va - DISKMAP) / BLKSIZE !in free)
    }

    // The page-fault handler.  It passes the faulting address itself, not the page it
    // lies in, to sys_page_map, which refuses addresses that are not page-aligned: a
    // block not yet cached must first be touched at its first byte.
    method BcPgfault(va: nat, memory: bool) returns (panic: bool)
      requires Valid() && (va >= DISKMAP ==> (va - DISKMAP) / BLKSIZE !in page)
      modifies `page, `tables
      ensures panic <==> FaultPanics(va, memory)
      ensures !panic ==> Valid() && SameContent() && tables == old(tables) + {(va - DISKMAP) / BLKSIZE / GROUP}
      ensures !panic ==> page == old(page)[(va - DISKMAP) / BLKSIZE := Cached(disk[(va - DISKMAP) / BLKSIZE], false)]
    {
      if va < DISKMAP || va >= DISKMAP + DISKSIZE {
        return true;
      }
      var blockno := (va - DISKMAP) / BLKSIZE;
      if blockno >= nblocks {
        return true;
      }
      if !memory {
        return true;
      }
      tables := tables + {blockno / GROUP};
      page := page[blockno := Cached(disk[blockno], true)];
      if va % PGSIZE != 0 {
        return true;
      }
      page := page[blockno := page[blockno].(dirty := false)];
      if blockno in free {
        return true;
      }
      panic := false;
    }

    // A load or store at `va`: a block not in memory faults in first.
    method Touch(va: nat, memory: bool) returns (panic: bool)
      requires Valid() && DISKMAP <= va < DISKMAP + DISKSIZE
      modifies `page, `tables
      ensures panic <==> (va - DISKMAP) / BLKSIZE !in old(page) && FaultPanics(va, memory)
      ensures !panic ==> Valid() && SameContent() && page.Keys == old(page).Keys + {(va - DISKMAP) / BLKSIZE}
      ensures !panic ==> tables == old(tables) + {(va - DISKMAP) / BLKSIZE / GROUP}
      ensures !panic ==> Residence({}) == In(old(Residence({})), (va - DISKMAP) / BLKSIZE)
    {
      var blockno := (va - DISKMAP) / BLKSIZE;
      if blockno in page {
        return false;
      }
      panic := BcPgfault(va, memory);
    }

    // For a block in use, that is the condition of FsFaults.dfy.
    lemma TouchReaches(b: nat, o: nat, m: set<nat>)
      requires Valid() && 0 < b < nblocks && b !in free && o < BLKSIZE
      ensures (b !in page && FaultPanics(DiskAddr(b) + o, b in m)) <==> !Reaches(Residence(m), b, o)
    {
      InBlock(b, o);
    }

    method Load(va: nat, memory: bool) returns (panic: bool, byte: Byte)
      requires Valid() && DISKMAP <= va < DISKMAP + DISKSIZE
      modifies `page, `tables
      ensures panic <==> (va - DISKMAP) / BLKSIZE !in old(page) && FaultPanics(va, memory)
      ensures !panic ==> Valid() && SameContent()
      ensures !panic ==> (va - DISKMAP) / BLKSIZE < nblocks && byte == Logical((va - DISKMAP) / BLKSIZE)[va % BLKSIZE]
    {
      byte := 0;
      panic := Touch(va, memory);
      if !panic {
        byte := page[(va - DISKMAP) / BLKSIZE].content[va % BLKSIZE];
      }
    }

    method Store(va: nat, byte: Byte, memory: bool) returns (panic: bool)
      requires Valid() && DISKMAP <= va < DISKMAP + DISKSIZE
      modifies `page, `tables
      ensures panic <==> (va - DISKMAP) / BLKSIZE !in old(page) && FaultPanics(va, memory)
      ensures !panic ==> Valid() && (va - DISKMAP) / BLKSIZE < nblocks
      ensures !panic ==> forall b :: 0 <= b < |disk| ==>
                Logical(b) == if b == (va - DISKMAP) / BLKSIZE then old(Logical(b))[va % BLKSIZE := byte] else old(Logical(b))
    {
      panic := Touch(va, memory);
      if !panic {
        var b := (va - DISKMAP) / BLKSIZE;
        page := page[b := Cached(page[b].content[va % BLKSIZE := byte], true)];
      }
    }

    // flush_block reads the page-table entry before asking whether the page is mapped,
    // so it needs the page table to exist: some block of the group must once have been
    // cached.
    method FlushBlock(va: nat) returns (panic: bool)
      requires Valid()
      modifies `disk, `page
      ensures panic <==> !(DISKMAP <= va < DISKMAP + DISKSIZE && (va - DISKMAP) / BLKSIZE / GROUP in tables)
      ensures |disk| == old(|disk|) && Valid() && SameContent() && page.Keys == old(page).Keys
      ensures forall b :: 0 <= b < |disk| && old(disk[b] == Logical(b)) ==> disk[b] == old(disk[b])
      ensures !panic && (va - DISKMAP) / BLKSIZE < |disk| ==> disk[(va - DISKMAP) / BLKSIZE] == Logical((va - DISKMAP) / BLKSIZE)
      ensures var b := (va - DISKMAP) / BLKSIZE;
              if panic || b !in old(page) || !old(page)[b].dirty then disk == old(disk) && page == old(page)
              else disk == old(disk)[b := old(page)[b].content] && page == old(page)[b := Cached(old(page)[b].content, false)]
    {
      if va < DISKMAP || va >= DISKMAP + DISKSIZE {
        return true;
      }
      var blockno := (va - DISKMAP) / BLKSIZE;
      if blockno / GROUP !in tables {
        return true;
      }
      if blockno !in page || !page[blockno].dirty {
        return false;
      }
      disk := disk[blockno := page[blockno].content];
      page := page[blockno := page[blockno].(dirty := false)];
      panic := false;
    }

    // Every block of the disk is reachable by flush_block.
    ghost predicate AllTables()
      reads this
    {
      forall b :: 1 <= b < nblocks ==> b / GROUP in tables
    }

    // With up to 1024 blocks, caching any one of them is enough.
    lemma SmallDisk(b: nat)
      requires Valid() && nblocks <= 1024 && b in page
      ensures AllTables()
    {}

    method FsSync() returns (panic: bool)
      requires Valid()
      modifies `disk, `page
      ensures panic <==> !AllTables()
      ensures |disk| == old(|disk|) && Valid() && SameContent()
      ensures !panic ==> forall b :: 1 <= b < nblocks ==> disk[b] == Logical(b)
      ensures !panic ==> forall b :: 1 <= b && b in page ==> !page[b].dirty
    {
      var i := 1;
      while i < nblocks
        invariant 1 <= i && |disk| == old(|disk|) && Valid() && SameContent()
        invariant i <= nblocks || nblocks == 0
        invariant forall b :: 1 <= b < i ==> b / GROUP in tables
        invariant forall b :: 1 <= b < i && b < nblocks ==> disk[b] == Logical(b)
        invariant forall b :: 1 <= b < i && b in page ==> !page[b].dirty
      {
        panic := FlushBlock(DiskAddr(i));
        if panic {
          return;
        }
        i := i + 1;
      }
      panic := false;
    }

    // Right after fs_init, the byte at any other offset than 0 of any block past the
    // first bitmap block cannot be read or written.
    lemma UnalignedFirstTouch(b: nat, o: nat)
      requires Booted() && 2 < b < nblocks && 0 < o < BLKSIZE
      ensures b !in page && FaultPanics(DiskAddr(b) + o, true)
    {
      assert (DiskAddr(b) + o) % PGSIZE == o;
    }

    // And on a disk of more than 1024 blocks, fs_sync panics.
    lemma LargeDisk()
      requires Booted() && nblocks > 1024
      ensures !AllTables()
    {
      var b: nat := GROUP;
      assert 1 <= b < nblocks && b / GROUP !in tables;
    }

    // ---- file_flush ------------------------------------------------------------------------

    // The block that holds the struct File at `va`.
    function BlockAt(va: nat): nat
      requires va >= DISKMAP
    {
      (va - DISKMAP) / BLKSIZE
    }

    // The little-endian word at byte `o` of a block.
    function Word(content: Block, o: nat): nat
      requires o + 4 <= |content|
    {
      content[o] as nat + 0x100 * (content[o + 1] as nat) + 0x1_0000 * (content[o + 2] as nat) +
      0x100_0000 * (content[o + 3] as nat)
    }

    lemma LittleEndian()
      ensures Word([0x78, 0x56, 0x34, 0x12], 0) == 0x1234_5678
    {}

    // Words of four bytes, one after the other.
    static function Words(ws: seq<Block>): (s: Block)
      requires forall i :: 0 <= i < |ws| ==> |ws[i]| == 4
      ensures |s| == 4 * |ws|
    {
      if ws == [] then [] else Words(ws[..|ws| - 1]) + ws[|ws| - 1]
    }

    lemma WordOf(pre: Block, w: Block, post: Block)
      requires |w| == 4
      ensures Word(pre + w + post, |pre|) == Word(w, 0)
    {
      var s, k := pre + w + post, |pre|;
      assert s[k] == w[0] && s[k + 1] == w[1] && s[k + 2] == w[2] && s[k + 3] == w[3];
    }

    lemma {:induction false} WordAmong(pre: Block, ws: seq<Block>, post: Block, n: nat)
      requires n < |ws| && forall i :: 0 <= i < |ws| ==> |ws[i]| == 4
      ensures Word(pre + Words(ws) + post, |pre| + 4 * n) == Word(ws[n], 0)
      decreases |ws|
    {
      var most, last := ws[..|ws| - 1], ws[|ws| - 1];
      assert pre + Words(ws) + post == pre + Words(most) + (last + post);
      if n < |most| {
        WordAmong(pre, most, last + post, n);
      } else {
        assert pre + Words(ws) + post == (pre + Words(most)) + last + post;
        WordOf(pre + Words(most), last, post);
      }
    }

    // struct File, field by field: its name, size, type, direct slots and indirect block,
    // padded to 256 bytes.
    static function StructFile(name: Block, size: Block, ftype: Block, direct: seq<Block>, indirect: Block, pad: Block): Block
      requires forall i :: 0 <= i < |direct| ==> |direct[i]| == 4
    {
      name + size + ftype + Words(direct) + indirect + pad
    }

    // The offsets used here are those of that structure.
    lemma FieldsAre(name: Block, size: Block, ftype: Block, direct: seq<Block>, indirect: Block, pad: Block)
      requires |name| == 128 && |direct| == 10 && |pad| == 256 - 128 - 8 - 4 * 10 - 4
      requires |size| == 4 && |ftype| == 4 && |indirect| == 4 && forall i :: 0 <= i < |direct| ==> |direct[i]| == 4
      ensures var file := StructFile(name, size, ftype, direct, indirect, pad);
              && |file| == FILE_BYTES && Word(file, F_SIZE) == Word(size, 0) && Word(file, F_INDIRECT) == Word(indirect, 0)
              && forall n :: 0 <= n < NDIRECT ==> Word(file, F_DIRECT + 4 * n) == Word(direct[n], 0)
    {
      var file, rest := StructFile(name, size, ftype, direct, indirect, pad), indirect + pad;
      assert file == name + size + (ftype + Words(direct) + rest);
      WordOf(name, size, ftype + Words(direct) + rest);
      var head := name + size + ftype;
      assert file == head + Words(direct) + rest;
      forall n | 0 <= n < NDIRECT ensures Word(file, F_DIRECT + 4 * n) == Word(direct[n], 0) {
        WordAmong(head, direct, rest, n);
      }
      WordOf(head + Words(direct), indirect, pad);
    }

    // The struct File at `va` lies in one block of the disk.
    predicate IsFileAt(va: nat) {
      DISKMAP <= va < DISKMAP + DISKSIZE && BlockAt(va) < nblocks && (va - DISKMAP) % BLKSIZE + FILE_BYTES <= BLKSIZE
    }

    // What the blocks read as, all together.
    ghost predicate Reads(blocks: seq<Block>)
      reads this
    {
      Valid() && |blocks| == |disk| && forall b :: 0 <= b < |blocks| ==> blocks[b] == Logical(b)
    }

    // ---- the fields of the struct File at `va`, in the bytes of `blocks` -------------------

    ghost function Field(blocks: seq<Block>, va: nat, field: nat): nat
      requires va >= DISKMAP && BlockAt(va) < |blocks|
      requires (va - DISKMAP) % BLKSIZE + field + 4 <= |blocks[BlockAt(va)]|
    {
      Word(blocks[BlockAt(va)], (va - DISKMAP) % BLKSIZE + field)
    }

    ghost predicate HasFile(blocks: seq<Block>, va: nat) {
      nblocks <= |blocks| && (forall b :: 0 <= b < |blocks| ==> |blocks[b]| == BLKSIZE) && IsFileAt(va)
    }

    // How many slots file_flush looks at.
    ghost function Count(blocks: seq<Block>, va: nat): nat
      requires HasFile(blocks, va)
    {
      NBlocks(Field(blocks, va, F_SIZE))
    }

    ghost function Indirect(blocks: seq<Block>, va: nat): nat
      requires HasFile(blocks, va)
    {
      Field(blocks, va, F_INDIRECT)
    }

    // The block number in slot `n`, 0 when there is none.
    ghost function SlotWord(blocks: seq<Block>, va: nat, n: nat): nat
      requires HasFile(blocks, va)
    {
      if n < NDIRECT then Field(blocks, va, F_DIRECT + 4 * n)
      else if n < NSLOTS && !BadBlock(Indirect(blocks, va)) then Word(blocks[Indirect(blocks, va)], 4 * (n - NDIRECT))
      else 0
    }

    // The loop reads the indirect block, from its first slot on.
    ghost predicate ReadsIndirect(blocks: seq<Block>, va: nat)
      requires HasFile(blocks, va)
    {
      Indirect(blocks, va) != 0 && Count(blocks, va) > NDIRECT
    }

    // And cannot get it, with blocks `k` in memory.
    ghost predicate IndirectUnreadable(blocks: seq<Block>, va: nat, k: set<nat>, memory: bool)
      requires HasFile(blocks, va)
      reads this`free
    {
      var b := Indirect(blocks, va);
      ReadsIndirect(blocks, va) && (BadBlock(b) || (b !in k && (!memory || b in free)))
    }

    // The page tables there are once it has.
    ghost function TablesAfter(blocks: seq<Block>, va: nat, t: set<nat>): set<nat>
      requires HasFile(blocks, va)
    {
      if ReadsIndirect(blocks, va) then t + {Indirect(blocks, va) / GROUP} else t
    }

    ghost predicate Unflushable(b: nat, t: set<nat>) {
      b != 0 && (BadBlock(b) || b / GROUP !in t)
    }

    ghost predicate SlotUnflushable(blocks: seq<Block>, va: nat, n: nat, t: set<nat>)
      requires HasFile(blocks, va)
    {
      Unflushable(SlotWord(blocks, va, n), if n < NDIRECT then t else TablesAfter(blocks, va, t))
    }

    ghost predicate AllFlushable(blocks: seq<Block>, va: nat, i: nat, t: set<nat>)
      requires HasFile(blocks, va)
    {
      forall n :: 0 <= n < i ==> !SlotUnflushable(blocks, va, n, t)
    }

    lemma OneMoreStored(blocks: seq<Block>, va: nat, i: nat)
      requires HasFile(blocks, va) && SlotsStored(blocks, va, i)
      requires SlotWord(blocks, va, i) != 0 ==> Stored(blocks, SlotWord(blocks, va, i))
      ensures SlotsStored(blocks, va, i + 1)
    {}

    lemma OneMoreFlushable(blocks: seq<Block>, va: nat, i: nat, t: set<nat>)
      requires HasFile(blocks, va) && AllFlushable(blocks, va, i, t) && !SlotUnflushable(blocks, va, i, t)
      ensures AllFlushable(blocks, va, i + 1, t)
    {}

    // Memory as the loop has it after `i` slots, from page tables `t` and blocks `k`.
    ghost predicate After(blocks: seq<Block>, va: nat, i: nat, t: set<nat>, k: set<nat>)
      requires HasFile(blocks, va)
      reads this
    {
      var b := Indirect(blocks, va);
      var reached := i > NDIRECT && b != 0;
      && tables == (if reached then t + {b / GROUP} else t)
      && page.Keys == (if reached then k + {b} else k)
      && (reached ==> !BadBlock(b))
    }

    // Block `b` of the disk is what the block reads as.
    ghost predicate Stored(blocks: seq<Block>, b: nat)
      reads this`disk
    {
      b < nblocks && b < |disk| && b < |blocks| && disk[b] == blocks[b]
    }

    ghost predicate SlotsStored(blocks: seq<Block>, va: nat, i: nat)
      requires HasFile(blocks, va)
      reads this`disk
    {
      forall n :: 0 <= n < i && SlotWord(blocks, va, n) != 0 ==> Stored(blocks, SlotWord(blocks, va, n))
    }

    // file_flush, for the struct File at address `va`; `blocks` is what the blocks read
    // as, in memory or on disk.  Every block its slots name, the block it lies in and its
    // indirect block are then on disk.  The size is the first thing read, and never at
    // the start of a block.
    method FileFlush(va: nat, memory: bool, ghost blocks: seq<Block>) returns (panic: bool)
      requires Reads(blocks) && IsFileAt(va)
      modifies `disk, `page, `tables
      ensures panic <==>
                || BlockAt(va) !in old(page)
                || IndirectUnreadable(blocks, va, old(page).Keys, memory)
                || !AllFlushable(blocks, va, Count(blocks, va), old(tables))
                || Unflushable(Indirect(blocks, va), TablesAfter(blocks, va, old(tables)))
      ensures !panic ==> Reads(blocks) && SlotsStored(blocks, va, Count(blocks, va))
      ensures !panic ==> Stored(blocks, BlockAt(va)) && (Indirect(blocks, va) != 0 ==> Stored(blocks, Indirect(blocks, va)))
    {
      panic := TouchSize(va, memory, blocks);
      if panic {
        return;
      }
      panic := FlushSlots(va, memory, blocks);
      if panic {
        return;
      }
      panic := FlushAt(va, blocks);
      var indirect := FileWord(va, F_INDIRECT);
      if indirect != 0 {
        panic := FlushNumbered(indirect, blocks);
      }
    }

    // The first read of f->f_size.
    method TouchSize(va: nat, memory: bool, ghost blocks: seq<Block>) returns (panic: bool)
      requires Reads(blocks) && IsFileAt(va)
      modifies `page, `tables
      ensures panic <==> BlockAt(va) !in old(page)
      ensures !panic ==> Reads(blocks) && page.Keys == old(page).Keys && tables == old(tables)
    {
      SizeAt(va);
      panic := Touch(va + F_SIZE, memory);
    }

    // f_size never starts a page.
    lemma SizeAt(va: nat)
      requires IsFileAt(va)
      ensures BlockAt(va + F_SIZE) == BlockAt(va) && (va + F_SIZE) % PGSIZE != 0 && va + F_SIZE < DISKMAP + DISKSIZE
    {
      var o := (va - DISKMAP) % BLKSIZE;
      assert va + F_SIZE == DiskAddr(BlockAt(va)) + (o + F_SIZE);
      InBlock(BlockAt(va), o + F_SIZE);
    }

    // flush_block(va)
    method FlushAt(va: nat, ghost blocks: seq<Block>) returns (panic: bool)
      requires Reads(blocks) && DISKMAP <= va < DISKMAP + DISKSIZE && BlockAt(va) < nblocks
      modifies `disk, `page
      ensures panic <==> BlockAt(va) / GROUP !in tables
      ensures Reads(blocks) && page.Keys == old(page).Keys
      ensures !panic ==> Stored(blocks, BlockAt(va))
      ensures forall c :: old(Stored(blocks, c)) ==> Stored(blocks, c)
    {
      panic := FlushBlock(va);
    }

    // flush_block(diskaddr(b))
    method FlushNumbered(b: nat, ghost blocks: seq<Block>) returns (panic: bool)
      requires Reads(blocks)
      modifies `disk, `page
      ensures panic <==> BadBlock(b) || b / GROUP !in tables
      ensures Reads(blocks) && page.Keys == old(page).Keys
      ensures !panic ==> Stored(blocks, b)
      ensures forall c :: old(Stored(blocks, c)) ==> Stored(blocks, c)
    {
      panic := BadBlock(b);
      if !panic {
        panic := FlushAt(DiskAddr(b), blocks);
      }
    }

    // These bytes spell out file `f` of a file-system state.
    ghost predicate Spells(blocks: seq<Block>, va: nat, s: State, f: nat) {
      && Inv(s) && s.nblocks == nblocks && f < |s.files| && HasFile(blocks, va)
      && Field(blocks, va, F_SIZE) == s.files[f].size && Indirect(blocks, va) == s.files[f].indirect
      && (forall n :: 0 <= n < NDIRECT ==> Field(blocks, va, F_DIRECT + 4 * n) == s.files[f].direct[n])
      && (!BadBlock(Indirect(blocks, va)) ==>
            forall i :: 0 <= i < NINDIRECT ==> Word(blocks[Indirect(blocks, va)], 4 * i) == s.ind[Indirect(blocks, va)][i])
    }

    // Then what file_flush leaves on disk is every block of that file.
    lemma FlushedFile(blocks: seq<Block>, va: nat, s: State, f: nat, n: nat)
      requires Spells(blocks, va, s, f) && SlotsStored(blocks, va, Count(blocks, va)) && n < NSLOTS
      ensures SlotWord(blocks, va, n) == At(s, Nth(f, n))
      ensures At(s, Nth(f, n)) != 0 ==> Stored(blocks, At(s, Nth(f, n)))
    {
      assert At(s, Ind(f)) == s.files[f].indirect && TailEmpty(s, f);
      assert n >= Count(blocks, va) ==> At(s, Nth(f, n)) == 0;
    }

    // A field of the struct File at `va`, whose block is in memory.
    function FileWord(va: nat, field: nat): nat
      requires Valid() && IsFileAt(va) && BlockAt(va) in page && field + 4 <= FILE_BYTES
      reads this
    {
      Word(page[BlockAt(va)].content, (va - DISKMAP) % BLKSIZE + field)
    }

    method FlushSlots(va: nat, memory: bool, ghost blocks: seq<Block>) returns (panic: bool)
      requires Reads(blocks) && IsFileAt(va) && BlockAt(va) in page
      modifies `disk, `page, `tables
      ensures panic <==> IndirectUnreadable(blocks, va, old(page).Keys, memory) ||
                         !AllFlushable(blocks, va, Count(blocks, va), old(tables))
      ensures !panic ==> Reads(blocks) && BlockAt(va) in page
      ensures !panic ==> tables == TablesAfter(blocks, va, old(tables)) && SlotsStored(blocks, va, Count(blocks, va))
    {
      ghost var t, k, unreadable := tables, page.Keys, IndirectUnreadable(blocks, va, page.Keys, memory);
      var i := 0;
      while i < NBlocks(FileWord(va, F_SIZE))
        invariant Reads(blocks) && BlockAt(va) in page
        invariant i <= Count(blocks, va) && After(blocks, va, i, t, k) && SlotsStored(blocks, va, i)
        invariant i > NDIRECT ==> !unreadable
        invariant AllFlushable(blocks, va, i, t)
        decreases Count(blocks, va) - i
      {
        panic := FlushSlot(va, i, memory, blocks, t, k, unreadable);
        if panic {
          return;
        }
        OneMoreFlushable(blocks, va, i, t);
        OneMoreStored(blocks, va, i);
        i := i + 1;
      }
      panic := false;
    }

    lemma InBlock(b: nat, o: nat)
      requires o < BLKSIZE
      ensures BlockAt(DiskAddr(b) + o) == b && (DiskAddr(b) + o) % PGSIZE == o
    {}

    // file_block_walk and the slot it finds; no block for the walk's -E_INVAL and
    // -E_NOT_FOUND.
    method SlotBlock(va: nat, i: nat, memory: bool, ghost blocks: seq<Block>, ghost t: set<nat>, ghost k: set<nat>,
                     ghost unreadable: bool)
      returns (panic: bool, b: nat)
      requires Reads(blocks) && IsFileAt(va) && BlockAt(va) in page && After(blocks, va, i, t, k) && i < Count(blocks, va)
      requires unreadable == IndirectUnreadable(blocks, va, k, memory)
      modifies `page, `tables
      ensures panic <==> i == NDIRECT && unreadable
      ensures !panic ==> Reads(blocks) && After(blocks, va, i + 1, t, k) && BlockAt(va) in page
      ensures !panic ==> b == SlotWord(blocks, va, i)
    {
      var indirect := FileWord(va, F_INDIRECT);
      if i >= NSLOTS || (i >= NDIRECT && indirect == 0) {
        return false, 0;
      }
      if i < NDIRECT {
        return false, FileWord(va, F_DIRECT + 4 * i);
      }
      panic, b := IndirectWord(indirect, i - NDIRECT, memory, blocks);
    }

    // Slot `i` of the indirect block.
    method IndirectWord(indirect: nat, i: nat, memory: bool, ghost blocks: seq<Block>) returns (panic: bool, b: nat)
      requires Reads(blocks) && 0 < indirect && i < NINDIRECT
      modifies `page, `tables
      ensures panic <==> BadBlock(indirect) || (indirect !in old(page) && (i != 0 || !memory || indirect in free))
      ensures !panic ==> Reads(blocks) && page.Keys == old(page).Keys + {indirect} && tables == old(tables) + {indirect / GROUP}
      ensures !panic ==> b == Word(blocks[indirect], 4 * i)
    {
      if BadBlock(indirect) {
        return true, 0;
      }
      InBlock(indirect, 4 * i);
      panic := Touch(DiskAddr(indirect) + 4 * i, memory);
      b := 0;
      if !panic {
        b := Word(page[indirect].content, 4 * i);
      }
    }

    // One round of file_flush's loop.
    method FlushSlot(va: nat, i: nat, memory: bool, ghost blocks: seq<Block>, ghost t: set<nat>, ghost k: set<nat>,
                     ghost unreadable: bool)
      returns (panic: bool)
      requires Reads(blocks) && IsFileAt(va) && BlockAt(va) in page && After(blocks, va, i, t, k) && i < Count(blocks, va)
      requires unreadable == IndirectUnreadable(blocks, va, k, memory)
      modifies `disk, `page, `tables
      ensures panic <==> (i == NDIRECT && unreadable) || SlotUnflushable(blocks, va, i, t)
      ensures !panic ==> Reads(blocks) && BlockAt(va) in page && After(blocks, va, i + 1, t, k)
      ensures !panic ==> SlotWord(blocks, va, i) != 0 ==> Stored(blocks, SlotWord(blocks, va, i))
      ensures !panic ==> forall c :: old(Stored(blocks, c)) ==> Stored(blocks, c)
    {
      var b: nat;
      panic, b := SlotBlock(va, i, memory, blocks, t, k, unreadable);
      if panic || b == 0 {
        return;
      }
      panic := FlushNumbered(b, blocks);
    }
  }
}
