/** kernel/fs/ramfs.c: nodes, files and their buffers in the kernel heap. */
module RamFs {
  import opened Machine
  import opened HeapBlocks
  import opened HeapMemory
  import opened KernelHeap
  import opened Claims
  import opened FileContents
  import opened FileTree
  import opened TreeHistory
  import opened RamState

  /** A call of the operations that change the file system. */
  datatype Call =
    | Create(node: u32, name: Name, typ: u32)
    | Mkdir(node: u32, name: Name, mode: u32)
    | Unlink(node: u32, name: Name)
    | Store(node: u32, offset: u32, data: seq<u8>)
  {
    /** A name is a C string, and a write does not run past the end of memory. */
    predicate Proper() {
      if Store? then offset + |data| < U32_LIMIT else 0 !in name
    }

    /** The name is stored whole. */
    predicate Short() {
      Store? || |name| < VFS_NAME_MAX
    }
  }

  class FileSystem {
    const heap: KHeap
    var nodes: Nodes
    var files: Files
    var nextInode: u32
    /** The children of every node, as the sibling links list them. */
    ghost var kids: Kids
    /** The heap blocks held here. */
    ghost var claims: Ledger
    /** How often each file's buffer was reallocated. */
    ghost var grown: map<u32, nat>
    /** The number of nodes created so far, and before each node. */
    ghost var created: nat
    ghost var born: Birth

    ghost predicate HeapOk()
      reads this, heap, heap.mem
    {
      heap.Valid() && heap.initialized && Balanced(claims, Live(heap.blocks), heap.base)
    }

    ghost predicate FilesIn()
      reads this, heap, heap.mem
    {
      HeapOk() && FilesOk(files, claims) && NodesOk(nodes, files, claims) && Counted(files, grown)
    }

    ghost predicate Tree()
      reads this
    {
      Threaded(nodes, kids) && Aged(nodes, kids, born, created) && nextInode == Wrap(created)
    }

    ghost predicate Valid()
      reads this, heap, heap.mem
    {
      FilesIn() && Tree()
    }

    /** The live heap blocks of the rest of the kernel. */
    ghost function Others(): set<Block>
      reads this, heap
    {
      Rest(claims, Live(heap.blocks))
    }

    /** A file's capacity and reallocations. */
    ghost function GrowthOf(f: u32): Growth
      requires f in files && f in grown
      reads this
    {
      Growth(files[f].capacity, grown[f])
    }

    ghost function Content(f: u32): Bytes
      requires f in files
      reads this, heap, heap.mem
    {
      ContentOf(heap.mem[..], heap.base, files[f])
    }

    constructor (h: KHeap)
      requires h.Valid() && h.initialized
      ensures heap == h && Valid() && nodes == map[] && files == map[] && nextInode == 1 && claims == map[]
      ensures kids == map[] && created == 1
    {
      heap := h;
      nodes, files, nextInode := map[], map[], 1;
      kids, claims, grown, created, born := map[], map[], map[], 1, map[];
    }

    /** `kmalloc` on behalf of the file system. */
    method Take(size: u32, ghost kind: Kind) returns (p: u32)
      requires HeapOk() && 0 < size <= U32_LIMIT - 8
      modifies heap`blocks, heap.mem, this`claims
      ensures HeapOk() && Others() == old(Others())
      ensures heap.blocks == Malloc(old(heap.blocks), size).heap
      ensures p != NULL <==> Malloc(old(heap.blocks), size).ptr.Some?
      ensures KeepsPayloads(Live(old(heap.blocks)), old(heap.mem[..]), heap.mem[..])
      ensures p == NULL ==> heap.blocks == old(heap.blocks) && claims == old(claims)
      ensures p != NULL ==>
        && p !in old(claims) && p in claims && claims == old(claims)[p := claims[p]]
        && claims[p].kind == kind && claims[p].block.size >= size
        && claims[p].block !in Live(old(heap.blocks)) && Live(heap.blocks) == Live(old(heap.blocks)) + {claims[p].block}
        && claims[p].block.Payload() == p - heap.base && claims[p].block.End() <= KHEAP_SIZE
    {
      hide HeapBlocks.Valid, Rep, KeepsPayloads, Malloc, Balanced, Rest;
      ghost var bs := heap.blocks;
      MallocLaw(bs, size);
      p := heap.Kmalloc(size);
      if p != NULL {
        GrantCoversRequest(bs, size);
        ghost var b := BlockOf(heap.blocks, p - heap.base);
        UnclaimedIsFresh(claims, Live(bs), heap.base, p, bs);
        NotLiveNow(bs, b);
        ClaimAdded(claims, Live(bs), heap.base, p, kind, b);
        LiveInHeap(heap.blocks, b);
        claims := claims[p := Claim(kind, b)];
      }
    }

    /** `kfree` on behalf of the file system. */
    method Drop(p: u32)
      requires HeapOk() && p in claims
      modifies heap`blocks, heap.mem, this`claims
      ensures HeapOk() && Others() == old(Others()) && claims == old(claims) - {p}
      ensures Live(heap.blocks) == Live(old(heap.blocks)) - {old(claims)[p].block}
      ensures KeepsPayloads(Live(heap.blocks), old(heap.mem[..]), heap.mem[..])
    {
      hide HeapBlocks.Valid, Rep, KeepsPayloads, Free, Balanced, Rest;
      ghost var bs := heap.blocks;
      ClaimedIsLive(claims, Live(bs), heap.base, p, bs);
      FreeLaw(bs, p - heap.base);
      heap.Kfree(p);
      ClaimDropped(claims, Live(bs), heap.base, p);
      claims := claims - {p};
    }

    /** Blocks other than file `f`'s buffer. */
    ghost function OtherBlocks(f: u32): set<Block>
      requires f in files
      reads this, heap
    {
      if files[f].data in claims then Live(heap.blocks) - {claims[files[f].data].block} else Live(heap.blocks)
    }

    /** Claims other than that on file `f`'s buffer. */
    ghost function OtherClaims(f: u32): Ledger
      requires f in files
      reads this
    {
      claims - {files[f].data}
    }

    /** Every file's bytes. */
    ghost function Contents(): map<u32, Bytes>
      reads this, heap, heap.mem
    {
      map f | f in files :: ContentOf(heap.mem[..], heap.base, files[f])
    }

    // ------------------------------------------------------ the rest of the kernel

    /** Whatever others do to the heap, the file system stands and keeps every file's bytes as long
        as the blocks held here stay live with their payloads. */
    twostate lemma OthersKeep()
      requires old(Valid()) && unchanged(this) && heap.Valid() && heap.initialized
      requires Held(claims) <= Live(heap.blocks)
      requires KeepsPayloads(Held(claims), old(heap.mem[..]), heap.mem[..])
      ensures Valid() && Contents() == old(Contents())
    {
      hide HeapBlocks.Valid, Rep, KeepsPayloads, Balanced, Threaded, Aged, NodesOk, FilesOk, Counted, ContentOf;
      OthersBalanced(claims, old(Live(heap.blocks)), Live(heap.blocks), heap.base);
      HeldContentsKept(files, claims, old(Live(heap.blocks)), heap.base, old(heap.mem[..]), heap.mem[..],
                       old(heap.blocks));
    }

    /** `kmalloc` by another part of the kernel. */
    method OtherMalloc(size: u32) returns (p: u32)
      requires Valid()
      modifies heap`blocks, heap.mem
      ensures Valid() && Contents() == old(Contents())
      ensures heap.blocks == Malloc(old(heap.blocks), size).heap
      ensures p != NULL <==> Malloc(old(heap.blocks), size).ptr.Some?
      ensures p == NULL ==> heap.blocks == old(heap.blocks) && Others() == old(Others())
      ensures p != NULL ==>
        && heap.LivePtr(p) && p !in claims && BlockOf(heap.blocks, p - heap.base) !in old(Others())
        && Others() == old(Others()) + {BlockOf(heap.blocks, p - heap.base)}
    {
      hide HeapBlocks.Valid, Rep, KeepsPayloads, Malloc, Balanced, Threaded, Aged, NodesOk, FilesOk, Counted, ContentOf;
      ghost var bs := heap.blocks;
      MallocLaw(bs, size);
      HeldLive(claims, Live(bs), heap.base);
      p := heap.Kmalloc(size);
      KeepsSubset(Live(bs), Held(claims), old(heap.mem[..]), heap.mem[..]);
      OthersKeep();
      if p != NULL {
        UnclaimedIsFresh(claims, Live(bs), heap.base, p, bs);
        NotLiveNow(bs, BlockOf(heap.blocks, p - heap.base));
      }
    }

    /** `kfree` by another part of the kernel, of a block that is not held here. */
    method OtherFree(p: u32)
      requires Valid() && (p != NULL ==> heap.LivePtr(p) && p !in claims)
      modifies heap`blocks, heap.mem
      ensures Valid() && Contents() == old(Contents())
      ensures p == NULL ==> Others() == old(Others())
      ensures p != NULL ==> Others() == old(Others()) - {BlockOf(old(heap.blocks), p - heap.base)}
    {
      hide HeapBlocks.Valid, Rep, KeepsPayloads, Free, Balanced, Threaded, Aged, NodesOk, FilesOk, Counted, ContentOf;
      ghost var bs := heap.blocks;
      HeldLive(claims, Live(bs), heap.base);
      KeepsReflexive(Held(claims), heap.mem[..]);
      if p != NULL {
        FreeLaw(bs, p - heap.base);
        UnclaimedNotHeld(claims, Live(bs), heap.base, p, BlockOf(bs, p - heap.base));
      }
      heap.Kfree(p);
      if p != NULL {
        KeepsSubset(Live(heap.blocks), Held(claims), old(heap.mem[..]), heap.mem[..]);
      }
      OthersKeep();
    }

    /** The growth step of `ramfs_write`: a larger buffer with the old bytes in it. */
    method Grow(f: u32, newCap: u32) returns (ok: bool)
      requires Valid() && f in files && files[f].capacity < newCap <= RAMFS_MAX_FILE_SIZE
      requires f in grown && Doubled(Growth(newCap, grown[f] + 1))
      modifies heap`blocks, heap.mem, this`claims, this`files, this`grown
      ensures Valid() && Others() == old(Others())
      ensures ok <==> Malloc(old(heap.blocks), newCap).ptr.Some?
      ensures !ok ==>
        && files == old(files) && grown == old(grown) && claims == old(claims) && heap.blocks == old(heap.blocks)
        && KeepsPayloads(Live(old(heap.blocks)), old(heap.mem[..]), heap.mem[..])
      ensures ok ==>
        && f in files && files == old(files)[f := File(files[f].data, old(files)[f].size, newCap)]
        && grown == old(grown)[f := old(grown)[f] + 1]
        && OtherClaims(f) == old(OtherClaims(f)) && OtherBlocks(f) == old(OtherBlocks(f))
        && Content(f) == old(Content(f))
        && KeepsPayloads(old(OtherBlocks(f)), old(heap.mem[..]), heap.mem[..])
    {
      hide HeapBlocks.Valid, Rep, KeepsPayloads, Malloc, Balanced, Rest, Threaded, Aged, NodesOk, FilesOk, Doubled;
      hide Counted, ContentOf, GrowthOf;
      FileOkOf(files, claims, f);
      ghost var live0, m0, claims0, others := Live(heap.blocks), heap.mem[..], claims, OtherBlocks(f);
      if files[f].data != NULL {
        ClaimedIsLive(claims, live0, heap.base, files[f].data, heap.blocks);
      }
      var newData := Take(newCap, DataBlock(f));
      if newData == NULL {
        return false;
      }
      ghost var m1 := heap.mem[..];
      OneContentKept(files[f], f, claims0, live0, live0, heap.base, m0, m1, old(heap.blocks));
      Replace(f, newData, newCap, claims0, live0);
      KeepsSubset(live0, others, m0, m1);
      KeepsChain(others, m0, m1, heap.mem[..]);
      return true;
    }

    /** Move a file's bytes to its new buffer and free the old one. `was` and `live` are the claims and
        live blocks before the new buffer was taken. */
    method Replace(f: u32, newData: u32, newCap: u32, ghost was: Ledger, ghost live: set<Block>)
      requires HeapOk() && FilesOk(files, was) && NodesOk(nodes, files, was) && Counted(files, grown) && f in files
      requires newData !in was && newData in claims && claims == was[newData := claims[newData]]
      requires claims[newData].kind == DataBlock(f) && claims[newData].block.size >= newCap
      requires Live(heap.blocks) == live + {claims[newData].block} && claims[newData].block !in live
      requires f in grown && Doubled(Growth(newCap, grown[f] + 1))
      requires files[f].capacity < newCap <= RAMFS_MAX_FILE_SIZE
      modifies heap`blocks, heap.mem, this`claims, this`files, this`grown
      ensures FilesIn() && Others() == old(Others())
      ensures files == old(files)[f := File(newData, old(files)[f].size, newCap)]
      ensures grown == old(grown)[f := old(grown)[f] + 1]
      ensures claims == old(claims) - {old(files)[f].data} && newData in claims
      ensures var data := old(files)[f].data;
        var others := if data in was then live - {was[data].block} else live;
        && Live(heap.blocks) == others + {claims[newData].block}
        && KeepsPayloads(others, old(heap.mem[..]), heap.mem[..])
      ensures Content(f) == old(Content(f))
    {
      hide HeapBlocks.Valid, Rep, KeepsPayloads, Balanced, Rest, NodesOk, FilesOk, Doubled, Counted, ContentOf;
      FileOkOf(files, was, f);
      FileOkMore(files[f], f, was, claims, newData);
      NullUnclaimed(claims, Live(heap.blocks), heap.base);
      ghost var m1, now, h, files0 := heap.mem[..], claims[newData].block, heap.blocks, files;
      ghost var others := if files[f].data in was then live - {was[files[f].data].block} else live;
      var file := files[f];
      ClaimedIsLive(claims, Live(h), heap.base, newData, h);
      if file.data != NULL {
        ClaimedIsLive(claims, Live(h), heap.base, file.data, h);
      }
      CopyOld(file, f, newData);
      ghost var m2 := heap.mem[..];
      DropOld(file.data);
      assert Live(heap.blocks) == others + {now};
      CountedGrow(files, grown, f, File(newData, file.size, newCap), grown[f] + 1);
      files := files[f := File(newData, file.size, newCap)];
      grown := grown[f := grown[f] + 1];
      GrowOk(nodes, files0, was, claims, f, newData, newCap);
      KeepsReflexive(live, m1);
      GrowBytes(h, live, others, heap.base, file, f, was, newData, newCap, now, m1, m1, m2, heap.mem[..]);
    }

    /** `kfree` of a buffer that may be NULL. */
    method DropOld(data: u32)
      requires HeapOk() && (data != NULL ==> data in claims)
      modifies heap`blocks, heap.mem, this`claims
      ensures HeapOk() && Others() == old(Others()) && claims == old(claims) - {data}
      ensures Live(heap.blocks) ==
        if data == NULL then Live(old(heap.blocks)) else Live(old(heap.blocks)) - {old(claims)[data].block}
      ensures KeepsPayloads(Live(heap.blocks), old(heap.mem[..]), heap.mem[..])
    {
      hide HeapBlocks.Valid, Rep, KeepsPayloads, Balanced, Rest;
      NullUnclaimed(claims, Live(heap.blocks), heap.base);
      if data != NULL {
        Drop(data);
      } else {
        KeepsReflexive(Live(heap.blocks), heap.mem[..]);
      }
    }

    /** Copy a file's bytes into the buffer that will replace its own. */
    method CopyOld(file: File, f: u32, newData: u32)
      requires HeapOk() && FileOk(file, f, claims) && newData in claims && claims[newData].block.size > file.capacity
      requires newData != file.data
      modifies heap.mem
      ensures HeapOk() && heap.mem.Length == KHEAP_SIZE
      ensures newData > heap.base && newData - heap.base + file.size <= KHEAP_SIZE
      ensures SameExcept(old(heap.mem[..]), heap.mem[..], newData - heap.base, newData - heap.base + file.size)
      ensures heap.mem[..][newData - heap.base..newData - heap.base + file.size] ==
        ContentOf(old(heap.mem[..]), heap.base, file)
    {
      hide HeapBlocks.Valid, Rep, Balanced;
      ghost var now := claims[newData].block;
      ClaimedIsLive(claims, Live(heap.blocks), heap.base, newData, heap.blocks);
      if file.data != NULL && file.size > 0 {
        ClaimedIsLive(claims, Live(heap.blocks), heap.base, file.data, heap.blocks);
        LiveApart(heap.blocks, claims[file.data].block, now);
        heap.Copy(newData, file.data, file.size, now);
      }
    }

    /** Overwrite part of a buffer and move the end of the file if the write passed it. */
    method Fill(f: u32, offset: u32, data: seq<u8>)
      requires HeapOk() && FilesOk(files, claims) && f in files && offset + |data| <= files[f].capacity
      modifies heap.mem, this`files
      ensures HeapOk() && FilesOk(files, claims)
      ensures var size := if offset + |data| > old(files)[f].size then offset + |data| else old(files)[f].size;
        files == old(files)[f := old(files)[f].(size := size)]
      ensures Written(old(Content(f)), Content(f), offset, data)
      ensures KeepsPayloads(old(OtherBlocks(f)), old(heap.mem[..]), heap.mem[..])
    {
      hide HeapBlocks.Valid, Rep, Balanced, FilesOk, KeepsPayloads, ContentOf, Written;
      FileOkOf(files, claims, f);
      var file := files[f];
      ghost var m0 := heap.mem[..];
      NullUnclaimed(claims, Live(heap.blocks), heap.base);
      if file.data != NULL {
        ClaimedIsLive(claims, Live(heap.blocks), heap.base, file.data, heap.blocks);
        heap.CopyIn(file.data + offset, data, claims[file.data].block);
        FillKeeps(heap.blocks, claims[file.data].block, m0, heap.mem[..], file.data - heap.base + offset, |data|);
      } else {
        KeepsReflexive(Live(heap.blocks), m0);
      }
      if offset + |data| > files[f].size {
        files := files[f := files[f].(size := offset + |data|)];
        ResizeOk(old(files), claims, f, offset + |data|);
      }
      FillWrites(m0, heap.mem[..], heap.base, file, files[f], offset, data);
    }

    /** Enough room for a write ending at `newSize`, growing the buffer if need be. */
    method Reserve(f: u32, newSize: u32) returns (ok: bool)
      requires Valid() && f in files
      modifies heap`blocks, heap.mem, this`claims, this`files, this`grown
      ensures Valid() && Others() == old(Others())
      ensures ok <==> CanHold(old(files)[f], newSize, old(heap.blocks))
      ensures f in files && f in grown && f in old(grown)
      ensures GrowthOf(f) == Regrown(old(GrowthOf(f)), newSize, old(heap.blocks))
      ensures !ok ==>
        && files == old(files) && grown == old(grown) && claims == old(claims) && heap.blocks == old(heap.blocks)
        && KeepsPayloads(Live(old(heap.blocks)), old(heap.mem[..]), heap.mem[..])
      ensures ok ==>
        && f in files && newSize <= files[f].capacity && Content(f) == old(Content(f))
        && files == old(files)[f := File(files[f].data, old(files)[f].size, files[f].capacity)]
        && grown == old(grown)[f := grown[f]]
        && OtherClaims(f) == old(OtherClaims(f)) && OtherBlocks(f) == old(OtherBlocks(f))
        && KeepsPayloads(old(OtherBlocks(f)), old(heap.mem[..]), heap.mem[..])
    {
      hide HeapBlocks.Valid, Rep, KeepsPayloads, Malloc, Balanced, Rest, Threaded, Aged, NodesOk, FilesOk, ContentOf;
      hide Doubled;
      FileOkOf(files, claims, f);
      NullUnclaimed(claims, Live(heap.blocks), heap.base);
      KeepsReflexive(Live(heap.blocks), heap.mem[..]);
      KeepsReflexive(OtherBlocks(f), heap.mem[..]);
      FitsIff(newSize);
      if newSize > files[f].capacity {
        var newCap := Wrap(newSize * 2);
        if newCap > RAMFS_MAX_FILE_SIZE {
          newCap := RAMFS_MAX_FILE_SIZE;
        }
        if newSize > newCap {
          return false;
        }
        GrowStepDoubled(GrowthOf(f), newSize, true);
        ok := Grow(f, newCap);
        return;
      }
      return true;
    }

    /** `ramfs_write` (`buffer` None is a NULL buffer). */
    method Write(node: u32, offset: u32, buffer: Option<seq<u8>>) returns (r: int)
      requires Valid() && node in nodes
      requires Writable(nodes[node], files, offset, buffer, heap.blocks) ==> offset + |buffer.value| < U32_LIMIT
      modifies heap`blocks, heap.mem, this`claims, this`files, this`nodes, this`grown
      ensures Valid() && Others() == old(Others())
      ensures old(UniqueNames(nodes, kids)) ==> UniqueNames(nodes, kids)
      ensures r == -1 <==> !Writable(old(nodes)[node], old(files), offset, buffer, old(heap.blocks))
      ensures r == -1 ==>
        && nodes == old(nodes) && files == old(files) && claims == old(claims) && heap.blocks == old(heap.blocks)
        && Contents() == old(Contents())
      ensures buffer.Some? && old(nodes)[node].privateData != NULL ==>
        var f, newSize := old(nodes)[node].privateData, Wrap(offset + |buffer.value|);
        && f in files && f in old(files) && f in grown && f in old(grown)
        && GrowthOf(f) == Regrown(Growth(old(files)[f].capacity, old(grown)[f]), newSize, old(heap.blocks))
      ensures r != -1 ==>
        && r == |buffer.value|
        && Wrote(old(nodes), old(files), old(Contents()), nodes, files, Contents(), node, offset, buffer.value)
      ensures OnlyFile(old(nodes), old(files), old(claims), nodes, files, claims, node)
      ensures r != -1 <==>
        && buffer.Some? && old(nodes)[node].privateData in old(files)
        && RoomToWrite(old(files)[old(nodes)[node].privateData].capacity, offset + |buffer.value|, old(heap.blocks))
    {
      hide HeapBlocks.Valid, Rep, KeepsPayloads, Malloc, Balanced, Rest, Threaded, Aged, NodesOk, FilesOk, ContentOf;
      hide CanHold, Regrown, Counted, UniqueNames, RoomToWrite;
      NullUnclaimed(claims, Live(heap.blocks), heap.base);
      NullNoFile(files, claims);
      if buffer.Some? && nodes[node].privateData in files {
        RoomIsHeld(files[nodes[node].privateData], offset + |buffer.value|, heap.blocks);
      }
      var f := nodes[node].privateData;
      NodeOkOf(nodes, files, claims, node);
      if f == NULL || buffer.None? {
        return -1;
      }
      var newSize := Wrap(offset + |buffer.value|);
      ghost var nodes0, files0, contents0, m0, live0 := nodes, files, Contents(), heap.mem[..], Live(heap.blocks);
      ghost var claims0, bs0 := claims, heap.blocks;
      var ok := Reserve(f, newSize);
      if !ok {
        AllContentsKept(files0, claims0, live0, heap.base, m0, heap.mem[..], heap.blocks);
        assert Contents() == contents0;
        return -1;
      }
      OtherContentsKept(files0, claims0, live0, heap.base, f, m0, heap.mem[..], bs0);
      ghost var files1, m1 := files, heap.mem[..];
      ghost var bs1 := heap.blocks;
      Fill(f, offset, buffer.value);
      OtherContentsKept(files1, claims, Live(bs1), heap.base, f, m1, heap.mem[..], bs1);
      ShowSize(node, f, files1);
      assert Contents() == contents0[f := Contents()[f]];
      return |buffer.value|;
    }

    /** `node->size = file->size`, after a write changed the file's size from that in `was`. */
    method ShowSize(node: u32, f: u32, ghost was: Files)
      requires HeapOk() && FilesOk(files, claims) && Tree()
      requires NodesOk(nodes, was, claims) && Counted(was, grown)
      requires node in nodes && nodes[node].privateData == f && f != NULL
      requires f in was && f in files && files == was[f := was[f].(size := files[f].size)]
      modifies this`nodes
      ensures Valid() && f in grown && files[f].size == |Content(f)|
      ensures nodes == old(nodes)[node := old(nodes)[node].(size := files[f].size)]
      ensures old(UniqueNames(nodes, kids)) ==> UniqueNames(nodes, kids)
    {
      hide HeapBlocks.Valid, Rep, Balanced, Threaded, Aged, NodesOk, FilesOk, ContentOf, Counted, UniqueNames;
      var size := files[f].size;
      CountedResize(was, grown, f, size);
      WriteNodesOk(nodes, was, claims, node, f, size);
      SizeThreaded(nodes, kids, node, size);
      AgedUpdate(nodes, kids, born, created, node, nodes[node].(size := size));
      if UniqueNames(nodes, kids) {
        UniqueUpdate(nodes, kids, node, nodes[node].(size := size));
      }
      nodes := nodes[node := nodes[node].(size := size)];
      FileOkOf(files, claims, f);
      ContentSize(files[f], f, claims, heap.base, heap.mem[..], heap.blocks);
    }

    /** `ramfs_read` (`hasBuffer` false is a NULL buffer). */
    method Read(node: u32, offset: u32, size: u32, hasBuffer: bool) returns (r: int, out: seq<u8>)
      requires Valid() && node in nodes
      ensures r == -1 <==> nodes[node].privateData == NULL || !hasBuffer
      ensures r != -1 ==>
        && r == |out| && nodes[node].privateData in files
        && out == ReadOf(Content(nodes[node].privateData), offset, size)
      ensures r != -1 ==>
        var content := Content(nodes[node].privateData);
        && r == (if offset >= |content| then 0 else Min(size, |content| - offset))
        && forall i | 0 <= i < r :: out[i] == content[offset + i]
    {
      hide HeapBlocks.Valid, Rep, Balanced, Threaded, Aged, Counted, NodesOk, FilesOk, ContentOf, ReadOf;
      out := [];
      var f := nodes[node].privateData;
      NodeOkOf(nodes, files, claims, node);
      if f == NULL || !hasBuffer {
        return -1, [];
      }
      var file := files[f];
      FileOkOf(files, claims, f);
      ContentSize(file, f, claims, heap.base, heap.mem[..], heap.blocks);
      if offset >= file.size {
        ReadPastEnd(Content(f), offset, size);
        return 0, [];
      }
      ClaimedIsLive(claims, Live(heap.blocks), heap.base, file.data, heap.blocks);
      var available := file.size - offset;
      var count := if size > available then available else size;
      out := heap.CopyOut(file.data + offset, count);
      ReadBytes(heap.mem[..], heap.base, file, offset, size);
      ReadPart(Content(f), offset, size);
      return count, out;
    }

    // ------------------------------------------------------------ directories

    /** `ramfs_finddir`. */
    method FindDir(dir: u32, name: Name) returns (found: u32)
      requires Valid() && dir in nodes && 0 !in name
      ensures KidsKnown(nodes, kids, dir)
      ensures found == if IsDirectory(nodes[dir]) then FirstNamed(nodes, kids[dir], name) else NULL
    {
      hide HeapBlocks.Valid, Rep, Balanced, FilesOk, Aged, Counted, IsDirectory;
      KidsInNodes(nodes, kids, dir);
      ChildListed(nodes, kids, dir);
      if !IsDirectory(nodes[dir]) {
        return NULL;
      }
      var child, k, prev := Search(dir, name);
      return child;
    }

    /** The search loop shared by `ramfs_finddir` and `ramfs_do_unlink`. */
    method Search(dir: u32, name: Name) returns (child: u32, ghost k: nat, prev: u32)
      requires Valid() && dir in nodes && 0 !in name
      ensures KidsKnown(nodes, kids, dir)
      ensures child == FirstNamed(nodes, kids[dir], name)
      ensures child != NULL ==> k < |kids[dir]| && kids[dir][k] == child && prev == PrevOf(kids[dir], k)
    {
      hide HeapBlocks.Valid, Rep, Balanced, FilesOk, Counted, Threaded, Aged, Listed, NodesOk;
      hide CString.StringAt, CString.Before;
      KidsInNodes(nodes, kids, dir);
      ChildListed(nodes, kids, dir);
      ghost var q := kids[dir];
      child := nodes[dir].children;
      prev, k := NULL, 0;
      ListedNext(nodes, nodes[dir].children, q, 0);
      assert q[0..] == q;
      while child != NULL
        invariant 0 <= k <= |q| && child == (if k < |q| then q[k] else NULL)
        invariant k < |q| ==> q[k] != NULL && q[k] in nodes
        invariant prev == (if k > 0 then q[k - 1] else NULL)
        invariant FirstNamed(nodes, q, name) == FirstNamed(nodes, q[k..], name)
        decreases |q| - k
      {
        NodeOkOf(nodes, files, claims, child);
        var text, wanted := nodes[child].name + [0], name + [0];
        Terminated(nodes[child].name);
        Terminated(name);
        var order := CString.StrCmp(text, 0, wanted, 0, nodes[child].name, name);
        if order == 0 {
          return;
        }
        ListedNext(nodes, nodes[dir].children, q, k + 1);
        assert q[k..][1..] == q[k + 1..];
        prev := child;
        child := nodes[child].nextSibling;
        k := k + 1;
      }
    }

    /** `ramfs_readdir`: the child at a position. */
    method ReadDir(dir: u32, index: u32) returns (child: u32)
      requires Valid() && dir in nodes
      ensures dir in kids
      ensures child == if IsDirectory(nodes[dir]) && index < |kids[dir]| then kids[dir][index] else NULL
      ensures child != NULL ==>
        && child in nodes && child in born
        && (forall x | x in kids[dir][..index] :: x in born && born[child] < born[x])
        && (forall x | x in kids[dir][index + 1..] :: x in born && born[x] < born[child])
    {
      hide HeapBlocks.Valid, Rep, Balanced, FilesOk, Counted, NodesOk, Threaded, Listed, IsDirectory;
      KidsInNodes(nodes, kids, dir);
      ChildListed(nodes, kids, dir);
      if !IsDirectory(nodes[dir]) {
        return NULL;
      }
      ghost var q := kids[dir];
      child := nodes[dir].children;
      var i := 0;
      ListedNext(nodes, nodes[dir].children, q, 0);
      while child != NULL
        invariant 0 <= i <= |q| && child == (if i < |q| then q[i] else NULL)
        invariant i < |q| ==> q[i] != NULL && q[i] in nodes
        invariant i <= index
        decreases |q| - i
      {
        if i == index {
          assert YoungestFirst(q, dir, born);
          return;
        }
        ListedNext(nodes, nodes[dir].children, q, i + 1);
        child := nodes[child].nextSibling;
        i := i + 1;
      }
    }

    /** `ramfs_create_node`: the structure, and for a file its record if the heap has room. */
    method CreateNode(name: Name, typ: u32) returns (node: u32)
      requires Valid() && 0 !in name
      modifies heap`blocks, heap.mem, this`claims, this`files, this`nodes, this`nextInode, this`grown
      ensures FilesIn() && Others() == old(Others())
      ensures Extends(old(Contents()), Contents())
      ensures node == NULL <==> Malloc(old(heap.blocks), NODE_BYTES).ptr.None?
      ensures node == NULL ==>
        && nodes == old(nodes) && files == old(files) && claims == old(claims) && heap.blocks == old(heap.blocks)
        && nextInode == old(nextInode)
      ensures node != NULL ==>
        && node !in old(claims) && node !in old(nodes) && node in nodes && nextInode == Wrap(old(nextInode) + 1)
        && nodes == old(nodes)[node := FreshNode(name, typ, old(nextInode), nodes[node].privateData)]
        && Adopted(old(files), old(claims), files, claims, node, nodes[node].privateData)
        && (nodes[node].privateData != NULL ==> IsFile(nodes[node]))
        && (!IsFile(nodes[node]) ==> heap.blocks == Malloc(old(heap.blocks), NODE_BYTES).heap)
      ensures node != NULL ==> NewNode(nodes[node], name, typ, old(nextInode))
      ensures node != NULL ==> FileGiven(nodes[node].privateData, typ, old(heap.blocks), heap.blocks)
    {
      hide HeapBlocks.Valid, Rep, KeepsPayloads, Malloc, Balanced, Rest, Threaded, Aged;
      hide NodesOk, FilesOk, Counted, ContentOf, FileOk, NodeOk, And;
      ghost var files0, claims0, nodes0, m0, bs0 := files, claims, nodes, heap.mem[..], heap.blocks;
      NullUnclaimed(claims, Live(heap.blocks), heap.base);
      node := Take(NODE_BYTES, NodeBlock);
      AllContentsKept(files0, claims0, Live(bs0), heap.base, m0, heap.mem[..], bs0);
      if node == NULL {
        return;
      }
      NewNodeOk(nodes0, files0, claims0, claims, node, name, typ, nextInode);
      nodes := nodes[node := FreshNode(name, typ, nextInode, NULL)];
      nextInode := Wrap(nextInode + 1);
      if IsFile(nodes[node]) {
        AttachFile(node);
      }
    }

    /** The file record of a new node. */
    method AttachFile(node: u32)
      requires FilesIn() && node in nodes && nodes[node].privateData == NULL && nodes[node].size == 0
      modifies heap`blocks, heap.mem, this`claims, this`files, this`nodes, this`grown
      ensures FilesIn() && Others() == old(Others())
      ensures node in nodes && nodes == old(nodes)[node := old(nodes)[node].(privateData := nodes[node].privateData)]
      ensures Extends(old(Contents()), Contents())
      ensures nodes[node].privateData != NULL <==> Malloc(old(heap.blocks), FILE_BYTES).ptr.Some?
      ensures heap.blocks == Malloc(old(heap.blocks), FILE_BYTES).heap
      ensures nodes[node].privateData == NULL ==> files == old(files) && claims == old(claims)
      ensures nodes[node].privateData != NULL ==>
        var f := nodes[node].privateData;
        && f !in old(claims) && f in claims && claims == old(claims)[f := claims[f]]
        && claims[f].kind == FileBlock(node) && files == old(files)[f := File(NULL, 0, 0)]
    {
      hide HeapBlocks.Valid, Rep, KeepsPayloads, Malloc, Balanced, Rest, NodesOk, FilesOk, Counted, ContentOf;
      hide FileOk, NodeOk;
      ghost var files0, claims0, nodes0, m0, bs0 := files, claims, nodes, heap.mem[..], heap.blocks;
      var f := Take(FILE_BYTES, FileBlock(node));
      AllContentsKept(files0, claims0, Live(bs0), heap.base, m0, heap.mem[..], bs0);
      if f != NULL {
        NewFileOk(nodes0, files0, claims0, claims, node, f);
        CountedNew(files, grown, f);
        grown := grown[f := 0];
        files := files[f := File(NULL, 0, 0)];
        nodes := nodes[node := nodes[node].(privateData := f)];
        EmptyContent(heap.mem[..], heap.base);
      }
    }

    /** `ramfs_init`: a directory of its own named "/". */
    method Init() returns (root: u32)
      requires Valid()
      modifies this, heap`blocks, heap.mem
      ensures Valid() && Others() == old(Others())
      ensures root != NULL <==> Malloc(old(heap.blocks), NODE_BYTES).ptr.Some?
      ensures heap.blocks == Malloc(old(heap.blocks), NODE_BYTES).heap
      ensures root == NULL ==> nodes == old(nodes) && kids == old(kids) && heap.blocks == old(heap.blocks)
      ensures root != NULL ==>
        && root !in old(nodes) && kids == old(kids)[root := []] && born == old(born)[root := old(created)]
        && nodes == old(nodes)[root := FreshNode([0x2F], VFS_DIRECTORY, old(nextInode), NULL).(ops := DirectoryOps)]
        && Rooted(nodes, root) && Below(nodes, kids, born, root, root)
      ensures KeepsRoots(old(nodes), nodes)
      ensures Contents() == old(Contents())
      ensures old(UniqueNames(nodes, kids)) ==> UniqueNames(nodes, kids)
    {
      hide HeapBlocks.Valid, Rep, Balanced, Rest, Malloc, NodesOk, FilesOk, Counted, ContentOf, And, Threaded, Aged;
      hide UniqueNames, Below;
      ghost var nodes0 := nodes;
      MallocLaw(heap.blocks, NODE_BYTES);
      root := CreateNode([0x2F], VFS_DIRECTORY);
      if root == NULL {
        return;
      }
      DirectoryIsNoFile();
      assert !IsFile(nodes[root]);
      ghost var n := nodes[root].(ops := DirectoryOps);
      ModeNodesOk(nodes, files, claims, root, n);
      nodes := nodes[root := nodes[root].(ops := DirectoryOps)];
      assert nodes == nodes0[root := n];
      assert IsDirectory(n);
      EnterRoot(nodes0, root, n);
    }

    /** Record the creation of a directory of its own. */
    ghost method EnterRoot(was: Nodes, root: u32, n: Node)
      requires Threaded(was, kids) && Aged(was, kids, born, created) && nextInode == Wrap(Wrap(created) + 1)
      requires root !in was && n.inode == Wrap(created) && n.children == NULL
      modifies this`kids, this`born, this`created
      ensures var r := was[root := n];
        && Threaded(r, kids) && Aged(r, kids, born, created) && nextInode == Wrap(created)
        && Below(r, kids, born, root, root) && (UniqueNames(was, old(kids)) ==> UniqueNames(r, kids))
      ensures kids == old(kids)[root := []] && born == old(born)[root := old(created)] && created == old(created) + 1
    {
      hide Threaded, Aged, UniqueNames, Wrap;
      KidsKeys(was, kids);
      ThreadedRoot(was, kids, root, n);
      AgedRoot(was, kids, born, created, root, n);
      NextInode(created);
      if UniqueNames(was, kids) {
        UniqueRoot(was, kids, root, n);
      }
      kids, born, created := kids[root := []], born[root := created], created + 1;
    }

    /** `ramfs_do_create`. */
    method DoCreate(parent: u32, name: Name, typ: u32) returns (r: int, ghost node: u32)
      requires Valid() && parent in nodes && 0 !in name
      modifies this, heap`blocks, heap.mem
      ensures Valid() && Others() == old(Others()) && (r == 0 || r == -1)
      ensures KidsKnown(old(nodes), old(kids), parent)
      ensures r == 0 <==>
        && IsDirectory(old(nodes)[parent]) && FirstNamed(old(nodes), old(kids)[parent], name) == NULL
        && Malloc(old(heap.blocks), NODE_BYTES).ptr.Some?
      ensures r == -1 ==>
        && nodes == old(nodes) && files == old(files) && claims == old(claims) && kids == old(kids)
        && heap.blocks == old(heap.blocks) && born == old(born) && created == old(created)
      ensures r == 0 ==> born == old(born)[node := old(created)] && created == old(created) + 1
      ensures r == 0 && old(UniqueNames(nodes, kids)) ==>
        && (UniqueNames(nodes, kids) <==> Stored(name) !in Names(old(nodes), old(kids)[parent]))
        && (|name| < VFS_NAME_MAX ==> UniqueNames(nodes, kids))
      ensures r == 0 ==>
        && Made(old(nodes), old(kids), nodes, kids, parent, node,
                FreshNode(name, typ, old(nextInode), FileOf(nodes, node)))
        && node !in old(claims) && Adopted(old(files), old(claims), files, claims, node, FileOf(nodes, node))
      ensures r == 0 ==>
        && node in nodes && FileGiven(nodes[node].privateData, typ, old(heap.blocks), heap.blocks)
        && NewChild(old(nodes), nodes, parent, node)
        && NewNode(nodes[node].(parent := NULL, nextSibling := NULL), name, typ, old(nextInode))
        && parent in kids && kids[parent] == [node] + old(kids)[parent]
      ensures Extends(old(Contents()), Contents())
    {
      hide HeapBlocks.Valid, Rep, Balanced, Rest, Malloc, NodesOk, FilesOk, Counted, ContentOf, And, Linked;
      hide Threaded, Aged, UniqueNames, FileGiven, NewChild, FirstNamed, IsDirectory;
      node := NULL;
      ghost var nodes0, kids0 := nodes, kids;
      KidsInNodes(nodes, kids, parent);
      if !IsDirectory(nodes[parent]) {
        return -1, NULL;
      }
      var found := FindDir(parent, name);
      if found != NULL {
        return -1, NULL;
      }
      var child := CreateNode(name, typ);
      if child == NULL {
        return -1, NULL;
      }
      node := child;
      LinkedNodesOk(nodes, files, claims, parent, child);
      LinkedAt(nodes, parent, child, child);
      Enter(nodes0, parent, child, nodes[child], name);
      ChildOf(nodes0, parent, child, nodes[child]);
      nodes := Linked(nodes, parent, child);
      return 0, child;
    }

    /** `ramfs_do_mkdir`. */
    method DoMkdir(parent: u32, name: Name, mode: u32) returns (r: int, ghost node: u32)
      requires Valid() && parent in nodes && 0 !in name
      modifies this, heap`blocks, heap.mem
      ensures Valid() && Others() == old(Others()) && (r == 0 || r == -1)
      ensures KidsKnown(old(nodes), old(kids), parent)
      ensures r == 0 <==>
        && IsDirectory(old(nodes)[parent]) && FirstNamed(old(nodes), old(kids)[parent], name) == NULL
        && Malloc(old(heap.blocks), NODE_BYTES).ptr.Some?
      ensures r == -1 ==>
        && nodes == old(nodes) && files == old(files) && claims == old(claims) && kids == old(kids)
        && heap.blocks == old(heap.blocks) && born == old(born) && created == old(created)
      ensures r == 0 ==> born == old(born)[node := old(created)] && created == old(created) + 1
      ensures r == 0 && old(UniqueNames(nodes, kids)) ==>
        && (UniqueNames(nodes, kids) <==> Stored(name) !in Names(old(nodes), old(kids)[parent]))
        && (|name| < VFS_NAME_MAX ==> UniqueNames(nodes, kids))
      ensures r == 0 ==>
        Made(old(nodes), old(kids), nodes, kids, parent, node,
             FreshNode(name, VFS_DIRECTORY, old(nextInode), NULL).(permissions := mode, ops := DirectoryOps))
      ensures r == 0 ==> node !in old(claims) && Adopted(old(files), old(claims), files, claims, node, NULL)
      ensures r == 0 ==>
        && node in nodes && NewChild(old(nodes), nodes, parent, node)
        && nodes[node].typ == 2 && nodes[node].permissions == mode && nodes[node].ops == DirectoryOps
        && nodes[node].privateData == NULL && nodes[node].name == name[..Min(|name|, 127)]
        && nodes[node].inode == old(nextInode) && nodes[node].children == NULL
        && parent in kids && kids[parent] == [node] + old(kids)[parent]
      ensures Contents() == old(Contents())
    {
      hide HeapBlocks.Valid, Rep, Balanced, Rest, Malloc, NodesOk, FilesOk, Counted, ContentOf, And, Linked;
      hide Threaded, Aged, UniqueNames, FileGiven, NewChild, FirstNamed, IsDirectory;
      node := NULL;
      ghost var nodes0, kids0 := nodes, kids;
      KidsInNodes(nodes, kids, parent);
      if !IsDirectory(nodes[parent]) {
        return -1, NULL;
      }
      var found := FindDir(parent, name);
      if found != NULL {
        return -1, NULL;
      }
      var dir := CreateNode(name, VFS_DIRECTORY);
      if dir == NULL {
        return -1, NULL;
      }
      node := dir;
      DirectoryIsNoFile();
      ghost var n := nodes[dir].(permissions := mode, ops := DirectoryOps);
      ModeNodesOk(nodes, files, claims, dir, n);
      nodes := nodes[dir := nodes[dir].(permissions := mode, ops := DirectoryOps)];
      assert nodes == nodes0[dir := n];
      LinkedNodesOk(nodes, files, claims, parent, dir);
      Enter(nodes0, parent, dir, n, name);
      ChildOf(nodes0, parent, dir, n);
      nodes := Linked(nodes, parent, dir);
      return 0, dir;
    }

    /** Record the creation of `node` in directory `parent`. */
    ghost method Enter(was: Nodes, parent: u32, node: u32, n: Node, name: Name)
      requires Threaded(was, kids) && Aged(was, kids, born, created) && nextInode == Wrap(Wrap(created) + 1)
      requires KidsKnown(was, kids, parent) && node !in was && node != NULL && IsDirectory(was[parent])
      requires n.inode == Wrap(created) && n.children == NULL && n.name == Stored(name)
      requires FirstNamed(was, kids[parent], name) == NULL
      modifies this`kids, this`born, this`created
      ensures var r := Linked(was[node := n], parent, node);
        && Threaded(r, kids) && Aged(r, kids, born, created) && nextInode == Wrap(created)
        && (UniqueNames(was, old(kids)) ==>
              && (UniqueNames(r, kids) <==> Stored(name) !in Names(was, old(kids)[parent]))
              && (|name| < VFS_NAME_MAX ==> UniqueNames(r, kids)))
      ensures kids == AddKid(old(kids), parent, node)
      ensures born == old(born)[node := old(created)] && created == old(created) + 1
    {
      hide Threaded, Aged, UniqueNames, Linked, IsDirectory, Wrap;
      InsertThreaded(was, kids, parent, node, n);
      AgedInsert(was, kids, born, created, parent, node, n);
      NextInode(created);
      if UniqueNames(was, kids) {
        UniqueInsertIff(was, kids, parent, node, n);
        KidsInNodes(was, kids, parent);
        FirstNamedIff(was, kids[parent], name);
        assert |name| < VFS_NAME_MAX ==> Stored(name) == name;
      }
      kids, born, created := AddKid(kids, parent, node), born[node := created], created + 1;
    }

    /** `ramfs_do_unlink`: `k` is the position of the child removed. */
    method DoUnlink(parent: u32, name: Name) returns (r: int, ghost k: nat)
      requires Valid() && parent in nodes && 0 !in name
      modifies heap`blocks, heap.mem, this`claims, this`files, this`nodes, this`kids, this`grown, this`born
      ensures Valid() && Others() == old(Others()) && (r == 0 || r == -1)
      ensures old(UniqueNames(nodes, kids)) ==> UniqueNames(nodes, kids)
      ensures KidsKnown(old(nodes), old(kids), parent)
      ensures r == 0 <==> IsDirectory(old(nodes)[parent]) && FirstNamed(old(nodes), old(kids)[parent], name) != NULL
      ensures r == -1 ==>
        && nodes == old(nodes) && files == old(files) && claims == old(claims) && kids == old(kids)
        && heap.blocks == old(heap.blocks) && Contents() == old(Contents())
      ensures r == 0 ==>
        && k < |old(kids)[parent]| && old(kids)[parent][k] == FirstNamed(old(nodes), old(kids)[parent], name)
        && Unmade(old(nodes), old(files), old(claims), old(kids), nodes, files, claims, kids, parent, k)
        && Contents() == old(Contents()) - {FileOf(old(nodes), old(kids)[parent][k])}
      ensures r == 0 ==> LostChild(old(nodes), old(kids), nodes, kids, parent, k, name)
    {
      hide HeapBlocks.Valid, Rep, Balanced, Rest, NodesOk, FilesOk, Counted, ContentOf, And, Unmade, Threaded, Aged;
      hide UniqueNames;
      k := 0;
      KidsInNodes(nodes, kids, parent);
      if !IsDirectory(nodes[parent]) {
        return -1, 0;
      }
      var child, j, prev := Search(parent, name);
      if child == NULL {
        return -1, 0;
      }
      Detach(parent, prev, child, j);
      UnmadeLost(old(nodes), old(files), old(claims), old(kids), nodes, files, claims, kids, parent, j, name);
      return 0, j;
    }

    /** The body of the match in `ramfs_do_unlink`: unlink the child and free what it holds. */
    method Detach(parent: u32, prev: u32, child: u32, ghost k: nat)
      requires Valid() && parent in nodes && parent in kids && k < |kids[parent]|
      requires kids[parent][k] == child && prev == PrevOf(kids[parent], k)
      modifies heap`blocks, heap.mem, this`claims, this`files, this`nodes, this`kids, this`grown, this`born
      ensures Valid() && Others() == old(Others())
      ensures old(UniqueNames(nodes, kids)) ==> UniqueNames(nodes, kids)
      ensures Unmade(old(nodes), old(files), old(claims), old(kids), nodes, files, claims, kids, parent, k)
      ensures Contents() == old(Contents()) - {FileOf(old(nodes), child)}
    {
      hide HeapBlocks.Valid, Rep, Balanced, Rest, NodesOk, FilesOk, Counted, ContentOf, Bypassed, Threaded, Aged;
      hide KeepsPayloads, FileOk, UniqueNames;
      ghost var m0 := heap.mem[..];
      KidsInNodes(nodes, kids, parent);
      NullUnclaimed(claims, Live(heap.blocks), heap.base);
      NullNoFile(files, claims);
      RemoveOk(nodes, files, claims, parent, prev, child);
      NodeOkOf(nodes, files, claims, child);
      BypassedAt(nodes, parent, prev, child, child);
      if nodes[child].privateData != NULL {
        FileOkOf(files, claims, nodes[child].privateData);
      }
      Leave(parent, k);
      nodes := Bypassed(nodes, parent, prev, child);
      FreeNode(nodes[child].privateData, child);
      nodes := nodes - {child};
      AllContentsKept(files, claims, Live(heap.blocks), heap.base, m0, heap.mem[..], heap.blocks);
    }

    /** Record that the child at position `k` of `parent` goes. */
    ghost method Leave(parent: u32, k: nat)
      requires Tree() && parent in nodes && parent in kids && k < |kids[parent]|
      modifies this`kids, this`born
      ensures var q := old(kids)[parent];
        && q[k] in nodes && (PrevOf(q, k) != NULL ==> PrevOf(q, k) in nodes)
        && kids == DropKid(old(kids), parent, k) && born == old(born) - {q[k]}
        && var r := Bypassed(nodes, parent, PrevOf(q, k), q[k]) - {q[k]};
           && Threaded(r, kids) && Aged(r, kids, born, created)
           && (UniqueNames(nodes, old(kids)) ==> UniqueNames(r, kids))
    {
      hide Threaded, Aged, UniqueNames, Bypassed;
      RemoveThreaded(nodes, kids, parent, k);
      AgedRemove(nodes, kids, born, created, parent, k);
      if UniqueNames(nodes, kids) {
        UniqueRemove(nodes, kids, parent, k);
      }
      kids, born := DropKid(kids, parent, k), born - {kids[parent][k]};
    }

    /** Release a node's buffer, file record and structure, in that order. */
    method FreeNode(f: u32, node: u32)
      requires HeapOk() && node in claims && claims[node].kind == NodeBlock && NULL !in files && Counted(files, grown)
      requires f != NULL ==>
        f in files && f in claims && claims[f].kind == FileBlock(node) && FileOk(files[f], f, claims)
      modifies heap`blocks, heap.mem, this`claims, this`files, this`grown
      ensures Others() == old(Others()) && Counted(files, grown)
      ensures HeapOk() && files == old(files) - {f} && claims == old(claims) - HeldBy(old(files), f, node)
      ensures KeepsPayloads(Live(heap.blocks), old(heap.mem[..]), heap.mem[..])
    {
      hide HeapBlocks.Valid, Rep, Balanced, Rest, Counted, KeepsPayloads;
      ghost var m0, files0, claims0 := heap.mem[..], files, claims;
      NullUnclaimed(claims, Live(heap.blocks), heap.base);
      KeepsReflexive(Live(heap.blocks), m0);
      if f != NULL {
        var file := files[f];
        if file.data != NULL {
          Drop(file.data);
        }
        ghost var m1 := heap.mem[..];
        ghost var live1 := Live(heap.blocks);
        Drop(f);
        KeepsSubset(live1, Live(heap.blocks), m0, m1);
        KeepsChain(Live(heap.blocks), m0, m1, heap.mem[..]);
      }
      CountedDrop(files, grown, f);
      files, grown := files - {f}, grown - {f};
      ghost var m2, live2 := heap.mem[..], Live(heap.blocks);
      Drop(node);
      KeepsSubset(live2, Live(heap.blocks), m0, m2);
      KeepsChain(Live(heap.blocks), m0, m2, heap.mem[..]);
    }

    /** Any sequence of writes to one node. `grants` says where each ended and whether the heap could
        have supplied a larger buffer. */
    method WriteAll(node: u32, writes: seq<(u32, seq<u8>)>) returns (ghost grants: seq<(u32, bool)>)
      requires Valid() && node in nodes
      requires forall w | w in writes :: w.0 + |w.1| < U32_LIMIT
      modifies heap`blocks, heap.mem, this`claims, this`files, this`nodes, this`grown
      ensures Valid() && Others() == old(Others())
      ensures OnlyFile(old(nodes), old(files), old(claims), nodes, files, claims, node)
      ensures |grants| == |writes| && forall i | 0 <= i < |writes| :: grants[i].0 == writes[i].0 + |writes[i].1|
      ensures var f := old(nodes)[node].privateData;
        f != NULL ==>
          && f in files && f in grown && f in old(files) && f in old(grown)
          && GrowthOf(f) == GrowRun(old(Growth(files[f].capacity, grown[f])), grants)
    {
      hide HeapBlocks.Valid, Rep, Balanced, Rest, NodesOk, FilesOk, ContentOf, Threaded, Aged, Writable, Written;
      hide FileOk, GrowStep, Doubled, UniqueNames, OnlyFile, Wrote, KeepsPayloads, Malloc;
      OnlyFileReflexive(nodes, files, claims, node);
      NodeOkOf(nodes, files, claims, node);
      NullUnclaimed(claims, Live(heap.blocks), heap.base);
      NullNoFile(files, claims);
      ghost var f := nodes[node].privateData;
      grants := [];
      for k := 0 to |writes|
        invariant Valid() && Others() == old(Others()) && NULL !in claims && NULL !in files
        invariant OnlyFile(old(nodes), old(files), old(claims), nodes, files, claims, node)
        invariant node in nodes && nodes[node].privateData == f
        invariant |grants| == k && forall i | 0 <= i < k :: grants[i].0 == writes[i].0 + |writes[i].1|
        invariant f != NULL ==>
          && f in files && f in grown && f in old(files) && f in old(grown)
          && GrowthOf(f) == GrowRun(old(Growth(files[f].capacity, grown[f])), grants)
      {
        assert writes[k] in writes;
        ghost var size := Wrap(writes[k].0 + |writes[k].1|);
        ghost var step := (size, Malloc(heap.blocks, NewCapacity(size)).ptr.Some?);
        if f != NULL {
          GrowRunAppend(old(Growth(files[f].capacity, grown[f])), grants, step);
        }
        ghost var nodes1, files1, claims1 := nodes, files, claims;
        var r := Write(node, writes[k].0, Some(writes[k].1));
        OnlyFileChain(old(nodes), old(files), old(claims), nodes1, files1, claims1, nodes, files, claims, node);
        grants := grants + [step];
        NullUnclaimed(claims, Live(heap.blocks), heap.base);
        NullNoFile(files, claims);
      }
    }

    /** One call of the file system's interface; a node that is gone is not called on. */
    method Perform(call: Call) returns (r: int)
      requires Valid() && call.Proper()
      modifies this, heap`blocks, heap.mem
      ensures Valid() && Others() == old(Others()) && KeepsRoots(old(nodes), nodes)
      ensures old(UniqueNames(nodes, kids)) && call.Short() ==> UniqueNames(nodes, kids)
    {
      hide HeapBlocks.Valid, Rep, Balanced, Rest, NodesOk, FilesOk, Counted, ContentOf, Threaded, Aged, UniqueNames;
      hide Rooted, Linked, Bypassed, Malloc;
      r := -1;
      NullNoNode();
      ghost var nodes0, kids0, inode := nodes, kids, nextInode;
      if call.node in nodes {
        ghost var x;
        match call
        case Create(parent, name, typ) =>
          r, x := DoCreate(parent, name, typ);
          if r == 0 {
            RootsKeptInsert(nodes0, parent, x, FreshNode(name, typ, inode, FileOf(nodes, x)));
          }
        case Mkdir(parent, name, mode) =>
          r, x := DoMkdir(parent, name, mode);
          if r == 0 {
            ghost var n := FreshNode(name, VFS_DIRECTORY, inode, NULL).(permissions := mode, ops := DirectoryOps);
            RootsKeptInsert(nodes0, parent, x, n);
          }
        case Unlink(parent, name) =>
          ghost var k;
          r, k := DoUnlink(parent, name);
          if r == 0 {
            RootsKeptRemove(nodes0, kids0, parent, k);
          }
        case Store(node, offset, data) =>
          r := Write(node, offset, Some(data));
          RootsKeptUpdate(nodes0, node, nodes0[node].(size := nodes[node].size));
      }
    }

    lemma NullNoNode()
      requires FilesIn()
      ensures NULL !in nodes
    {
      NullUnclaimed(claims, Live(heap.blocks), heap.base);
      assert NULL in nodes ==> NodeOk(nodes[NULL], NULL, files, claims);
    }

    /** Every run of calls keeps the file system well-formed, leaves the rest of the heap alone and never
        removes a root. With names of at most 127 bytes, no directory ever lists a name twice. */
    method Run(calls: seq<Call>)
      requires Valid() && forall c | c in calls :: c.Proper()
      modifies this, heap`blocks, heap.mem
      ensures Valid() && Others() == old(Others()) && KeepsRoots(old(nodes), nodes)
      ensures old(UniqueNames(nodes, kids)) && (forall c | c in calls :: c.Short()) ==> UniqueNames(nodes, kids)
    {
      hide FilesIn, Tree, Rooted, UniqueNames;
      for k := 0 to |calls|
        invariant Valid() && Others() == old(Others()) && KeepsRoots(old(nodes), nodes)
        invariant old(UniqueNames(nodes, kids)) && (forall c | c in calls :: c.Short()) ==> UniqueNames(nodes, kids)
      {
        assert calls[k] in calls;
        var r := Perform(calls[k]);
      }
    }

    /** Creating a file, writing at its start and reading back returns the bytes written, if and only if the heap
        has room for the node, the file record and a buffer, and the file limit is kept. */
    method CreateWriteRead(parent: u32, name: Name, data: seq<u8>)
      returns (made: int, wrote: int, r: int, out: seq<u8>)
      requires Valid() && parent in nodes && 0 !in name && |data| < U32_LIMIT
      modifies this, heap`blocks, heap.mem
      ensures Valid() && Others() == old(Others())
      ensures KidsKnown(old(nodes), old(kids), parent)
      ensures made == 0 <==>
        && IsDirectory(old(nodes)[parent]) && name !in Names(old(nodes), old(kids)[parent])
        && Malloc(old(heap.blocks), 180).ptr.Some?
      ensures made == 0 ==>
        var afterNode := Malloc(old(heap.blocks), 180).heap;
        var afterFile := Malloc(afterNode, 12);
        wrote != -1 <==> afterFile.ptr.Some? && RoomToWrite(0, |data|, afterFile.heap)
      ensures made == 0 && wrote != -1 ==> wrote == |data| && r == |data| && out == data
    {
      hide HeapBlocks.Valid, Rep, Balanced, Rest, NodesOk, FilesOk, Counted, ContentOf, Threaded, Aged, Malloc, And;
      hide Linked, Live, UniqueNames, RoomToWrite, OnlyFile, Regrown, CanHold, FirstNamed;
      wrote, r, out := -1, -1, [];
      KidsInNodes(nodes, kids, parent);
      ChildListed(nodes, kids, parent);
      FirstNamedIff(nodes, kids[parent], name);
      NullUnclaimed(claims, Live(heap.blocks), heap.base);
      NullNoFile(files, claims);
      FileIsFile();
      ghost var node;
      made, node := DoCreate(parent, name, VFS_FILE);
      if made == -1 {
        return;
      }
      var child := nodes[parent].children;
      NullUnclaimed(claims, Live(heap.blocks), heap.base);
      NullNoFile(files, claims);
      wrote := Write(child, 0, Some(data));
      if wrote == -1 {
        return;
      }
      r, out := Read(child, 0, |data|, true);
      ReadAfterWrite([], Content(nodes[child].privateData), 0, data);
    }

    /** Creating a file, writing to it in any way and unlinking it restores the directory, the nodes,
        the files and the heap's block list exactly; a name too long to be stored is never found again. */
    method CreateWriteUnlink(parent: u32, name: Name, writes: seq<(u32, seq<u8>)>) returns (made: int, removed: int)
      requires Valid() && parent in nodes && 0 !in name
      requires forall w | w in writes :: w.0 + |w.1| < U32_LIMIT
      modifies this, heap`blocks, heap.mem
      ensures Valid() && Others() == old(Others())
      ensures (made == 0 || made == -1) && (removed == 0 || removed == -1)
      ensures KidsKnown(old(nodes), old(kids), parent)
      ensures made == 0 <==>
        && IsDirectory(old(nodes)[parent]) && FirstNamed(old(nodes), old(kids)[parent], name) == NULL
        && Malloc(old(heap.blocks), NODE_BYTES).ptr.Some?
      ensures made == 0 ==> (removed == 0 <==> |name| < VFS_NAME_MAX)
      ensures made == -1 || removed == 0 ==>
        nodes == old(nodes) && files == old(files) && kids == old(kids) && heap.blocks == old(heap.blocks)
    {
      hide HeapBlocks.Valid, Rep, Balanced, Rest, NodesOk, FilesOk, Counted, ContentOf, Threaded, Aged, Malloc, And;
      hide Linked, Bypassed, Live, UniqueNames;
      removed := -1;
      ghost var nodes0, files0, claims0, kids0, bs0 := nodes, files, claims, kids, heap.blocks;
      NullUnclaimed(claims, Live(heap.blocks), heap.base);
      NullNoFile(files, claims);
      ghost var node;
      made, node := DoCreate(parent, name, VFS_FILE);
      if made == -1 {
        return;
      }
      ghost var nodes1, files1, claims1, inode := nodes, files, claims, old(nextInode);
      NullUnclaimed(claims, Live(heap.blocks), heap.base);
      ghost var built := nodes0[node := FreshNode(name, VFS_FILE, inode, FileOf(nodes, node))];
      LinkedKeys(built, parent, node);
      LinkedAt(built, parent, node, parent);
      var child := nodes[parent].children;
      ghost var grants := WriteAll(child, writes);
      ghost var nodes2, files2, claims2 := nodes, files, claims;
      NullUnclaimed(claims, Live(heap.blocks), heap.base);
      NewChildFound(nodes0, kids0, nodes2, parent, node, name, inode, FileOf(nodes1, node), nodes2[node].size);
      NamesShort(nodes2, files2, claims2, kids[parent]);
      KidsInNodes(nodes, kids, parent);
      ghost var k;
      removed, k := DoUnlink(parent, name);
      if removed == 0 {
        KidsKeys(nodes0, kids0);
        ghost var n := FreshNode(name, VFS_FILE, inode, FileOf(nodes1, node));
        RestoreTree(nodes0, kids0, parent, node, n, nodes2[node].size);
        RestoreClaims(files0, claims0, files1, claims1, files2, claims2, node, FileOf(nodes1, node));
        SameClaimsSameHeap(claims0, heap.blocks, bs0, heap.base);
      }
    }
  }
}
