/** How the block list is laid out in the bytes of `heap_area`: every block
    starts with a 16-byte header of four little-endian words. */
module HeapMemory {
  import opened Machine
  import opened HeapBlocks

  /** The little-endian word at offset `a`. */
  function LoadWord(m: Bytes, a: nat): u32
    requires a + 4 <= |m|
  {
    var b0: int, b1: int, b2: int, b3: int := m[a], m[a + 1], m[a + 2], m[a + 3];
    b0 + 0x100 * b1 + 0x1_0000 * b2 + 0x100_0000 * b3
  }

  /** `m'` differs from `m` at most in the bytes from `lo` up to `hi`. */
  ghost predicate SameExcept(m: Bytes, m': Bytes, lo: nat, hi: nat) {
    |m| == |m'| && forall k | 0 <= k < |m| && !(lo <= k < hi) :: m'[k] == m[k]
  }

  /** `m` with the little-endian word `v` stored at offset `a`. */
  function Put(m: Bytes, a: nat, v: u32): (r: Bytes)
    requires a + 4 <= |m|
    ensures |r| == |m|
  {
    m[a := v % 0x100][a + 1 := v / 0x100 % 0x100][a + 2 := v / 0x1_0000 % 0x100][a + 3 := v / 0x100_0000]
  }

  /** A stored word reads back, and no other byte changes. */
  lemma PutLaw(m: Bytes, a: nat, v: u32)
    requires a + 4 <= |m|
    ensures LoadWord(Put(m, a, v), a) == v
    ensures SameExcept(m, Put(m, a, v), a, a + 4)
  {
    var r := Put(m, a, v);
    assert r[a] == v % 0x100 && r[a + 1] == v / 0x100 % 0x100;
    assert r[a + 2] == v / 0x1_0000 % 0x100 && r[a + 3] == v / 0x100_0000;
    LittleEndian(v);
  }

  lemma LittleEndian(v: u32)
    ensures v == v % 0x100 + 0x100 * (v / 0x100 % 0x100) + 0x1_0000 * (v / 0x1_0000 % 0x100)
                 + 0x100_0000 * (v / 0x100_0000)
  {
    assert v / 0x100 / 0x100 == v / 0x1_0000;
    assert v / 0x1_0000 / 0x100 == v / 0x100_0000;
  }

  lemma LoadKept(m: Bytes, m': Bytes, lo: nat, hi: nat, a: nat)
    requires SameExcept(m, m', lo, hi) && a + 4 <= |m| && (a + 4 <= lo || hi <= a)
    ensures LoadWord(m', a) == LoadWord(m, a)
  {
  }

  lemma WordKept(m: Bytes, m': Bytes, a: nat)
    requires |m| == |m'| && a + 4 <= |m| && forall k | a <= k < a + 4 :: m'[k] == m[k]
    ensures LoadWord(m', a) == LoadWord(m, a)
  {
  }

  lemma LoadsKept(m: Bytes, m': Bytes, lo: nat, hi: nat)
    requires SameExcept(m, m', lo, hi)
    ensures forall a: nat | a + 4 <= |m| && (a + 4 <= lo || hi <= a) :: LoadWord(m', a) == LoadWord(m, a)
  {
    forall a: nat | a + 4 <= |m| && (a + 4 <= lo || hi <= a) ensures LoadWord(m', a) == LoadWord(m, a) {
      LoadKept(m, m', lo, hi, a);
    }
  }

  /** `m` with a whole header stored at offset `a`. */
  function PutHeader(m: Bytes, a: nat, size: u32, free: u32, next: u32, prev: u32): (r: Bytes)
    requires a + 16 <= |m|
    ensures |r| == |m|
  {
    Put(Put(Put(Put(m, a, size), a + 4, free), a + 8, next), a + 12, prev)
  }

  lemma PutHeaderLaw(m: Bytes, a: nat, size: u32, free: u32, next: u32, prev: u32)
    requires a + 16 <= |m|
    ensures var r := PutHeader(m, a, size, free, next, prev);
      && LoadWord(r, a) == size && LoadWord(r, a + 4) == free
      && LoadWord(r, a + 8) == next && LoadWord(r, a + 12) == prev
      && SameExcept(m, r, a, a + 16)
  {
    var m1 := Put(m, a, size);
    var m2 := Put(m1, a + 4, free);
    var m3 := Put(m2, a + 8, next);
    var m4 := Put(m3, a + 12, prev);
    PutLaw(m, a, size);
    PutLaw(m1, a + 4, free);
    PutLaw(m2, a + 8, next);
    PutLaw(m3, a + 12, prev);
    LoadKept(m1, m2, a + 4, a + 8, a);
    LoadKept(m2, m3, a + 8, a + 12, a);
    LoadKept(m3, m4, a + 12, a + 16, a);
    LoadKept(m2, m3, a + 8, a + 12, a + 4);
    LoadKept(m3, m4, a + 12, a + 16, a + 4);
    LoadKept(m3, m4, a + 12, a + 16, a + 8);
  }

  /** The address a header link holds for block `i`, NULL past either end. */
  function Link(base: u32, bs: Blocks, i: int): int {
    if 0 <= i < |bs| then base + bs[i].off else 0
  }

  /** Block `i` is described by the header stored at its offset. */
  ghost predicate HeaderAt(m: Bytes, base: u32, bs: Blocks, i: nat)
    requires i < |bs|
  {
    && bs[i].End() <= |m|
    && LoadWord(m, bs[i].off) == bs[i].size
    && LoadWord(m, bs[i].off + 4) == (if bs[i].free then 1 else 0)
    && LoadWord(m, bs[i].off + 8) == Link(base, bs, i + 1)
    && LoadWord(m, bs[i].off + 12) == Link(base, bs, i - 1)
  }

  /** The bytes represent the block list: a doubly linked, address-ordered list from offset 0. */
  ghost predicate Rep(m: Bytes, base: u32, bs: Blocks) {
    && |m| == KHEAP_SIZE
    && Tiles(bs, 0, KHEAP_SIZE)
    && forall i | 0 <= i < |bs| :: HeaderAt(m, base, bs, i)
  }

  /** Every byte of the payloads of the given blocks is the same in both memories. */
  ghost predicate KeepsPayloads(live: set<Block>, m: Bytes, m': Bytes) {
    && |m| == |m'| == KHEAP_SIZE
    && forall b, k | b in live && b.Payload() <= k < b.End() && k < KHEAP_SIZE :: m'[k] == m[k]
  }

  lemma HeaderKept(m: Bytes, m': Bytes, base: u32, bs: Blocks, i: nat, bs': Blocks, i': nat)
    requires i < |bs| && i' < |bs'| && bs[i] == bs'[i'] && HeaderAt(m, base, bs, i)
    requires |m| == |m'| && forall k | bs[i].off <= k < bs[i].off + 12 :: m'[k] == m[k]
    requires LoadWord(m', bs[i].off + 12) == Link(base, bs', i' - 1)
    requires Link(base, bs, i + 1) == Link(base, bs', i' + 1)
    ensures HeaderAt(m', base, bs', i')
  {
  }

  /** A stretch of blocks was rewritten: its own bytes changed, and so did at most the
      back link of the block after it. */
  ghost predicate Rewrites(m: Bytes, m': Bytes, base: u32, bs: Blocks, lo: nat, hi: nat, mid: Blocks)
    requires lo < hi <= |bs|
  {
    var bs' := Splice(bs, lo, hi, mid);
    && |m| == |m'| == KHEAP_SIZE
    && |mid| > 0
    && (forall k | 0 <= k < |m| :: bs[lo].off <= k < bs[hi - 1].End() || m'[k] == m[k]
          || (hi < |bs| && bs[hi].off + 12 <= k < bs[hi].off + 16))
    && (hi < |bs| ==> bs[hi].End() <= |m| && LoadWord(m', bs[hi].off + 12) == Link(base, bs', lo + |mid| - 1))
    && forall j | lo <= j < lo + |mid| :: HeaderAt(m', base, bs', j)
  }

  /** Such a rewrite of a represented list represents the spliced list. */
  lemma RewriteRep(m: Bytes, m': Bytes, base: u32, bs: Blocks, lo: nat, hi: nat, mid: Blocks)
    requires Rep(m, base, bs) && lo < hi <= |bs|
    requires Tiles(mid, bs[lo].off, bs[hi - 1].End())
    requires Rewrites(m, m', base, bs, lo, hi, mid)
    ensures Rep(m', base, Splice(bs, lo, hi, mid))
  {
    hide HeaderAt;
    SpliceTiles(bs, lo, hi, mid);
    var bs', d := Splice(bs, lo, hi, mid), lo + |mid| - hi;
    forall j | 0 <= j < |bs'| ensures HeaderAt(m', base, bs', j) {
      if j < lo {
        RewriteBefore(m, m', base, bs, lo, hi, mid, j);
      } else if j >= lo + |mid| {
        RewriteAfter(m, m', base, bs, lo, hi, mid, j - d);
      }
    }
  }

  lemma RewriteBefore(m: Bytes, m': Bytes, base: u32, bs: Blocks, lo: nat, hi: nat, mid: Blocks, j: nat)
    requires Rep(m, base, bs) && j < lo < hi <= |bs|
    requires Tiles(mid, bs[lo].off, bs[hi - 1].End())
    requires Rewrites(m, m', base, bs, lo, hi, mid)
    ensures HeaderAt(m', base, Splice(bs, lo, hi, mid), j)
  {
    var bs' := Splice(bs, lo, hi, mid);
    assert HeaderAt(m, base, bs, j) && bs[j].End() <= bs[lo].off;
    assert bs'[j] == bs[j];
    assert hi < |bs| ==> bs[j].End() <= bs[hi].off;
    HeaderKept(m, m', base, bs, j, bs', j);
  }

  lemma RewriteAfter(m: Bytes, m': Bytes, base: u32, bs: Blocks, lo: nat, hi: nat, mid: Blocks, q: nat)
    requires Rep(m, base, bs) && lo < hi <= q < |bs|
    requires Tiles(mid, bs[lo].off, bs[hi - 1].End())
    requires Rewrites(m, m', base, bs, lo, hi, mid)
    ensures HeaderAt(m', base, Splice(bs, lo, hi, mid), q + lo + |mid| - hi)
  {
    hide LoadWord;
    var bs', j := Splice(bs, lo, hi, mid), q + lo + |mid| - hi;
    assert HeaderAt(m, base, bs, q) && bs[hi - 1].End() <= bs[q].off;
    assert bs'[j] == bs[q];
    assert q + 1 < |bs| ==> bs'[j + 1] == bs[q + 1];
    if q > hi {
      assert bs[hi].End() <= bs[q].off;
      WordKept(m, m', bs[q].off + 12);
      assert bs'[j - 1] == bs[q - 1];
    }
    HeaderKept(m, m', base, bs, q, bs', j);
  }

  // -------------------------------------------------------------- split_block

  /** The two blocks that cutting free block `b` after `n` bytes leaves. */
  function Halves(b: Block, n: nat): Blocks
    requires Splits(b.size, n)
  {
    [Block(b.off, n, true), Block(b.off + HEADER + n, b.size - n - HEADER, true)]
  }

  /** The stores of `split_block`, in order. */
  function SplitBytes(m: Bytes, b: Block, n: u32, base: u32, next: u32): Bytes
    requires Splits(b.size, n) && b.End() <= |m| && base + |m| < U32_LIMIT
    requires next != NULL ==> base <= next && next - base + 16 <= |m|
  {
    hide Put, PutHeader, LoadWord;
    var rest := b.off + HEADER + n;
    var m4 := PutHeader(m, rest, b.size - n - HEADER, 1, next, base + b.off);
    var m5 := if next != NULL then Put(m4, next - base + 12, base + rest) else m4;
    Put(Put(m5, b.off + 8, base + rest), b.off, n)
  }

  /** What those stores leave in the two headers and in the next block's back link. */
  lemma SplitLoads(m: Bytes, b: Block, n: u32, base: u32, next: u32)
    requires Splits(b.size, n) && b.End() <= |m| && base + |m| < U32_LIMIT
    requires next != NULL ==> next == base + b.End() && b.End() + 16 <= |m|
    ensures var r, rest := SplitBytes(m, b, n, base, next), b.off + HEADER + n;
      && |r| == |m|
      && LoadWord(r, b.off) == n && LoadWord(r, b.off + 4) == LoadWord(m, b.off + 4)
      && LoadWord(r, b.off + 8) == base + rest && LoadWord(r, b.off + 12) == LoadWord(m, b.off + 12)
      && LoadWord(r, rest) == b.size - n - HEADER && LoadWord(r, rest + 4) == 1
      && LoadWord(r, rest + 8) == next && LoadWord(r, rest + 12) == base + b.off
      && (next != NULL ==> LoadWord(r, b.End() + 12) == base + rest)
      && forall k | 0 <= k < |m| :: b.off <= k < b.End() || r[k] == m[k]
           || (next != NULL && b.End() + 12 <= k < b.End() + 16)
  {
    hide Put, PutHeader, LoadWord;
    var rest := b.off + HEADER + n;
    var m4 := PutHeader(m, rest, b.size - n - HEADER, 1, next, base + b.off);
    PutHeaderLaw(m, rest, b.size - n - HEADER, 1, next, base + b.off);
    var m5 := if next != NULL then Put(m4, next - base + 12, base + rest) else m4;
    if next != NULL {
      PutLaw(m4, b.End() + 12, base + rest);
    }
    var m6 := Put(m5, b.off + 8, base + rest);
    PutLaw(m5, b.off + 8, base + rest);
    PutLaw(m6, b.off, n);
    var m7 := Put(m6, b.off, n);
    LoadsKept(m4, m5, b.End() + 12, b.End() + 16);
    LoadsKept(m5, m6, b.off + 8, b.off + 12);
    LoadsKept(m6, m7, b.off, b.off + 4);
    LoadsKept(m, m4, rest, rest + 16);
  }

  lemma HalvesTile(b: Block, n: nat)
    requires b.off % 8 == 0 && b.size % 8 == 0 && n % 8 == 0 && Splits(b.size, n)
    ensures Tiles(Halves(b, n), b.off, b.End())
  {
    assert (b.off + HEADER + n) % 8 == 0 && (b.size - n - HEADER) % 8 == 0;
  }

  lemma NextAbuts(m: Bytes, base: u32, bs: Blocks, i: nat)
    requires Rep(m, base, bs) && i < |bs|
    ensures bs[i].End() <= KHEAP_SIZE
    ensures i + 1 < |bs| ==> bs[i + 1].off == bs[i].End() && bs[i + 1].End() <= KHEAP_SIZE
  {
    assert HeaderAt(m, base, bs, i);
    assert i + 1 < |bs| ==> HeaderAt(m, base, bs, i + 1);
  }

  lemma SplitHeaders(m: Bytes, base: u32, bs: Blocks, i: nat, n: u32)
    requires Rep(m, base, bs) && i < |bs| && bs[i].free && Splits(bs[i].size, n)
    requires 0 < base && base + KHEAP_SIZE < U32_LIMIT
    ensures bs[i].End() <= |m|
    ensures var next := Link(base, bs, i + 1);
      && (next != NULL ==> base <= next < U32_LIMIT && next - base + 16 <= |m|)
      && var r, bs' := SplitBytes(m, bs[i], n, base, next), Splice(bs, i, i + 1, Halves(bs[i], n));
         HeaderAt(r, base, bs', i) && HeaderAt(r, base, bs', i + 1)
  {
    hide SplitBytes, LoadWord, Tiles;
    var b, next, mid := bs[i], Link(base, bs, i + 1), Halves(bs[i], n);
    NextAbuts(m, base, bs, i);
    assert HeaderAt(m, base, bs, i);
    SplitLoads(m, b, n, base, next);
    var bs' := Splice(bs, i, i + 1, mid);
    assert bs'[i] == mid[0] && bs'[i + 1] == mid[1];
    assert i > 0 ==> bs'[i - 1] == bs[i - 1];
    assert i + 1 < |bs| ==> bs'[i + 2] == bs[i + 1];
  }

  /** `split_block` turns the bytes of a list into the bytes of the list with block `i` cut. */
  lemma SplitRep(m: Bytes, base: u32, bs: Blocks, i: nat, n: u32)
    requires Rep(m, base, bs) && i < |bs| && bs[i].free && n % 8 == 0 && Splits(bs[i].size, n)
    requires 0 < base && base + KHEAP_SIZE < U32_LIMIT
    ensures bs[i].End() <= |m|
    ensures var next := Link(base, bs, i + 1);
      && (next != NULL ==> base <= next < U32_LIMIT && next - base + 16 <= |m|)
      && Rep(SplitBytes(m, bs[i], n, base, next), base, Splice(bs, i, i + 1, Halves(bs[i], n)))
  {
    hide SplitBytes, LoadWord, HeaderAt;
    var b, next, mid := bs[i], Link(base, bs, i + 1), Halves(bs[i], n);
    NextAbuts(m, base, bs, i);
    HalvesTile(b, n);
    SplitLoads(m, b, n, base, next);
    SplitHeaders(m, base, bs, i, n);
    RewriteRep(m, SplitBytes(m, b, n, base, next), base, bs, i, i + 1, mid);
  }

  // ------------------------------------------------------ free flag, coalesce_block

  /** A rewrite that leaves one block `x` in place of a stretch. */
  ghost predicate RewritesToOne(m: Bytes, r: Bytes, base: u32, bs: Blocks, lo: nat, hi: nat, x: Block)
    requires lo < hi <= |bs|
  {
    && |m| == |r| == KHEAP_SIZE
    && x.off == bs[lo].off && x.End() <= |r|
    && (hi < |bs| ==> bs[hi].End() <= |m|)
    && LoadWord(r, x.off) == x.size && LoadWord(r, x.off + 4) == (if x.free then 1 else 0)
    && LoadWord(r, x.off + 8) == Link(base, bs, hi) && LoadWord(r, x.off + 12) == Link(base, bs, lo - 1)
    && (hi < |bs| ==> LoadWord(r, bs[hi].off + 12) == base + x.off)
    && forall k | 0 <= k < |m| :: bs[lo].off <= k < bs[hi - 1].End() || r[k] == m[k]
         || (hi < |bs| && bs[hi].off + 12 <= k < bs[hi].off + 16)
  }

  lemma RewriteOne(m: Bytes, r: Bytes, base: u32, bs: Blocks, lo: nat, hi: nat, x: Block)
    requires lo < hi <= |bs| && Rep(m, base, bs) && Tiles([x], bs[lo].off, bs[hi - 1].End())
    requires RewritesToOne(m, r, base, bs, lo, hi, x)
    ensures Rep(r, base, Splice(bs, lo, hi, [x]))
  {
    hide LoadWord;
    var bs' := Splice(bs, lo, hi, [x]);
    assert lo > 0 ==> bs'[lo - 1] == bs[lo - 1];
    assert hi < |bs| ==> bs'[lo + 1] == bs[hi];
    assert HeaderAt(r, base, bs', lo);
    RewriteRep(m, r, base, bs, lo, hi, [x]);
  }

  lemma FlagRewrites(m: Bytes, base: u32, bs: Blocks, i: nat, free: bool)
    requires Rep(m, base, bs) && i < |bs| && bs[i].End() <= |m|
    ensures RewritesToOne(m, Put(m, bs[i].off + 4, if free then 1 else 0), base, bs, i, i + 1, bs[i].(free := free))
  {
    hide Put, LoadWord, Tiles;
    var v: u32 := if free then 1 else 0;
    NextAbuts(m, base, bs, i);
    assert HeaderAt(m, base, bs, i);
    assert i + 1 < |bs| ==> HeaderAt(m, base, bs, i + 1);
    PutLaw(m, bs[i].off + 4, v);
    LoadsKept(m, Put(m, bs[i].off + 4, v), bs[i].off + 4, bs[i].off + 8);
  }

  /** Rewriting the free word of a header changes that block's flag and nothing else. */
  lemma FlagRep(m: Bytes, base: u32, bs: Blocks, i: nat, free: bool)
    requires Rep(m, base, bs) && i < |bs|
    ensures bs[i].End() <= |m|
    ensures Rep(Put(m, bs[i].off + 4, if free then 1 else 0), base, bs[i := bs[i].(free := free)])
  {
    hide RewritesToOne, Put, HeaderAt;
    NextAbuts(m, base, bs, i);
    FlagRewrites(m, base, bs, i, free);
    var x := bs[i].(free := free);
    assert Splice(bs, i, i + 1, [x]) == bs[i := x];
    RewriteOne(m, Put(m, bs[i].off + 4, if free then 1 else 0), base, bs, i, i + 1, x);
  }

  /** The stores that let the block at `off` absorb its successor. */
  function MergeBytes(m: Bytes, base: u32, off: nat, size: u32, next: u32): Bytes
    requires off + 16 <= |m| && base + |m| < U32_LIMIT
    requires next != NULL ==> base <= next && next - base + 16 <= |m|
  {
    var m2 := Put(Put(m, off, size), off + 8, next);
    if next != NULL then Put(m2, next - base + 12, base + off) else m2
  }

  lemma MergeLoads(m: Bytes, base: u32, off: nat, size: u32, next: u32)
    requires off + 16 <= |m| && base + |m| < U32_LIMIT
    requires next != NULL ==> base + off + 16 <= next && next - base + 16 <= |m|
    ensures var r := MergeBytes(m, base, off, size, next);
      && |r| == |m|
      && LoadWord(r, off) == size && LoadWord(r, off + 4) == LoadWord(m, off + 4)
      && LoadWord(r, off + 8) == next && LoadWord(r, off + 12) == LoadWord(m, off + 12)
      && (next != NULL ==> LoadWord(r, next - base + 12) == base + off)
      && forall k | 0 <= k < |m| :: off <= k < off + 16 || r[k] == m[k]
           || (next != NULL && next - base + 12 <= k < next - base + 16)
  {
    hide Put, LoadWord;
    var m1 := Put(m, off, size);
    PutLaw(m, off, size);
    LoadsKept(m, m1, off, off + 4);
    var m2 := Put(m1, off + 8, next);
    PutLaw(m1, off + 8, next);
    LoadsKept(m1, m2, off + 8, off + 12);
    if next != NULL {
      PutLaw(m2, next - base + 12, base + off);
      LoadsKept(m2, Put(m2, next - base + 12, base + off), next - base + 12, next - base + 16);
    }
  }

  /** Block `i` with its successor's bytes added, keeping its own flag. */
  function Joined(bs: Blocks, i: nat): Block
    requires i + 1 < |bs|
  {
    Block(bs[i].off, bs[i].size + HEADER + bs[i + 1].size, bs[i].free)
  }

  lemma JoinedTile(bs: Blocks, i: nat)
    requires i + 1 < |bs| && Tiles(bs, 0, KHEAP_SIZE)
    ensures Tiles([Joined(bs, i)], bs[i].off, bs[i + 1].End())
  {
    assert (bs[i].size + HEADER + bs[i + 1].size) % 8 == 0;
  }

  lemma MergeRewrites(m: Bytes, base: u32, bs: Blocks, i: nat)
    requires Rep(m, base, bs) && i + 1 < |bs| && 0 < base && base + KHEAP_SIZE < U32_LIMIT
    ensures bs[i].End() <= |m| && Joined(bs, i).size < KHEAP_SIZE
    ensures var next := Link(base, bs, i + 2);
      && (next != NULL ==> base <= next < U32_LIMIT && next - base + 16 <= |m|)
      && RewritesToOne(m, MergeBytes(m, base, bs[i].off, Joined(bs, i).size, next), base, bs, i, i + 2, Joined(bs, i))
  {
    hide MergeBytes, LoadWord, Tiles;
    NextAbuts(m, base, bs, i);
    NextAbuts(m, base, bs, i + 1);
    assert HeaderAt(m, base, bs, i);
    MergeLoads(m, base, bs[i].off, Joined(bs, i).size, Link(base, bs, i + 2));
  }

  /** Those stores turn the bytes of a list into the bytes of the list with `i` and `i + 1` joined. */
  lemma MergeRep(m: Bytes, base: u32, bs: Blocks, i: nat)
    requires Rep(m, base, bs) && i + 1 < |bs| && 0 < base && base + KHEAP_SIZE < U32_LIMIT
    ensures bs[i].End() <= |m| && Joined(bs, i).size < KHEAP_SIZE
    ensures var next := Link(base, bs, i + 2);
      && (next != NULL ==> base <= next < U32_LIMIT && next - base + 16 <= |m|)
      && Rep(MergeBytes(m, base, bs[i].off, Joined(bs, i).size, next), base, Splice(bs, i, i + 2, [Joined(bs, i)]))
  {
    hide RewritesToOne, MergeBytes, HeaderAt;
    MergeRewrites(m, base, bs, i);
    JoinedTile(bs, i);
    var r := MergeBytes(m, base, bs[i].off, Joined(bs, i).size, Link(base, bs, i + 2));
    RewriteOne(m, r, base, bs, i, i + 2, Joined(bs, i));
  }

  /** Block `i` joined with a free right neighbour. */
  ghost function RightJoined(bs: Blocks, i: nat): (r: Blocks)
    requires i < |bs|
    ensures i < |r|
  {
    if i + 1 < |bs| && bs[i + 1].free then Splice(bs, i, i + 2, [Joined(bs, i)]) else bs
  }

  /** Block `i` joined into a free left neighbour. */
  ghost function LeftJoined(bs: Blocks, i: nat): Blocks
    requires i < |bs|
  {
    if i > 0 && bs[i - 1].free then Splice(bs, i - 1, i + 1, [Joined(bs, i - 1)]) else bs
  }

  /** The block list after `coalesce_block` on the free block at index `i`. */
  ghost function Coalesce(bs: Blocks, i: nat): Blocks
    requires i < |bs|
  {
    LeftJoined(RightJoined(bs, i), i)
  }

  /** Marking a block free and then joining right and left, as `kfree` does, is `FreeAt`. */
  lemma CoalesceIsFreeAt(bs: Blocks, i: nat)
    requires Tiles(bs, 0, KHEAP_SIZE) && i < |bs|
    ensures Coalesce(bs[i := bs[i].(free := true)], i) == FreeAt(bs, i)
  {
    hide Tiles;
    EndsAbut(bs, i);
    var f := bs[i := bs[i].(free := true)];
    var hi := MergeHi(bs, i);
    var x := Block(bs[i].off, bs[hi - 1].End() - bs[i].off - HEADER, true);
    var r := bs[..i] + [x] + bs[hi..];
    assert RightJoined(f, i) == r;
    assert i > 0 ==> r[i - 1] == bs[i - 1];
    if i > 0 && bs[i - 1].free {
      assert r[i] == x && r[i + 1..] == bs[hi..] && r[..i - 1] == bs[..i - 1];
    }
  }

  lemma EndsAbut(bs: Blocks, i: nat)
    requires Tiles(bs, 0, KHEAP_SIZE) && i < |bs|
    ensures i > 0 ==> bs[i - 1].End() == bs[i].off
    ensures i + 1 < |bs| ==> bs[i].End() == bs[i + 1].off
  {
  }

  // ------------------------------------------------------------------ payloads

  /** Stores into the headers of blocks `i` and `j`, or anywhere in block `i` if it is free. */
  ghost predicate TouchesHeaders(m: Bytes, m': Bytes, bs: Blocks, i: nat, j: nat)
    requires i < |bs|
  {
    && |m| == |m'| == KHEAP_SIZE
    && forall k | 0 <= k < |m| :: m'[k] == m[k]
         || bs[i].off <= k < bs[i].Payload()
         || (bs[i].free && bs[i].off <= k < bs[i].End())
         || (j < |bs| && bs[j].off <= k < bs[j].Payload())
  }

  /** The bytes of block `i`, header included, lie outside every other payload. */
  lemma OutsideOthers(bs: Blocks, i: nat, q: nat, k: nat)
    requires Tiles(bs, 0, KHEAP_SIZE) && i < |bs| && q < |bs|
    requires bs[i].off <= k < bs[i].End() && bs[q].Payload() <= k < bs[q].End()
    ensures i == q && k >= bs[i].Payload()
  {
  }

  /** Such stores alter no live payload. */
  lemma HeadersKeepPayloads(m: Bytes, m': Bytes, bs: Blocks, i: nat, j: nat)
    requires i < |bs| && Tiles(bs, 0, KHEAP_SIZE) && TouchesHeaders(m, m', bs, i, j)
    ensures KeepsPayloads(Live(bs), m, m')
  {
    hide Tiles;
    forall b, k | b in Live(bs) && b.Payload() <= k < b.End() && k < KHEAP_SIZE ensures m'[k] == m[k] {
      var q :| 0 <= q < |bs| && bs[q] == b;
      if bs[i].off <= k < bs[i].End() {
        OutsideOthers(bs, i, q, k);
      }
      if j < |bs| && bs[j].off <= k < bs[j].End() {
        OutsideOthers(bs, j, q, k);
      }
    }
  }

  /** Writing inside the payload of one block leaves every header as it was. */
  lemma PayloadWriteRep(m: Bytes, m': Bytes, base: u32, bs: Blocks, b: Block, lo: nat, hi: nat)
    requires Rep(m, base, bs) && b in bs && b.Payload() <= lo <= hi <= b.End()
    requires SameExcept(m, m', lo, hi)
    ensures Rep(m', base, bs)
  {
    var q :| 0 <= q < |bs| && bs[q] == b;
    forall i | 0 <= i < |bs| ensures HeaderAt(m', base, bs, i) {
      assert HeaderAt(m, base, bs, i);
      assert i != q ==> b.End() <= bs[i].off || bs[i].End() <= b.off;
      LoadKept(m, m', lo, hi, bs[i].off);
      LoadKept(m, m', lo, hi, bs[i].off + 4);
      LoadKept(m, m', lo, hi, bs[i].off + 8);
      LoadKept(m, m', lo, hi, bs[i].off + 12);
    }
  }

  lemma SplitKeeps(m: Bytes, base: u32, bs: Blocks, i: nat, n: u32)
    requires Rep(m, base, bs) && i < |bs| && bs[i].free && n % 8 == 0 && Splits(bs[i].size, n)
    requires 0 < base && base + KHEAP_SIZE < U32_LIMIT
    ensures bs[i].End() <= |m|
    ensures var next := Link(base, bs, i + 1);
      && (next != NULL ==> base <= next < U32_LIMIT && next - base + 16 <= |m|)
      && KeepsPayloads(Live(bs), m, SplitBytes(m, bs[i], n, base, next))
  {
    hide SplitBytes, LoadWord, HeaderAt, KeepsPayloads;
    NextAbuts(m, base, bs, i);
    SplitLoads(m, bs[i], n, base, Link(base, bs, i + 1));
    HeadersKeepPayloads(m, SplitBytes(m, bs[i], n, base, Link(base, bs, i + 1)), bs, i, i + 1);
  }

  lemma MergeKeeps(m: Bytes, base: u32, bs: Blocks, i: nat)
    requires Rep(m, base, bs) && i + 1 < |bs| && 0 < base && base + KHEAP_SIZE < U32_LIMIT
    ensures bs[i].End() <= |m| && Joined(bs, i).size < KHEAP_SIZE
    ensures var next := Link(base, bs, i + 2);
      && (next != NULL ==> base <= next < U32_LIMIT && next - base + 16 <= |m|)
      && KeepsPayloads(Live(bs), m, MergeBytes(m, base, bs[i].off, Joined(bs, i).size, next))
  {
    hide MergeBytes, LoadWord, HeaderAt, KeepsPayloads;
    NextAbuts(m, base, bs, i);
    NextAbuts(m, base, bs, i + 1);
    var next := Link(base, bs, i + 2);
    MergeLoads(m, base, bs[i].off, Joined(bs, i).size, next);
    HeadersKeepPayloads(m, MergeBytes(m, base, bs[i].off, Joined(bs, i).size, next), bs, i, i + 2);
  }

  lemma FlagKeeps(m: Bytes, base: u32, bs: Blocks, i: nat, v: u32)
    requires Rep(m, base, bs) && i < |bs|
    ensures bs[i].End() <= |m| && KeepsPayloads(Live(bs), m, Put(m, bs[i].off + 4, v))
  {
    hide Put, LoadWord, KeepsPayloads;
    NextAbuts(m, base, bs, i);
    PutLaw(m, bs[i].off + 4, v);
    HeadersKeepPayloads(m, Put(m, bs[i].off + 4, v), bs, i, i);
  }
}
