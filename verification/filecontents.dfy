/** A RAM file as a byte string: what reads, writes and growth do to it. */
module FileContents {
  import opened Machine

  const RAMFS_MAX_FILE_SIZE: int := 0x1_0000

  /** `ramfs_file_t`. */
  datatype File = File(data: u32, size: u32, capacity: u32)

  // ------------------------------------------------------------------- writes

  /** `now` is `was` with `data` written at `offset`; bytes of a gap past the old end are open. */
  ghost predicate Written(was: Bytes, now: Bytes, offset: nat, data: Bytes) {
    && |now| == (if offset + |data| > |was| then offset + |data| else |was|)
    && (forall i | 0 <= i < |data| :: now[offset + i] == data[i])
    && (forall i | 0 <= i < |was| && !(offset <= i < offset + |data|) :: now[i] == was[i])
  }

  /** What `ramfs_read` copies out. */
  function ReadOf(content: Bytes, offset: nat, size: nat): Bytes {
    if offset >= |content| then [] else content[offset..Min(offset + size, |content|)]
  }

  /** Reading back exactly what was written returns it. */
  lemma ReadAfterWrite(was: Bytes, now: Bytes, offset: nat, data: Bytes)
    requires Written(was, now, offset, data)
    ensures ReadOf(now, offset, |data|) == data
  {
  }

  /** Reading a range that a write did not touch returns what was there. */
  lemma ReadElsewhere(was: Bytes, now: Bytes, offset: nat, data: Bytes, at: nat, size: nat)
    requires Written(was, now, offset, data)
    requires at + size <= |was| && (at + size <= offset || offset + |data| <= at)
    ensures ReadOf(now, at, size) == ReadOf(was, at, size)
  {
    assert forall i | at <= i < at + size :: now[i] == was[i];
  }

  // ------------------------------------------------------------------- growth

  /** The capacity `ramfs_write` asks for: twice the new size in 32 bits, capped. */
  function NewCapacity(newSize: u32): u32 {
    Min(Wrap(newSize * 2), RAMFS_MAX_FILE_SIZE)
  }

  /** Does a write ending at `newSize` fit the limit? */
  predicate Fits(newSize: u32) {
    newSize <= NewCapacity(newSize)
  }

  /** The doubling may wrap, yet the limit is enforced exactly. */
  lemma FitsIff(newSize: u32)
    ensures Fits(newSize) <==> newSize <= RAMFS_MAX_FILE_SIZE
    ensures Fits(newSize) ==> NewCapacity(newSize) == Min(2 * newSize, RAMFS_MAX_FILE_SIZE)
  {
  }

  /** A write that passes the capacity tests copies inside the buffer if and only if the 32-bit sum of
      offset and size did not wrap. */
  lemma AcceptedInBoundsIff(capacity: nat, offset: u32, size: u32)
    requires Wrap(offset + size) <= capacity <= RAMFS_MAX_FILE_SIZE
    ensures offset + size <= capacity <==> offset + size < U32_LIMIT
  {
  }

  /** Two bytes at the last offset pass the test of any non-empty buffer and land outside. */
  lemma WrappedWriteEscapes(capacity: nat)
    requires 0 < capacity <= RAMFS_MAX_FILE_SIZE
    ensures Wrap(0xFFFF_FFFF + 2) <= capacity && 0xFFFF_FFFF + 2 > capacity
  {
  }

  /** A file's capacity and how often it has been reallocated. */
  datatype Growth = Growth(capacity: nat, count: nat)

  /** A write ending at `newSize`; `granted` says whether the heap has room. */
  function GrowStep(g: Growth, newSize: u32, granted: bool): Growth {
    if newSize > g.capacity && Fits(newSize) && granted then Growth(NewCapacity(newSize), g.count + 1) else g
  }

  function GrowRun(g: Growth, writes: seq<(u32, bool)>): Growth
    decreases writes
  {
    if writes == [] then g else GrowRun(GrowStep(g, writes[0].0, writes[0].1), writes[1..])
  }

  lemma {:induction false} GrowRunAppend(g: Growth, writes: seq<(u32, bool)>, w: (u32, bool))
    ensures GrowRun(g, writes + [w]) == GrowStep(GrowRun(g, writes), w.0, w.1)
    decreases writes
  {
    hide GrowStep;
    if writes == [] {
      assert [] + [w] == [w];
      assert GrowRun(g, [w]) == GrowRun(GrowStep(g, w.0, w.1), [w][1..]);
    } else {
      GrowRunAppend(GrowStep(g, writes[0].0, writes[0].1), writes[1..], w);
      assert (writes + [w])[1..] == writes[1..] + [w];
    }
  }

  /** After `k` reallocations the capacity is at least `min(2^(k+1) - 2, 65536)`. */
  ghost predicate Doubled(g: Growth) {
    g.capacity <= RAMFS_MAX_FILE_SIZE && g.capacity >= Min(Pow2(g.count + 1) - 2, RAMFS_MAX_FILE_SIZE) && g.count <= 16
  }

  lemma GrowStepDoubled(g: Growth, newSize: u32, granted: bool)
    requires Doubled(g)
    ensures Doubled(GrowStep(g, newSize, granted))
  {
    FitsIff(newSize);
    if GrowStep(g, newSize, granted) != g {
      assert Pow2(g.count + 2) == 2 * Pow2(g.count + 1);
      Pow2At17();
      assert g.count == 16 ==> g.capacity == RAMFS_MAX_FILE_SIZE;
    }
  }

  lemma Pow2At17()
    ensures Pow2(17) == 0x2_0000
  {
    assert Pow2(4) == 0x10 && Pow2(8) == 0x100 && Pow2(12) == 0x1000 && Pow2(16) == 0x1_0000;
  }

  /** Over any sequence of writes to one file at most 16 reallocations succeed. */
  lemma {:induction false} AtMostSixteen(g: Growth, writes: seq<(u32, bool)>)
    requires Doubled(g)
    ensures Doubled(GrowRun(g, writes)) && GrowRun(g, writes).count <= 16
    decreases writes
  {
    hide Doubled, GrowStep;
    DoubledBound(g);
    if writes != [] {
      GrowStepDoubled(g, writes[0].0, writes[0].1);
      AtMostSixteen(GrowStep(g, writes[0].0, writes[0].1), writes[1..]);
    }
  }

  lemma DoubledBound(g: Growth)
    requires Doubled(g)
    ensures g.count <= 16
  {
  }

  /** A new file starts the count. */
  lemma NewFileDoubled()
    ensures Doubled(Growth(0, 0))
  {
    assert Pow2(1) == 2;
  }
}
