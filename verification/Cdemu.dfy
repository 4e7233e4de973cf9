/**
 Reading 512-byte sectors of an emulated disk from a CD with 2048-byte blocks: a partial first
 block and a partial last block go through a bounce buffer, the blocks between are read in place.
 */
module Cdemu {
  import opened Seqs

  const SECTOR: nat := 512
  const BLOCK: nat := 2048
  const SUCCESS: nat := 0
  const EBOUNDARY: nat := 0x09

  /** What a driver does with a request for `n` blocks: a status, a block count and the bytes stored. */
  datatype Reply = Reply(status: nat, count: nat, data: seq<nat>)

  /**
   A driver that works: on success every block asked for is stored; on failure with a changed
   count, the counted blocks are stored, and the rest of the buffer may hold anything.
   */
  predicate Obeys(r: Reply, image: seq<nat>, lba: nat, n: nat) {
    && |r.data| == n * BLOCK && r.count <= n
    && (r.status == SUCCESS ==> r.count == n)
    && (r.status == SUCCESS || r.count < n ==> Stored(r.data, image, lba * BLOCK, r.count * BLOCK))
  }

  /** The first `len` bytes of `data` are those of the image from `at` on. */
  predicate Stored(data: seq<nat>, image: seq<nat>, at: nat, len: nat) {
    len <= |data| && (len > 0 ==> at + len <= |image| && data[..len] == image[at..at + len])
  }

  /** A driver may answer each call of a read differently. */
  type Driver = (nat, nat, nat) -> Reply

  ghost predicate Works(driver: Driver, image: seq<nat>) {
    forall k, lba, n :: Obeys(driver(k, lba, n), image, lba, n)
  }

  /** The driver itself answers some request within the 64 KiB limit with this status. */
  ghost predicate DriverFails(driver: Driver, status: nat) {
    exists k, lba, n :: n <= 32 && driver(k, lba, n).status == status
  }

  /** `process_op`: requests over 64 KiB are refused, and an unchanged count on failure means nothing was read. */
  method ProcessOp(driver: Driver, k: nat, lba: nat, n: nat, buf: array<nat>, at: nat, ghost image: seq<nat>)
    returns (status: nat, count: nat)
    requires Works(driver, image) && at + n * BLOCK <= buf.Length
    modifies buf
    ensures status == if n * BLOCK > 0x1_0000 then EBOUNDARY else driver(k, lba, n).status
    ensures count <= n && (status == SUCCESS ==> count == n)
    ensures Stored(buf[at..at + n * BLOCK], image, lba * BLOCK, count * BLOCK)
    ensures buf[..at] == old(buf[..at]) && buf[at + n * BLOCK..] == old(buf[at + n * BLOCK..])
  {
    if n * BLOCK > 0x1_0000 { return EBOUNDARY, 0; }
    var r := driver(k, lba, n);
    assert Obeys(r, image, lba, n);
    Fill(buf, at, r.data);
    status, count := r.status, r.count;
    if status != SUCCESS && count == n { count := 0; }
  }

  /** Bytes copied to a place in a buffer. */
  method Fill(buf: array<nat>, at: nat, data: seq<nat>)
    requires at + |data| <= buf.Length
    modifies buf
    ensures buf[..] == old(buf[..at]) + data + old(buf[at + |data|..])
  {
    var i := 0;
    while i < |data|
      invariant 0 <= i <= |data|
      invariant buf[..at + i] == old(buf[..at]) + data[..i]
      invariant buf[at + i..] == old(buf[at + i..])
    {
      buf[at + i] := data[i];
      i := i + 1;
    }
  }

  /** Nothing changed from `n` on. */
  predicate SameFrom(a: seq<nat>, b: seq<nat>, n: nat) {
    |a| == |b| && forall i :: n <= i < |a| ==> a[i] == b[i]
  }

  lemma SameTrans(a: seq<nat>, b: seq<nat>, c: seq<nat>, m: nat, n: nat)
    requires SameFrom(a, b, m) && SameFrom(b, c, n)
    ensures forall k :: k >= m && k >= n ==> SameFrom(a, c, k)
  {
  }

  lemma StoredJoin(data: seq<nat>, image: seq<nat>, at: nat, x: nat, y: nat)
    requires Stored(data, image, at, x) && x <= |data| && Stored(data[x..], image, at + x, y)
    ensures Stored(data, image, at, x + y)
  {
    if x > 0 && y > 0 {
      assert data[..x + y] == data[..x] + data[x..][..y];
      assert image[at..at + x + y] == image[at..at + x] + image[at + x..at + x + y];
    } else if y > 0 {
      assert data[0..] == data;
    }
  }

  /** Part of a stored block. */
  lemma StoredPart(data: seq<nat>, image: seq<nat>, at: nat, len: nat, skip: nat, n: nat)
    requires Stored(data, image, at, len) && skip + n <= len
    ensures Stored(data[skip..skip + n], image, at + skip, n)
  {
    if n > 0 {
      var part := data[skip..skip + n];
      assert part[..n] == part == data[..len][skip..skip + n];
      SliceOfSlice(image, at, len, skip, n);
    }
  }

  lemma StoredPrefix(data: seq<nat>, more: seq<nat>, image: seq<nat>, at: nat, len: nat)
    requires len <= |more| && len <= |data| && data[..len] == more[..len] && Stored(data, image, at, len)
    ensures Stored(more, image, at, len)
  {
  }

  /** One block read into the bounce buffer, and part of it copied to the caller's buffer. */
  method ReadPart(driver: Driver, k: nat, lba: nat, skip: nat, n: nat, buf: array<nat>, done: nat, cdbuf: array<nat>,
                  ghost image: seq<nat>, ghost base: nat)
    returns (status: nat)
    requires Works(driver, image) && buf != cdbuf && cdbuf.Length >= BLOCK && skip + n <= 4
    requires (done + n) * SECTOR <= buf.Length && lba * BLOCK + skip * SECTOR == base + done * SECTOR
    requires Stored(buf[..], image, base, done * SECTOR)
    modifies buf, cdbuf
    ensures status != SUCCESS ==> DriverFails(driver, status)
    ensures Stored(buf[..], image, base, (if status == SUCCESS then done + n else done) * SECTOR)
    ensures SameFrom(buf[..], old(buf[..]), (done + n) * SECTOR)
  {
    hide Stored, Works;
    var count;
    status, count := ProcessOp(driver, k, lba, 1, cdbuf, 0, image);
    if status != SUCCESS { return; }
    var from, len := skip * SECTOR, n * SECTOR;
    StoredPart(cdbuf[0..BLOCK], image, lba * BLOCK, BLOCK, from, len);
    var part := cdbuf[from..from + len];
    assert part == cdbuf[0..BLOCK][from..from + len];
    FillStored(buf, done * SECTOR, part, image, base);
  }

  /** Copying the next bytes of the image extends what is stored. */
  method FillStored(buf: array<nat>, done: nat, part: seq<nat>, ghost image: seq<nat>, ghost base: nat)
    requires done + |part| <= buf.Length && Stored(buf[..], image, base, done)
    requires Stored(part, image, base + done, |part|)
    modifies buf
    ensures Stored(buf[..], image, base, done + |part|)
    ensures SameFrom(buf[..], old(buf[..]), done + |part|)
  {
    ghost var was := buf[..];
    Fill(buf, done, part);
    hide Stored;
    ghost var now := buf[..];
    assert now == was[..done] + part + was[done + |part|..];
    assert now[..done] == was[..done] && now[done..][..|part|] == part == part[..|part|];
    StoredPrefix(was, now, image, base, done);
    StoredPrefix(part, now[done..], image, base + done, |part|);
    StoredJoin(now, image, base, done, |part|);
  }

  /** Whole blocks read in place. */
  method ReadBlocks(driver: Driver, lba: nat, n: nat, buf: array<nat>, done: nat, ghost image: seq<nat>,
                    ghost base: nat)
    returns (status: nat, count: nat)
    requires Works(driver, image) && n <= 32 && (done + 4 * n) * SECTOR <= buf.Length
    requires lba * BLOCK == base + done * SECTOR && Stored(buf[..], image, base, done * SECTOR)
    modifies buf
    ensures count <= n && (status == SUCCESS ==> count == n) && (status != SUCCESS ==> DriverFails(driver, status))
    ensures Stored(buf[..], image, base, (done + 4 * count) * SECTOR)
    ensures SameFrom(buf[..], old(buf[..]), (done + 4 * n) * SECTOR)
  {
    hide Stored, Works;
    ghost var was := buf[..];
    var at := done * SECTOR;
    status, count := ProcessOp(driver, 1, lba, n, buf, at, image);
    ghost var now := buf[..];
    assert now[..at] == was[..at] && now[at..at + n * BLOCK] == buf[at..at + n * BLOCK];
    StoredPrefix(was, now, image, base, at);
    assert now[at..][..count * BLOCK] == now[at..at + n * BLOCK][..count * BLOCK];
    StoredPrefix(now[at..at + n * BLOCK], now[at..], image, base + at, count * BLOCK);
    StoredJoin(now, image, base, at, count * BLOCK);
    assert (done + 4 * n) * SECTOR == at + n * BLOCK;
  }

  /** From a block boundary on: whole blocks, then part of the last one. */
  method ReadRest(driver: Driver, block: nat, left: nat, buf: array<nat>, at: nat, cdbuf: array<nat>,
                  ghost image: seq<nat>, ghost base: nat)
    returns (status: nat, done: nat)
    requires Works(driver, image) && buf != cdbuf && cdbuf.Length >= BLOCK
    requires left <= 128 && (at + left) * SECTOR <= buf.Length && (left > 0 ==> block * BLOCK == base + at * SECTOR)
    requires Stored(buf[..], image, base, at * SECTOR)
    modifies buf, cdbuf
    ensures at <= done <= at + left && (status == SUCCESS ==> done == at + left)
    ensures Stored(buf[..], image, base, done * SECTOR) && SameFrom(buf[..], old(buf[..]), (at + left) * SECTOR)
    ensures status != SUCCESS ==> DriverFails(driver, status)
  {
    ghost var was := buf[..];
    assert SameFrom(was, was, 0);
    hide Stored, Works, SameFrom, DriverFails;
    status, done := SUCCESS, at;
    if left > 3 {
      var c;
      status, c := ReadBlocks(driver, block, left / 4, buf, at, image, base);
      SameTrans(buf[..], was, was, (at + 4 * (left / 4)) * SECTOR, 0);
      done := at + 4 * c;
      if status != SUCCESS { return; }
    }
    SameTrans(buf[..], was, was, done * SECTOR, 0);
    if left % 4 > 0 {
      ghost var now := buf[..];
      status := ReadPart(driver, 2, block + left / 4, 0, left % 4, buf, done, cdbuf, image, base);
      SameTrans(buf[..], now, was, (at + left) * SECTOR, done * SECTOR);
      if status == SUCCESS { done := done + left % 4; }
    }
  }

  /**
   `cdemu_read`: the sectors it reports are the bytes of the CD image at the sector asked for,
   also when it fails half-way; it fails only when the driver does on a request within the 64 KiB
   limit, and it does not touch the buffer beyond the sectors asked for.
   */
  method CdemuRead(driver: Driver, ilba: nat, lba: nat, count: nat, buf: array<nat>, cdbuf: array<nat>,
                   ghost image: seq<nat>)
    returns (status: nat, done: nat)
    requires Works(driver, image) && buf != cdbuf && cdbuf.Length >= BLOCK
    requires count <= 128 && count * SECTOR <= buf.Length
    modifies buf, cdbuf
    ensures done <= count && (status == SUCCESS ==> done == count)
    ensures Stored(buf[..], image, ilba * BLOCK + lba * SECTOR, done * SECTOR)
    ensures SameFrom(buf[..], old(buf[..]), count * SECTOR)
    ensures status != SUCCESS ==> DriverFails(driver, status)
  {
    ghost var was := buf[..];
    assert SameFrom(was, was, 0);
    hide Stored, Works, SameFrom, DriverFails;
    ghost var base := ilba * BLOCK + lba * SECTOR;
    var block := ilba + lba / 4;
    NothingStored(buf[..], image, base);
    var first: nat := 0;
    if lba % 4 != 0 {
      first := if 4 - lba % 4 > count then count else 4 - lba % 4;
      status := ReadPart(driver, 0, block, lba % 4, first, buf, 0, cdbuf, image, base);
      SameTrans(buf[..], was, was, first * SECTOR, 0);
      if status != SUCCESS { return status, 0; }
      block := block + 1;
    }
    assert count > first ==> block * BLOCK == base + first * SECTOR;
    ghost var now := buf[..];
    SameTrans(now, was, was, first * SECTOR, 0);
    status, done := ReadRest(driver, block, count - first, buf, first, cdbuf, image, base);
    SameTrans(buf[..], now, was, count * SECTOR, first * SECTOR);
  }

  lemma NothingStored(data: seq<nat>, image: seq<nat>, at: nat)
    ensures Stored(data, image, at, 0)
  {
  }
}
