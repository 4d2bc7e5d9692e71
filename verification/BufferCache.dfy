/** The memory disk (memide.c) and the buffer cache above it (bio.c, buf.h). */
module BufferCache {
  import opened Bytes
  import opened Recency

  const NBUF: nat := 20              // param.h
  const HEAD: nat := NBUF            // the list head, bcache.head, is link NBUF
  const NODEV: nat := 0xFFFF_FFFF    // binit's b->dev = -1
  const ROOTDEV: nat := 1            // the only device iderw serves

  /** What an operation does that may stop the kernel or put the caller to sleep. */
  datatype Status = Done | MustSleep | Panic(message: string)

  /** struct buf without its list links: the three flags, the sector it holds and the data. */
  datatype Buf = Buf(busy: bool, valid: bool, dirty: bool, dev: nat, sector: nat, data: Block) {
    predicate Names(d: nat, s: nat) {
      dev == d && sector == s
    }
    predicate Pinned() {
      busy || dirty
    }
  }

  class Disk {
    var sectors: seq<Block>
    ghost var images: seq<seq<Block>>   // the contents after each sector write so far

    constructor (contents: seq<Block>)
      ensures sectors == contents && images == []
    {
      sectors, images := contents, [];
    }

    /** Sync a buffer with the disk (memide.c:36-58). */
    method Iderw(b: Buf) returns (st: Status, r: Buf)
      modifies this
      ensures st.Done? <==>
        b.busy && (b.dirty || !b.valid) && b.dev == ROOTDEV && b.sector < |old(sectors)|
      ensures st.Done? && b.dirty ==>
        && r == b.(dirty := false, valid := true)
        && sectors == old(sectors)[b.sector := b.data]
        && images == old(images) + [sectors]
      ensures st.Done? && !b.dirty ==> b.sector < |sectors| && r == b.(valid := true, data := sectors[b.sector])
      ensures !(st.Done? && b.dirty) ==> sectors == old(sectors) && images == old(images)
      ensures !st.Done? ==> r == b
    {
      if !b.busy {
        return Panic("iderw: buf not busy"), b;
      }
      if b.valid && !b.dirty {
        return Panic("iderw: nothing to do"), b;
      }
      if b.dev != ROOTDEV {
        return Panic("iderw: request not for disk 1"), b;
      }
      if b.sector >= |sectors| {
        return Panic("iderw: sector out of range"), b;
      }
      if b.dirty {
        r := b.(dirty := false);
        sectors := sectors[b.sector := b.data];
        images := images + [sectors];
      } else {
        r := b.(data := sectors[b.sector]);
      }
      r := r.(valid := true);
      return Done, r;
    }
  }

  // ---- The circular list ------------------------------------------------

  /**
   `ring` lists the links from the list head round to the head again: each next
   pointer leads to the following element and each prev pointer back.
   */
  predicate Ring(prev: seq<nat>, next: seq<nat>, ring: seq<nat>) {
    && |prev| == |next| == NBUF + 1
    && |ring| >= 2 && ring[0] == HEAD && ring[|ring| - 1] == HEAD
    && (forall i :: 0 <= i < |ring| ==> ring[i] <= HEAD)
    && (forall i, j :: 0 <= i < j < |ring| - 1 ==> ring[i] != ring[j])
    && (forall i :: 0 <= i < |ring| - 1 ==> next[ring[i]] == ring[i + 1])
    && (forall i :: 0 <= i < |ring| - 1 ==> prev[ring[i + 1]] == ring[i])
  }

  predicate Linked(prev: seq<nat>, next: seq<nat>, order: seq<nat>) {
    Ring(prev, next, [HEAD] + order + [HEAD])
  }

  /** `order` lists every buffer once. */
  ghost predicate Permutation(order: seq<nat>) {
    && |order| == NBUF && NoDup(order)
    && (forall i :: 0 <= i < NBUF ==> order[i] < NBUF)
    && (forall b: nat :: b < NBUF ==> b in order)
  }

  /** b->next->prev = b->prev; b->prev->next = b->next (bio.c:127-128) take b = ring[k] out of the list. */
  lemma UnlinkRing(prev: seq<nat>, next: seq<nat>, ring: seq<nat>, k: nat)
    requires Ring(prev, next, ring) && 1 <= k < |ring| - 1
    ensures next[ring[k]] == ring[k + 1] && prev[ring[k]] == ring[k - 1]
    ensures Ring(prev[ring[k + 1] := ring[k - 1]], next[ring[k - 1] := ring[k + 1]], Without(ring, k))
  {
    assert prev[ring[k - 1 + 1]] == ring[k - 1];
    var prev', next' := prev[ring[k + 1] := ring[k - 1]], next[ring[k - 1] := ring[k + 1]];
    var r := Without(ring, k);
    assert forall i :: 0 <= i < |r| ==> r[i] == ring[if i < k then i else i + 1];
    forall i | 0 <= i < |r| - 1 ensures next'[r[i]] == r[i + 1] && prev'[r[i + 1]] == r[i] {
      var j := if i < k then i else i + 1;
      assert next[ring[j]] == ring[j + 1] && prev[ring[j + 1]] == ring[j];
    }
  }

  /** The four assignments that put b behind the head (bio.c:129-132, bio.c:50-54). */
  lemma LinkRing(prev: seq<nat>, next: seq<nat>, ring: seq<nat>, b: nat)
    requires Ring(prev, next, ring) && b < HEAD && b !in ring
    ensures next[HEAD] == ring[1] && ring[1] != b
    ensures Ring(prev[b := HEAD][ring[1] := b], next[b := ring[1]][HEAD := b], [HEAD, b] + ring[1..])
  {
    assert next[ring[0]] == ring[1];
    var prev', next' := prev[b := HEAD][ring[1] := b], next[b := ring[1]][HEAD := b];
    var r := [HEAD, b] + ring[1..];
    forall i | 0 <= i < |r| - 1 ensures next'[r[i]] == r[i + 1] && prev'[r[i + 1]] == r[i] {
      if i >= 2 {
        assert next[ring[i - 1]] == ring[i] && prev[ring[i]] == ring[i - 1];
      }
    }
  }

  /** Taking order[k] out of a list and putting it in front permutes the list. */
  lemma TakenOut(order: seq<nat>, k: nat)
    requires Permutation(order) && k < NBUF
    ensures order[k] !in Without(order, k)
    ensures Permutation([order[k]] + Without(order, k))
    ensures Without([HEAD] + order + [HEAD], k + 1) == [HEAD] + Without(order, k) + [HEAD]
    ensures Remove(order, order[k]) == Without(order, k)
  {
    RemoveIsWithout(order, k);
    var front := [order[k]] + Without(order, k);
    forall b: nat | b < NBUF ensures b in front {
      assert b in order;
      var i :| 0 <= i < NBUF && order[i] == b;
      assert b == front[if i == k then 0 else if i < k then i + 1 else i];
    }
  }

  // ---- The cache --------------------------------------------------------

  /** No real (dev, sector) has two buffers. */
  predicate Unique(buf: seq<Buf>) {
    forall i, j :: 0 <= i < j < |buf| && buf[i].dev != NODEV ==> !buf[j].Names(buf[i].dev, buf[i].sector)
  }

  /** A buffer names no sector, or holds one of the disk's; then, unless it is held or pinned, it agrees with the
      disk. */
  predicate Coherent(b: Buf, sectors: seq<Block>) {
    if b.dev == NODEV then !b.busy && !b.valid && !b.dirty
    else
      && b.valid && b.dev == ROOTDEV && b.sector < |sectors|
      && (!b.Pinned() ==> b.data == sectors[b.sector])
  }

  predicate AllCoherent(buf: seq<Buf>, sectors: seq<Block>) {
    |buf| == NBUF && Unique(buf) && forall i :: 0 <= i < |buf| ==> Coherent(buf[i], sectors)
  }

  /** Some buffer holds sector s. */
  predicate Cached(buf: seq<Buf>, s: nat) {
    exists i :: 0 <= i < |buf| && buf[i].Names(ROOTDEV, s)
  }

  /** Every buffer is held or pinned: bget finds no victim. */
  predicate Full(buf: seq<Buf>) {
    forall i :: 0 <= i < |buf| ==> buf[i].Pinned()
  }

  /** The disk with the pinned buffers 0..k written over it: what the callers of the cache see. */
  function Overlaid(buf: seq<Buf>, sectors: seq<Block>, k: nat): (r: seq<Block>)
    requires k <= |buf|
    ensures |r| == |sectors|
  {
    if k == 0 then sectors
    else
      var rest := Overlaid(buf, sectors, k - 1);
      var b := buf[k - 1];
      if b.dirty && b.dev == ROOTDEV && b.sector < |sectors| then rest[b.sector := b.data] else rest
  }

  function Contents(buf: seq<Buf>, sectors: seq<Block>): seq<Block> {
    Overlaid(buf, sectors, |buf|)
  }

  lemma {:induction false} OverlaidAt(buf: seq<Buf>, sectors: seq<Block>, k: nat, s: nat)
    requires Unique(buf) && k <= |buf| && s < |sectors|
    ensures (forall i :: 0 <= i < k && buf[i].Names(ROOTDEV, s) ==> !buf[i].dirty) ==>
      Overlaid(buf, sectors, k)[s] == sectors[s]
    ensures forall i :: 0 <= i < k && buf[i].Names(ROOTDEV, s) && buf[i].dirty ==>
      Overlaid(buf, sectors, k)[s] == buf[i].data
  {
    if k > 0 {
      OverlaidAt(buf, sectors, k - 1, s);
    }
  }

  /** Buffer b already holds sector s, or s is not cached and b is free to be recycled for it. */
  predicate Taken(buf: seq<Buf>, b: nat, s: nat)
    requires b < |buf|
  {
    buf[b].Names(ROOTDEV, s) || (!buf[b].dirty && !Cached(buf, s))
  }

  /** Every buffer has been released, and those whose last release is before b's are held or pinned. */
  ghost predicate LeastRecent(buf: seq<Buf>, releases: seq<nat>, b: nat) {
    && b in releases
    && forall i: nat :: i < |buf| ==>
         i in releases && (LastIndex(releases, i) < LastIndex(releases, b) ==> buf[i].Pinned())
  }

  /** The list tells: if the buffers behind b in it are pinned, then so are those released before it. */
  lemma BehindIsOlder(buf: seq<Buf>, releases: seq<nat>, k: nat)
    requires |buf| == NBUF && Permutation(ByRecency(releases)) && k < NBUF
    requires forall j :: k < j < NBUF ==> buf[ByRecency(releases)[j]].Pinned()
    ensures LeastRecent(buf, releases, ByRecency(releases)[k])
  {
    var order := ByRecency(releases);
    var b := order[k];
    ByRecencyMembers(releases, b);
    forall i: nat | i < NBUF
      ensures i in releases && (LastIndex(releases, i) < LastIndex(releases, b) ==> buf[i].Pinned())
    {
      ByRecencyMembers(releases, i);
      assert i in order;
      var j :| 0 <= j < NBUF && order[j] == i;
      if j < k {
        assert Before(order, i, b);
        ByRecencyOrdered(releases, i, b);
      }
    }
  }

  class Cache {
    const disk: Disk
    var buf: seq<Buf>                // bcache.buf
    var prev: seq<nat>               // the list links of buffers 0..NBUF and of the head
    var next: seq<nat>
    ghost var order: seq<nat>        // the list, most recently released first
    ghost var releases: seq<nat>     // the buffers in the order they were put at the front

    ghost predicate ListOk()
      reads this`prev, this`next, this`order, this`releases
    {
      Linked(prev, next, order) && Permutation(order) && order == ByRecency(releases)
    }

    ghost predicate Valid()
      reads this, disk
    {
      ListOk() && AllCoherent(buf, disk.sectors)
    }

    /** binit (bio.c:38-56): link every buffer into the list, free and naming no sector. */
    constructor (d: Disk)
      ensures Valid() && disk == d
      ensures forall i :: 0 <= i < NBUF ==> buf[i].dev == NODEV
    {
      disk := d;
      buf := seq(NBUF, _ => Buf(false, false, false, 0, 0, ZeroBlock()));
      prev, next := seq(NBUF + 1, _ => HEAD), seq(NBUF + 1, _ => HEAD);
      order, releases := [], [];
      new;
      for b: nat := 0 to NBUF
        invariant |buf| == NBUF && |order| == b && Linked(prev, next, order)
        invariant forall j :: 0 <= j < b ==> order[j] == b - 1 - j
        invariant forall j :: 0 <= j < NBUF ==> !buf[j].busy && !buf[j].valid && !buf[j].dirty
        invariant forall j :: 0 <= j < b ==> buf[j].dev == NODEV
        invariant order == ByRecency(releases)
      {
        buf := buf[b := buf[b].(dev := NODEV)];
        ghost var linked := order;
        PushFront(b);
        RemoveAbsent<nat>(linked, b);
      }
      forall b: nat | b < NBUF ensures b in order {
        assert order[NBUF - 1 - b] == b;
      }
    }

    /** Put a buffer that is not in the list at its front. */
    method PushFront(b: nat)
      requires b < NBUF && b !in order && Linked(prev, next, order)
      modifies this`prev, this`next, this`order, this`releases
      ensures Linked(prev, next, order) && order == [b] + old(order)
      ensures releases == old(releases) + [b] && releases[..|releases| - 1] == old(releases)
    {
      ghost var ring := [HEAD] + order + [HEAD];
      LinkRing(prev, next, ring, b);
      next := next[b := next[HEAD]];
      prev := prev[b := HEAD];
      prev := prev[next[HEAD] := b];
      next := next[HEAD := b];
      assert [HEAD, b] + ring[1..] == [HEAD] + ([b] + order) + [HEAD];
      order, releases := [b] + order, releases + [b];
    }

    /** Unlink a buffer and put it at the front of the list (bio.c:127-132). */
    method MoveToFront(b: nat)
      requires ListOk() && b < NBUF
      modifies this`prev, this`next, this`order, this`releases
      ensures ListOk() && releases == old(releases) + [b]
    {
      assert b in order;
      ghost var k :| 0 <= k < NBUF && order[k] == b;
      ghost var ring := [HEAD] + order + [HEAD];
      TakenOut(order, k);
      UnlinkRing(prev, next, ring, k + 1);
      prev := prev[next[b] := prev[b]];
      next := next[prev[b] := next[b]];
      order := Without(order, k);
      PushFront(b);
    }

    /** bget's first scan, forwards from the most recently released (bio.c:70-80); HEAD when nothing matches. */
    method Find(dev: nat, sector: nat) returns (b: nat)
      requires ListOk() && |buf| == NBUF
      ensures b < NBUF ==> buf[b].Names(dev, sector)
      ensures b >= NBUF ==> b == HEAD && forall i :: 0 <= i < NBUF ==> !buf[i].Names(dev, sector)
    {
      ghost var ring := [HEAD] + order + [HEAD];
      b := next[HEAD];
      ghost var i := 1;
      while b != HEAD
        invariant 1 <= i <= NBUF + 1 && b == ring[i]
        invariant forall j :: 0 <= j < i - 1 ==> !buf[order[j]].Names(dev, sector)
        decreases NBUF + 1 - i
      {
        assert b == order[i - 1];
        if buf[b].dev == dev && buf[b].sector == sector {
          return;
        }
        b := next[b];
        i := i + 1;
      }
      forall k: nat | k < NBUF ensures !buf[k].Names(dev, sector) {
        assert k in order;
      }
    }

    /** bget's second scan, backwards from the least recently released (bio.c:83-91); HEAD when there is no victim. */
    method Victim() returns (b: nat)
      requires ListOk() && |buf| == NBUF
      ensures b < NBUF ==> !buf[b].Pinned() && LeastRecent(buf, releases, b)
      ensures b >= NBUF ==> b == HEAD && Full(buf)
    {
      ghost var ring := [HEAD] + order + [HEAD];
      b := prev[HEAD];
      ghost var i := NBUF;
      assert prev[ring[NBUF + 1]] == ring[NBUF];
      while b != HEAD
        invariant 0 <= i <= NBUF && b == ring[i]
        invariant forall j :: i <= j < NBUF ==> buf[order[j]].Pinned()
        decreases i
      {
        assert b == order[i - 1];
        if !buf[b].busy && !buf[b].dirty {
          BehindIsOlder(buf, releases, i - 1);
          return;
        }
        assert prev[ring[i - 1 + 1]] == ring[i - 1];
        b := prev[b];
        i := i - 1;
      }
      forall k: nat | k < NBUF ensures buf[k].Pinned() {
        assert k in order;
      }
    }

    /** Return the requested sector's buffer, busy, recycling one if the sector is not cached (bio.c:61-93). */
    method Bget(dev: nat, sector: nat) returns (st: Status, b: nat)
      requires ListOk() && |buf| == NBUF
      modifies this`buf
      ensures |buf| == NBUF
      ensures st.Done? ==> b < NBUF && !old(buf)[b].busy
      ensures st.Done? && old(buf)[b].Names(dev, sector) ==> buf == old(buf)[b := old(buf)[b].(busy := true)]
      ensures st.Done? && !old(buf)[b].Names(dev, sector) ==>
        && (forall i :: 0 <= i < NBUF ==> !old(buf)[i].Names(dev, sector))
        && !old(buf)[b].dirty
        && buf == old(buf)[b := Buf(true, false, false, dev, sector, old(buf)[b].data)]
        && LeastRecent(old(buf), releases, b)
      ensures st.MustSleep? ==> b < NBUF && buf[b].Names(dev, sector) && buf[b].busy
      ensures st.Panic? ==> (forall i :: 0 <= i < NBUF ==> !buf[i].Names(dev, sector)) && Full(buf)
      ensures !st.Done? ==> buf == old(buf)
    {
      b := Find(dev, sector);
      if b != HEAD {
        if buf[b].busy {
          return MustSleep, b;
        }
        buf := buf[b := buf[b].(busy := true)];
        return Done, b;
      }
      b := Victim();
      if b == HEAD {
        return Panic("bget: no buffers"), b;
      }
      buf := buf[b := buf[b].(dev := dev)];
      buf := buf[b := buf[b].(sector := sector)];
      buf := buf[b := buf[b].(busy := true, valid := false, dirty := false)];
      return Done, b;
    }

    /** Return a busy buffer with the contents of the sector (bio.c:96-105). */
    method Bread(s: nat) returns (st: Status, b: nat)
      requires Valid() && s < |disk.sectors|
      modifies this`buf, disk
      ensures AllCoherent(buf, disk.sectors)
      ensures disk.sectors == old(disk.sectors) && disk.images == old(disk.images)
      ensures st.Done? ==> b < NBUF && !old(buf)[b].busy && Taken(old(buf), b, s)
      ensures st.Done? ==> buf == old(buf)[b := Buf(true, true, old(buf)[b].dirty, ROOTDEV, s, buf[b].data)]
      ensures st.Done? ==> buf[b].data == if old(buf)[b].dirty then old(buf)[b].data else disk.sectors[s]
      ensures st.Done? ==> buf[b].data == Contents(old(buf), disk.sectors)[s]
      ensures st.MustSleep? ==> b < NBUF && buf[b].Names(ROOTDEV, s) && buf[b].busy
      ensures st.Panic? ==> !Cached(buf, s) && Full(buf)
      ensures !st.Done? ==> buf == old(buf)
    {
      OverlaidAt(buf, disk.sectors, NBUF, s);
      st, b := Bget(ROOTDEV, s);
      if st.Done? && !buf[b].valid {
        var r;
        st, r := disk.Iderw(buf[b]);
        buf := buf[b := r];
      }
    }

    /** Write a held buffer through to the disk (bio.c:108-115). */
    method Bwrite(b: nat) returns (st: Status)
      requires Valid() && b < NBUF
      modifies this`buf, disk
      ensures st.Done? <==> old(buf)[b].busy
      ensures |buf| == NBUF
      ensures st.Done? ==> AllCoherent(buf, disk.sectors) && buf == old(buf)[b := old(buf)[b].(dirty := false)]
      ensures st.Done? ==>
        buf[b].sector < |old(disk.sectors)| && disk.sectors == old(disk.sectors)[buf[b].sector := buf[b].data]
      ensures st.Done? ==> disk.images == old(disk.images) + [disk.sectors]
    {
      if !buf[b].busy {
        return Panic("bwrite");
      }
      buf := buf[b := buf[b].(dirty := true)];
      var r;
      st, r := disk.Iderw(buf[b]);
      buf := buf[b := r];
    }

    /** Give a held buffer back; its holder has written or pinned what it changed (bio.c:119-138). */
    method Brelse(b: nat) returns (st: Status)
      requires Valid() && b < NBUF
      requires buf[b].busy && !buf[b].dirty ==> buf[b].data == disk.sectors[buf[b].sector]
      modifies this
      ensures st.Done? <==> old(buf)[b].busy
      ensures st.Done? ==> Valid() && releases == old(releases) + [b]
      ensures st.Done? ==> buf == old(buf)[b := old(buf)[b].(busy := false)]
    {
      if !buf[b].busy {
        return Panic("brelse");
      }
      MoveToFront(b);
      buf := buf[b := buf[b].(busy := false)];
      return Done;
    }
  }
}
