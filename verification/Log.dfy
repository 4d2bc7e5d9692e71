/** The write-ahead log (log.c) running over the buffer cache. */
module Log {
  import opened Bytes
  import opened BufferCache
  import opened LogTheory

  /** B_DIRTY pins exactly the listed sectors, and each of them is in the cache. */
  predicate PinsAre(buf: seq<Buf>, secs: seq<nat>) {
    && (forall i :: 0 <= i < |buf| ==> (buf[i].dirty <==> buf[i].dev == ROOTDEV && buf[i].sector in secs))
    && (forall j :: 0 <= j < |secs| ==> Cached(buf, secs[j]))
  }

  /** Nobody holds a buffer of the log area, which only the log itself reads and writes. */
  predicate LogFree(buf: seq<Buf>, g: Geometry) {
    forall i :: 0 <= i < |buf| && buf[i].busy ==> buf[i].sector < g.start
  }

  /** No process holds a buffer. */
  predicate NoneHeld(buf: seq<Buf>) {
    forall i :: 0 <= i < |buf| ==> !buf[i].busy
  }

  /** Buffer b is the only one a process holds. */
  predicate OnlyHeld(buf: seq<Buf>, b: nat) {
    forall i :: 0 <= i < |buf| && buf[i].busy ==> i == b
  }

  /** buf' is buf after sector s was written through it and released. */
  predicate WrittenThrough(buf: seq<Buf>, buf': seq<Buf>, s: nat, data: Block) {
    exists b :: 0 <= b < |buf| && !buf[b].busy && Taken(buf, b, s)
      && buf' == buf[b := Buf(false, true, false, ROOTDEV, s, data)]
  }

  /** Writing a sector through the cache unpins that sector and no other, and takes no buffer from its holder. */
  lemma WrittenThroughPins(buf: seq<Buf>, buf': seq<Buf>, s: nat, data: Block, secs: seq<nat>, secs': seq<nat>)
    requires WrittenThrough(buf, buf', s, data) && Unique(buf) && PinsAre(buf, secs)
    requires forall x :: x in secs' <==> x in secs && x != s
    ensures PinsAre(buf', secs')
    ensures forall i :: 0 <= i < |buf'| ==> buf'[i].busy == buf[i].busy && (buf'[i].Pinned() ==> buf'[i] == buf[i])
  {
    var b :| 0 <= b < |buf| && !buf[b].busy && Taken(buf, b, s)
      && buf' == buf[b := Buf(false, true, false, ROOTDEV, s, data)];
    forall j | 0 <= j < |secs'| ensures Cached(buf', secs'[j]) {
      var x := secs'[j];
      assert x in secs;
      var k :| 0 <= k < |secs| && secs[k] == x;
      assert Cached(buf, secs[k]);
      var i :| 0 <= i < |buf| && buf[i].Names(ROOTDEV, x);
      assert buf'[i].Names(ROOTDEV, x);
    }
  }

  /** If every buffer holds one of the listed sectors there are at least NBUF of them. */
  lemma {:induction false} Pigeonhole(buf: seq<Buf>, secs: seq<nat>)
    requires Unique(buf)
    requires forall i :: 0 <= i < |buf| ==> buf[i].dev == ROOTDEV && buf[i].sector in secs
    ensures |buf| <= |secs|
  {
    if buf != [] {
      var last := buf[|buf| - 1];
      var k :| 0 <= k < |secs| && secs[k] == last.sector;
      var rest := secs[..k] + secs[k + 1..];
      var init := buf[..|buf| - 1];
      forall i | 0 <= i < |init| ensures init[i].sector in rest {
        assert !last.Names(buf[i].dev, buf[i].sector);
        assert secs == secs[..k] + [secs[k]] + secs[k + 1..];
      }
      Pigeonhole(init, rest);
    }
  }

  /** A pinned buffer that nobody holds has the data of its log slot. */
  predicate PinsLogged(buf: seq<Buf>, img: Image, g: Geometry, secs: seq<nat>)
    requires g.Fits(img) && |secs| <= g.Capacity()
  {
    forall i, j :: 0 <= i < |buf| && 0 <= j < |secs| && buf[i].Names(ROOTDEV, secs[j]) && !buf[i].busy ==>
      buf[i].data == img[g.start + 1 + j]
  }

  /** Between operations the disk is the one the log_writes make, and the pins are the header's sectors. */
  predicate Agrees(buf: seq<Buf>, sectors: Image, base: Image, g: Geometry, ops: seq<LoggedWrite>) {
    && AllCoherent(buf, sectors) && LogFree(buf, g)
    && Quiescent(base, g) && Fitting(g, ops) && sectors == Logged(base, g, ops)
    && PinsAre(buf, SectorsOf(ops)) && PinsLogged(buf, sectors, g, SectorsOf(ops))
  }

  /** One more log_write, seen from the log. */
  lemma OneMoreWrite(base: Image, g: Geometry, ops: seq<LoggedWrite>, op: LoggedWrite)
    requires g.Fits(base) && Fitting(g, ops) && |SectorsOf(ops)| < g.Capacity() && op.sector < g.start
    ensures SectorsOf(ops + [op]) == Absorb(SectorsOf(ops), op.sector) && Fitting(g, ops + [op])
    ensures Logged(base, g, ops + [op]) == LogWrite(Logged(base, g, ops), g, SectorsOf(ops), op)
  {
    assert (ops + [op])[..|ops|] == ops;
  }

  lemma OneMoreImage(mark: seq<Image>, base: Image, g: Geometry, ops: seq<LoggedWrite>, op: LoggedWrite)
    requires g.Fits(base) && Fitting(g, ops) && Fitting(g, ops + [op])
    ensures mark + LogImages(base, g, ops + [op]) == mark + LogImages(base, g, ops) + [Logged(base, g, ops + [op])]
  {
    assert (ops + [op])[..|ops|] == ops;
  }

  /** One more log_write, seen from the cache: buffer b, still held, joins the pins. */
  lemma OneMorePin(buf: seq<Buf>, buf': seq<Buf>, secs: seq<nat>, b: nat, t: nat, data: Block)
    requires Unique(buf) && b < |buf| && buf[b].busy && buf[b].dev == ROOTDEV
    requires PinsAre(buf, secs) && t !in secs && WrittenThrough(buf, buf', t, data)
    ensures |buf'| == |buf| && buf'[b] == buf[b]
    ensures PinsAre(buf'[b := buf[b].(dirty := true)], Absorb(secs, buf[b].sector))
    ensures forall i :: 0 <= i < |buf| && buf'[i].Pinned() ==> buf'[i] == buf[i]
  {
    var s := buf[b].sector;
    WrittenThroughPins(buf, buf', t, data, secs, secs);
    var secs', pinned := Absorb(secs, s), buf'[b := buf[b].(dirty := true)];
    forall j | 0 <= j < |secs'| ensures Cached(pinned, secs'[j]) {
      if secs'[j] == s {
        assert pinned[b].Names(ROOTDEV, s);
      } else {
        assert Cached(buf', secs[j]);
        var i :| 0 <= i < |buf'| && buf'[i].Names(ROOTDEV, secs[j]);
        assert pinned[i].Names(ROOTDEV, secs[j]);
      }
    }
  }

  lemma OtherNames(buf: seq<Buf>, i: nat, b: nat)
    requires Unique(buf) && i < |buf| && b < |buf| && i != b && buf[i].dev == ROOTDEV == buf[b].dev
    ensures buf[i].sector != buf[b].sector
  {
    if i < b {
      assert !buf[b].Names(buf[i].dev, buf[i].sector);
    } else {
      assert !buf[i].Names(buf[b].dev, buf[b].sector);
    }
  }

  lemma SlotStays(secs: seq<nat>, s: nat, j: nat)
    requires j < |Absorb(secs, s)| && Absorb(secs, s)[j] != s
    ensures j < |secs| && secs[j] == Absorb(secs, s)[j] && j != IndexOf(secs, s)
  {
  }

  /** The slot of one sector does not disturb what the other pinned buffers have logged. */
  lemma OthersStayLogged(buf: seq<Buf>, pinned: seq<Buf>, img: Image, g: Geometry, secs: seq<nat>, b: nat)
    requires g.Fits(img) && |secs| < g.Capacity() && b < |buf| == |pinned|
    requires PinsLogged(buf, img, g, secs)
    requires pinned[b] == buf[b].(dirty := true) && pinned[b].busy && pinned[b].dev == ROOTDEV && Unique(pinned)
    requires forall i :: 0 <= i < |buf| && i != b && pinned[i].Pinned() ==> pinned[i] == buf[i]
    requires forall i ::
      0 <= i < |pinned| && pinned[i].dev == ROOTDEV && pinned[i].sector in Absorb(secs, buf[b].sector) ==>
        pinned[i].dirty
    ensures var s := buf[b].sector;
      PinsLogged(pinned, img[g.start + 1 + IndexOf(secs, s) := buf[b].data], g, Absorb(secs, s))
  {
    var s := buf[b].sector;
    var secs' := Absorb(secs, s);
    forall i, j | 0 <= i < |pinned| && 0 <= j < |secs'| && pinned[i].Names(ROOTDEV, secs'[j]) && !pinned[i].busy
      ensures pinned[i].data == img[g.start + 1 + IndexOf(secs, s) := buf[b].data][g.start + 1 + j]
    {
      OtherNames(pinned, i, b);
      SlotStays(secs, s, j);
      assert buf[i].Names(ROOTDEV, secs[j]);
    }
  }

  /** Setting B_DIRTY on a held buffer disturbs neither coherence nor the log area. */
  lemma PinCoherent(buf: seq<Buf>, sectors: Image, g: Geometry, b: nat)
    requires AllCoherent(buf, sectors) && LogFree(buf, g) && b < |buf| && buf[b].busy
    ensures AllCoherent(buf[b := buf[b].(dirty := true)], sectors)
    ensures LogFree(buf[b := buf[b].(dirty := true)], g)
  {
    var pinned := buf[b := buf[b].(dirty := true)];
    assert forall i :: 0 <= i < |buf| ==> pinned[i].dev == buf[i].dev && pinned[i].sector == buf[i].sector;
  }

  /** log_write keeps the log, the pins and the disk in agreement. */
  lemma LogWriteAgrees(buf: seq<Buf>, buf': seq<Buf>, sectors: Image, base: Image, g: Geometry, ops: seq<LoggedWrite>,
                       b: nat, s: nat, t: nat, data: Block)
    requires Agrees(buf, sectors, base, g, ops) && b < |buf|
    requires buf[b].busy && buf[b].Names(ROOTDEV, s) && buf[b].data == data && s < g.start
    requires |SectorsOf(ops)| < g.Capacity() && t == g.start + 1 + IndexOf(SectorsOf(ops), s)
    requires WrittenThrough(buf, buf', t, data) && AllCoherent(buf', sectors[t := data]) && LogFree(buf', g)
    ensures Agrees(buf'[b := buf'[b].(dirty := true)], sectors[t := data], base, g, ops + [LoggedWrite(s, data)])
  {
    OneMoreWrite(base, g, ops, LoggedWrite(s, data));
    OneMorePin(buf, buf', SectorsOf(ops), b, t, data);
    PinCoherent(buf', sectors[t := data], g, b);
    OthersStayLogged(buf, buf'[b := buf'[b].(dirty := true)], sectors, g, SectorsOf(ops), b);
  }

  /** With nothing held and fewer pins than buffers, a scan for a victim succeeds. */
  lemma RoomLeft(buf: seq<Buf>, secs: seq<nat>, held: seq<nat>)
    requires |buf| == NBUF && Unique(buf) && PinsAre(buf, secs) && |secs| + |held| < NBUF
    requires forall i :: 0 <= i < |buf| && buf[i].busy ==> buf[i].dev == ROOTDEV && buf[i].sector in held
    ensures !Full(buf)
  {
    if Full(buf) {
      forall i | 0 <= i < |buf| ensures buf[i].dev == ROOTDEV && buf[i].sector in secs + held {
        assert buf[i].Pinned();
      }
      Pigeonhole(buf, secs + held);
    }
  }

  /** Once a slot's buffer is held there is still a buffer for the home sector. */
  lemma SlotHeldRoom(buf: seq<Buf>, buf1: seq<Buf>, l: nat, t: nat, s: nat, pins: seq<nat>)
    requires |buf| == NBUF && Unique(buf) && Unique(buf1) && NoneHeld(buf) && PinsAre(buf, pins) && t != s && t !in pins
    requires l < NBUF == |buf1| && buf1 == buf[l := Buf(true, true, false, ROOTDEV, t, buf1[l].data)] &&
      Taken(buf, l, t)
    requires |pins| + (if s in pins then 1 else 2) <= NBUF
    ensures Cached(buf1, s) || !Full(buf1)
    ensures forall i :: 0 <= i < NBUF && buf1[i].Names(ROOTDEV, s) ==> !buf1[i].busy
  {
    var idle := buf[l := Buf(false, true, false, ROOTDEV, t, buf1[l].data)];
    assert WrittenThrough(buf, idle, t, buf1[l].data);
    WrittenThroughPins(buf, idle, t, buf1[l].data, pins, pins);
    if s in pins {
      var j :| 0 <= j < |pins| && pins[j] == s;
      assert Cached(idle, pins[j]);
      var i :| 0 <= i < NBUF && idle[i].Names(ROOTDEV, s);
      assert buf1[i].Names(ROOTDEV, s);
    } else if Full(buf1) {
      forall i | 0 <= i < NBUF ensures buf1[i].dev == ROOTDEV && buf1[i].sector in pins + [t] {
        assert buf1[i].Pinned() && (i != l ==> idle[i].dirty);
      }
      Pigeonhole(buf1, pins + [t]);
    }
  }

  /** The two buffers install_trans uses for one sector: the slot t in buffer l, its home s in buffer d. */
  lemma InstallPins(buf: seq<Buf>, l: nat, d: nat, t: nat, s: nat, data: Block, pins: seq<nat>, pins': seq<nat>)
    requires Unique(buf) && PinsAre(buf, pins) && NoneHeld(buf) && t !in pins && t != s
    requires l < |buf| && d < |buf| && Taken(buf, l, t)
    requires var buf1 := buf[l := Buf(true, true, false, ROOTDEV, t, data)]; Taken(buf1, d, s) && !buf1[d].busy
    requires Unique(buf[l := Buf(false, true, false, ROOTDEV, t, data)])
    requires forall x :: x in pins' <==> x in pins && x != s
    ensures var buf2 := buf[l := Buf(false, true, false, ROOTDEV, t, data)][d := Buf(false, true, false, ROOTDEV, s,
      data)];
      PinsAre(buf2, pins') && NoneHeld(buf2)
  {
    var held := buf[l := Buf(true, true, false, ROOTDEV, t, data)];
    var buf1 := buf[l := Buf(false, true, false, ROOTDEV, t, data)];
    assert forall i :: 0 <= i < |buf| ==>
        buf1[i].dev == held[i].dev && buf1[i].sector == held[i].sector && buf1[i].dirty == held[i].dirty;
    assert Cached(buf1, s) ==> Cached(held, s) by {
      if Cached(buf1, s) {
        var i :| 0 <= i < |buf1| && buf1[i].Names(ROOTDEV, s);
        assert held[i].Names(ROOTDEV, s);
      }
    }
    assert WrittenThrough(buf, buf1, t, data);
    WrittenThroughPins(buf, buf1, t, data, pins, pins);
    assert WrittenThrough(buf1, buf1[d := Buf(false, true, false, ROOTDEV, s, data)], s, data);
    WrittenThroughPins(buf1, buf1[d := Buf(false, true, false, ROOTDEV, s, data)], s, data, pins, pins');
  }

  lemma CommitImagesFlat(images: seq<Image>, img: Image, g: Geometry, secs: seq<nat>)
    requires g.Fits(img) && Loggable(g, secs) && secs != []
    ensures var committed := LogTheory.WriteHead(img, g, secs);
      images + CommitImages(img, g, secs)
      == images + [committed] + InstallImages(committed, g, secs, |secs|)
         + [LogTheory.WriteHead(Installed(committed, g, secs, |secs|), g, [])]
  {
  }

  lemma TransactionImagesFlat(mark: seq<Image>, base: Image, g: Geometry, ops: seq<LoggedWrite>)
    requires g.Fits(base) && Fitting(g, ops)
    ensures mark + LogImages(base, g, ops) + CommitImages(Logged(base, g, ops), g, SectorsOf(ops))
         == mark + TransactionImages(base, g, ops)
  {
  }

  lemma TailMembers(secs: seq<nat>, tail: nat)
    requires Distinct(secs) && tail < |secs|
    ensures secs[tail] in secs[tail..]
    ensures forall x :: x in secs[tail + 1..] <==> x in secs[tail..] && x != secs[tail]
  {
    var a, b := secs[tail..], secs[tail + 1..];
    assert a == [secs[tail]] + b;
    assert forall j :: 0 <= j < |b| ==> b[j] == secs[tail + 1 + j];
  }

  class Log {
    const cache: Cache
    const disk: Disk
    const g: Geometry                // log.start, log.size
    var busy: bool                   // a transaction is active
    var lh: seq<nat>                 // log.lh.sector[0..log.lh.n)
    ghost var base: Image            // the disk when the transaction began
    ghost var ops: seq<LoggedWrite>  // the log_writes of the transaction
    ghost var mark: seq<Image>       // the images written before the transaction

    ghost predicate Ready()
      reads this, cache, disk
    {
      cache.disk == disk && cache.Valid() && g.Fits(disk.sectors) && LogFree(cache.buf, g)
    }

    ghost predicate Valid()
      reads this, cache, disk
    {
      && cache.disk == disk && cache.ListOk() && lh == SectorsOf(ops) && Agrees(cache.buf, disk.sectors, base, g, ops)
      && disk.images == mark + LogImages(base, g, ops)
    }

    /** The idiom bread, fill, bwrite, brelse. */
    method WriteThrough(s: nat, data: Block) returns (st: Status)
      requires Ready() && s < |disk.sectors|
      modifies cache, disk
      ensures Ready()
      ensures st.Done? ==>
        disk.sectors == old(disk.sectors)[s := data] && disk.images == old(disk.images) + [disk.sectors]
      ensures st.Done? ==> WrittenThrough(old(cache.buf), cache.buf, s, data)
      ensures s >= g.start ==> !st.MustSleep?
      ensures st.Panic? ==> !Cached(cache.buf, s) && Full(cache.buf)
      ensures !st.Done? ==> disk.sectors == old(disk.sectors) && disk.images == old(disk.images)
      ensures !st.Done? ==> cache.buf == old(cache.buf)
    {
      var b;
      st, b := cache.Bread(s);
      if !st.Done? {
        return;
      }
      cache.buf := cache.buf[b := cache.buf[b].(data := data)];
      st := cache.Bwrite(b);
      st := cache.Brelse(b);
    }

    /** initlog (log.c:54-66) before it recovers: the geometry comes from the superblock. */
    constructor (c: Cache, g: Geometry)
      ensures cache == c && disk == c.disk && this.g == g && !busy && lh == []
    {
      cache, disk := c, c.disk;
      this.g := g;
      busy, lh := false, [];
      base, ops, mark := c.disk.sectors, [], c.disk.images;
    }

    /** log_write's absorption scan (log.c:175-178). */
    method FindSlot(s: nat) returns (i: nat)
      ensures i == IndexOf(lh, s)
    {
      i := 0;
      while i < |lh|
        invariant 0 <= i <= IndexOf(lh, s)
      {
        if lh[i] == s {
          break;
        }
        i := i + 1;
      }
    }

    /** Fill slot i with the data of a held buffer and pin the buffer (log.c:180-183, 186). */
    method WriteSlot(b: nat, i: nat) returns (st: Status)
      requires Valid() && b < NBUF && |lh| < g.Capacity() && i == IndexOf(lh, cache.buf[b].sector)
      requires cache.buf[b].busy && cache.buf[b].dev == ROOTDEV && cache.buf[b].sector < g.start
      modifies cache, disk
      ensures cache.ListOk()
      ensures st.Done? ==>
        Agrees(cache.buf, disk.sectors, base, g, ops + [LoggedWrite(old(cache.buf)[b].sector, old(cache.buf)[b].data)])
      ensures st.Done? ==> disk.images == old(disk.images) + [disk.sectors]
      ensures !st.Done? ==> Full(cache.buf) && cache.buf == old(cache.buf)
      ensures !st.Done? ==> disk.sectors == old(disk.sectors) && disk.images == old(disk.images)
    {
      ghost var buf, s, t, data := cache.buf, cache.buf[b].sector, g.start + 1 + i, cache.buf[b].data;
      st := WriteThrough(g.start + 1 + i, cache.buf[b].data);
      if st.Done? {
        LogWriteAgrees(buf, cache.buf, old(disk.sectors), base, g, ops, b, s, t, data);
        cache.buf := cache.buf[b := cache.buf[b].(dirty := true)];
      }
    }

    /** The part of log_write after its checks (log.c:175-186). */
    method Append(b: nat) returns (st: Status)
      requires Valid() && b < NBUF && |lh| < g.Capacity()
      requires cache.buf[b].busy && cache.buf[b].dev == ROOTDEV && cache.buf[b].sector < g.start
      modifies this`lh, this`ops, cache, disk
      ensures Valid()
      ensures st.Done? ==> ops == old(ops) + [LoggedWrite(old(cache.buf)[b].sector, old(cache.buf)[b].data)]
      ensures !st.Done? ==> ops == old(ops) && Full(old(cache.buf))
    {
      var s := cache.buf[b].sector;
      ghost var op := LoggedWrite(s, cache.buf[b].data);
      var i := FindSlot(s);
      st := WriteSlot(b, i);
      if st.Done? {
        assert SectorsOf(ops + [op]) == Absorb(lh, s) by {
          OneMoreWrite(base, g, ops, op);
        }
        OneMoreImage(mark, base, g, ops, op);
        lh := if i == |lh| then lh + [s] else lh;
        ops := ops + [op];
      }
    }

    /** Append a held buffer to the log and pin it (log.c:165-187). */
    method LogWrite(b: nat) returns (st: Status)
      requires Valid() && b < NBUF
      requires cache.buf[b].busy && cache.buf[b].dev == ROOTDEV && cache.buf[b].sector < g.start
      modifies this`lh, this`ops, cache, disk
      ensures Valid()
      ensures st.Done? ==> ops == old(ops) + [LoggedWrite(old(cache.buf)[b].sector, old(cache.buf)[b].data)]
      ensures !st.Done? ==> ops == old(ops)
      ensures |old(lh)| >= g.Capacity() ==> st == Panic("too big a transaction")
      ensures |old(lh)| < g.Capacity() && !busy ==> st == Panic("write outside of trans")
      ensures |old(lh)| < g.Capacity() < NBUF && busy && OnlyHeld(old(cache.buf), b) ==> st.Done?
    {
      if |lh| >= LOGSIZE || |lh| >= g.size - 1 {
        return Panic("too big a transaction");
      }
      if !busy {
        return Panic("write outside of trans");
      }
      if g.Capacity() < NBUF && OnlyHeld(cache.buf, b) {
        RoomLeft(cache.buf, lh, [cache.buf[b].sector]);
      }
      st := Append(b);
    }

    /** bread of a log slot and then of its home sector; the pins leave room for both. */
    method BreadPair(t: nat, s: nat, ghost pins: seq<nat>) returns (l: nat, d: nat)
      requires Ready() && t < |disk.sectors| && s < |disk.sectors| && t != s && t !in pins
      requires NoneHeld(cache.buf) && PinsAre(cache.buf, pins) && |pins| + (if s in pins then 1 else 2) <= NBUF
      modifies cache`buf, disk
      ensures cache.Valid() && l < NBUF && d < NBUF
      ensures disk.sectors == old(disk.sectors) && disk.images == old(disk.images)
      ensures Taken(old(cache.buf), l, t)
      ensures var buf1 := old(cache.buf)[l := Buf(true, true, false, ROOTDEV, t, disk.sectors[t])];
        && Taken(buf1, d, s) && !buf1[d].busy && Unique(buf1)
        && cache.buf == buf1[d := Buf(true, true, buf1[d].dirty, ROOTDEV, s, cache.buf[d].data)]
    {
      ghost var buf := cache.buf;
      var st;
      RoomLeft(buf, pins, []);
      st, l := cache.Bread(t);
      assert st.Done?;
      assert cache.buf == buf[l := Buf(true, true, false, ROOTDEV, t, disk.sectors[t])];
      SlotHeldRoom(buf, cache.buf, l, t, s, pins);
      st, d := cache.Bread(s);
    }

    /** memmove, bwrite and the two brelses for a held pair (log.c:77-80). */
    method CopyHome(l: nat, d: nat) returns (st: Status)
      requires cache.Valid() && cache.disk == disk && l < NBUF && d < NBUF && l != d
      requires cache.buf[l].busy && cache.buf[d].busy && !cache.buf[l].dirty
      requires cache.buf[l].data == disk.sectors[cache.buf[l].sector] && cache.buf[l].sector != cache.buf[d].sector
      modifies cache, disk
      ensures st.Done? && cache.Valid()
      ensures var data := old(cache.buf)[l].data;
        && cache.buf == old(cache.buf)[l := old(cache.buf)[l].(busy := false)]
                                      [d := old(cache.buf)[d].(busy := false, dirty := false, data := data)]
        && old(cache.buf)[d].sector < |old(disk.sectors)|
        && disk.sectors == old(disk.sectors)[old(cache.buf)[d].sector := data]
      ensures disk.images == old(disk.images) + [disk.sectors]
    {
      cache.buf := cache.buf[d := cache.buf[d].(data := cache.buf[l].data)];
      st := cache.Bwrite(d);
      st := cache.Brelse(l);
      st := cache.Brelse(d);
    }

    /** Copy one logged block home (the body of install_trans's loop, log.c:75-80). */
    method InstallOne(tail: nat, ghost pins: seq<nat>, ghost pins': seq<nat>) returns (st: Status)
      requires Ready() && Loggable(g, lh) && tail < |lh| && NoneHeld(cache.buf) && PinsAre(cache.buf, pins)
      requires forall x :: x in pins ==> x < g.start
      requires forall x :: x in pins' <==> x in pins && x != lh[tail]
      requires |pins| + (if lh[tail] in pins then 1 else 2) <= NBUF
      modifies cache, disk
      ensures st.Done? && Ready() && NoneHeld(cache.buf) && PinsAre(cache.buf, pins')
      ensures disk.sectors == old(disk.sectors)[lh[tail] := old(disk.sectors)[g.start + 1 + tail]]
      ensures disk.images == old(disk.images) + [disk.sectors]
    {
      ghost var buf, t, data := cache.buf, g.start + tail + 1, disk.sectors[g.start + tail + 1];
      var lbuf, dbuf := BreadPair(g.start + tail + 1, lh[tail], pins);
      st := CopyHome(lbuf, dbuf);
      assert Unique(buf[lbuf := Buf(false, true, false, ROOTDEV, t, data)]) by {
        assert Unique(buf[lbuf := Buf(true, true, false, ROOTDEV, t, data)]);
      }
      assert cache.buf == buf[lbuf := Buf(false, true, false, ROOTDEV, t, data)][dbuf := Buf(false, true, false,
          ROOTDEV, lh[tail], data)];
      InstallPins(buf, lbuf, dbuf, t, lh[tail], data, pins, pins');
    }

    /** Store the count and the sectors into a header block (log.c:107-110). */
    method FillHead(h: Block) returns (hb: Block)
      requires |lh| <= LOGSIZE && forall i :: 0 <= i < |lh| ==> lh[i] < UINT_LIMIT
      ensures hb == PutHead(h, lh)
    {
      hb := SetWord(h, 0, |lh|);
      for i := 0 to |lh|
        invariant hb == PutSectors(SetWord(h, 0, |lh|), lh, i)
      {
        hb := SetWord(hb, i + 1, lh[i]);
      }
    }

    /** Write the in-memory header to disk: the commit point (log.c:98-113). */
    method WriteHead(ghost pins: seq<nat>) returns (st: Status)
      requires Ready() && Loggable(g, lh) && NoneHeld(cache.buf) && PinsAre(cache.buf, pins) && |pins| < NBUF &&
        g.start !in pins
      modifies cache, disk
      ensures st.Done? && Ready() && NoneHeld(cache.buf) && PinsAre(cache.buf, pins)
      ensures disk.sectors == LogTheory.WriteHead(old(disk.sectors), g, lh)
      ensures disk.images == old(disk.images) + [disk.sectors]
    {
      ghost var buf := cache.buf;
      RoomLeft(buf, pins, []);
      var b;
      st, b := cache.Bread(g.start);
      var hb := FillHead(cache.buf[b].data);
      cache.buf := cache.buf[b := cache.buf[b].(data := hb)];
      st := cache.Bwrite(b);
      st := cache.Brelse(b);
      assert cache.buf == buf[b := Buf(false, true, false, ROOTDEV, g.start, hb)];
      assert WrittenThrough(buf, cache.buf, g.start, hb);
      WrittenThroughPins(buf, cache.buf, g.start, hb, pins, pins);
    }

    /** install_trans has copied the first `tail` blocks of the log in img; a commit has unpinned those. */
    ghost predicate Progress(img: Image, images: seq<Image>, committing: bool, tail: nat)
      reads this, cache, disk
    {
      && Ready() && g.Fits(img) && Loggable(g, lh) && tail <= |lh| && NoneHeld(cache.buf)
      && PinsAre(cache.buf, if committing then lh[tail..] else [])
      && disk.sectors == Installed(img, g, lh, tail)
      && disk.images == images + InstallImages(img, g, lh, tail)
    }

    method InstallNext(tail: nat, ghost img: Image, ghost images: seq<Image>, ghost committing: bool)
        returns (st: Status)
      requires Progress(img, images, committing, tail) && tail < |lh| && (committing ==> |lh| < NBUF)
      modifies cache, disk
      ensures st.Done? && Progress(img, images, committing, tail + 1)
    {
      InstalledElsewhere(img, g, lh, tail, g.start + 1 + tail);
      TailMembers(lh, tail);
      ghost var pins := if committing then lh[tail..] else [];
      ghost var pins' := if committing then lh[tail + 1..] else [];
      st := InstallOne(tail, pins, pins');
    }

    /** Copy the committed blocks from the log to their home location (log.c:69-82). */
    method InstallTrans(ghost committing: bool) returns (st: Status)
      requires Ready() && Loggable(g, lh) && (committing ==> |lh| < NBUF) && NoneHeld(cache.buf)
      requires PinsAre(cache.buf, if committing then lh else [])
      modifies cache, disk
      ensures st.Done? && Ready() && NoneHeld(cache.buf) && PinsAre(cache.buf, [])
      ensures disk.sectors == Installed(old(disk.sectors), g, lh, |lh|)
      ensures disk.images == old(disk.images) + InstallImages(old(disk.sectors), g, lh, |lh|)
    {
      st := Done;
      assert lh[0..] == lh;
      for tail := 0 to |lh|
        invariant st.Done? && Progress(old(disk.sectors), old(disk.images), committing, tail)
      {
        st := InstallNext(tail, old(disk.sectors), old(disk.images), committing);
      }
    }

    /** The common end of commit and recovery: install, then erase the header (log.c:119-121, log.c:146-148). */
    method InstallAndClear(ghost committing: bool) returns (st: Status)
      requires Ready() && Loggable(g, lh) && (committing ==> |lh| < NBUF) && NoneHeld(cache.buf)
      requires PinsAre(cache.buf, if committing then lh else [])
      modifies this`lh, this`base, this`ops, this`mark, cache, disk
      ensures st.Done? && Valid() && NoneHeld(cache.buf) && ops == []
      ensures disk.sectors == LogTheory.WriteHead(Installed(old(disk.sectors), g, old(lh), |old(lh)|), g, [])
      ensures disk.images == old(disk.images) + InstallImages(old(disk.sectors), g, old(lh), |old(lh)|) + [disk.sectors]
    {
      st := InstallTrans(committing);
      HeadRoundTrip(disk.sectors[g.start], []);
      lh := [];
      st := WriteHead([]);
      base, ops, mark := disk.sectors, [], disk.images;
    }

    /** Wait until no transaction is active, then start one (log.c:124-133). */
    method BeginTrans() returns (st: Status)
      requires Valid() && (!busy ==> ops == [])
      modifies this`busy
      ensures st == if old(busy) then MustSleep else Done
      ensures busy && Valid()
    {
      if busy {
        return MustSleep;
      }
      busy := true;
      return Done;
    }

    /** Commit a transaction that logged something (log.c:145-148). */
    method CommitBlocks() returns (st: Status)
      requires Valid() && NoneHeld(cache.buf) && g.Capacity() < NBUF && lh != []
      modifies this, cache, disk
      ensures st.Done? && Valid() && NoneHeld(cache.buf) && ops == []
      ensures disk.images == old(disk.images) + CommitImages(old(disk.sectors), g, old(lh))
      ensures disk.sectors == disk.images[|disk.images| - 1]
    {
      assert g.start !in lh;
      st := WriteHead(lh);
      st := InstallAndClear(true);
      CommitImagesFlat(old(disk.images), old(disk.sectors), g, old(lh));
    }

    /** Commit: write the header, install, erase the header (log.c:141-155). */
    method CommitTrans() returns (st: Status)
      requires Valid() && NoneHeld(cache.buf) && g.Capacity() < NBUF
      modifies this, cache, disk
      ensures st.Done? && Valid() && NoneHeld(cache.buf) && !busy && ops == []
      // the writes since begin_trans are exactly those of the crash theorem, and the last one is where the disk stands
      ensures disk.images == old(mark) + TransactionImages(old(base), g, old(ops))
      ensures disk.sectors == CrashedAfter(old(base), g, old(ops), |TransactionImages(old(base), g, old(ops))|)
    {
      SectorsOfNonempty(ops);
      st := Done;
      if |lh| > 0 {
        st := CommitBlocks();
        TransactionImagesFlat(old(mark), old(base), g, old(ops));
      }
      busy := false;
    }

    /** The count and the sectors of a header block (log.c:91-94). */
    method ListHead(h: Block) returns (secs: seq<nat>)
      requires Word(h, 0) <= LOGSIZE
      ensures secs == HeadSectors(h)
    {
      secs := [];
      for i := 0 to Word(h, 0)
        invariant secs == HeadSectors(h)[..i]
      {
        secs := secs + [Word(h, i + 1)];
      }
    }

    /** Read the log header from disk into memory (log.c:85-96). */
    method ReadHead() returns (st: Status)
      requires Ready() && Sound(disk.sectors, g) && NoneHeld(cache.buf) && PinsAre(cache.buf, [])
      modifies this`lh, cache, disk
      ensures st.Done? && Ready() && NoneHeld(cache.buf) && PinsAre(cache.buf, [])
      ensures disk.sectors == old(disk.sectors) && disk.images == old(disk.images)
      ensures lh == HeadSectors(disk.sectors[g.start])
    {
      ghost var buf := cache.buf;
      RoomLeft(buf, [], []);
      var b;
      st, b := cache.Bread(g.start);
      ghost var h := cache.buf[b].data;
      lh := ListHead(cache.buf[b].data);
      st := cache.Brelse(b);
      assert cache.buf == buf[b := Buf(false, true, false, ROOTDEV, g.start, h)];
      assert WrittenThrough(buf, cache.buf, g.start, h);
      WrittenThroughPins(buf, cache.buf, g.start, h, [], []);
    }

    /** Recovery: install whatever the header on disk says, then clear it (log.c:115-122). */
    method RecoverFromLog() returns (st: Status)
      requires Ready() && Sound(disk.sectors, g) && NoneHeld(cache.buf) && PinsAre(cache.buf, [])
      modifies this, cache, disk
      ensures st.Done? && Valid() && NoneHeld(cache.buf) && ops == []
      ensures disk.sectors == AfterRecovery(old(disk.sectors), g)
      ensures disk.images == old(disk.images) + RecoveryImages(old(disk.sectors), g)
    {
      st := ReadHead();
      st := InstallAndClear(false);
    }
  }
}
