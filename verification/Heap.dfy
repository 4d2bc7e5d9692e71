/**
 The user-level allocator of umalloc.c, from section 8.7 of The C Programming Language, 2nd ed.:
 a circular list of free blocks, sorted by address and coalesced. Addresses and sizes
 are in units of one header (8 bytes).
 */
module Heap {
  import opened Bytes
  import opened Recency
  import opened Wrappers

  import Vm

  datatype Header = Header(ptr: nat, size: nat)

  const BASE: nat := 1               // where the static header `base` lies: below everything sbrk returns
  const HEADER: nat := 8             // sizeof(Header)
  const MORECORE: nat := 4096

  function Size(mem: map<nat, Header>, a: nat): nat {
    if a in mem then mem[a].size else 0
  }

  // ---- The free list -------------------------------------------------------

  /** The address after ring[k] in the cycle. */
  function Succ(ring: seq<nat>, k: nat): nat {
    if k + 1 < |ring| then ring[k + 1] else BASE
  }

  /** The free list: a cycle through base, which alone has size 0. */
  predicate Listed(mem: map<nat, Header>, ring: seq<nat>) {
    && |ring| > 0 && ring[0] == BASE
    && forall k :: 0 <= k < |ring| ==>
      ring[k] in mem && mem[ring[k]].ptr == Succ(ring, k) && (mem[ring[k]].size == 0 <==> k == 0)
  }

  predicate Before(mem: map<nat, Header>, a: nat, b: nat) {
    a < b && a + Size(mem, a) <= b
  }

  /** In increasing order, without overlap. */
  predicate Ordered(mem: map<nat, Header>, ring: seq<nat>) {
    forall j, k {:trigger Before(mem, ring[j], ring[k])} :: 0 <= j < k < |ring| ==> Before(mem, ring[j], ring[k])
  }

  lemma Different(mem: map<nat, Header>, ring: seq<nat>, i: nat, j: nat)
    requires Ordered(mem, ring) && i < |ring| && j < |ring| && i != j
    ensures ring[i] != ring[j]
  {
    assert if i < j then Before(mem, ring[i], ring[j]) else Before(mem, ring[j], ring[i]);
  }

  predicate Touch(mem: map<nat, Header>, ring: seq<nat>, k: nat) {
    k + 1 < |ring| && ring[k] + Size(mem, ring[k]) == ring[k + 1]
  }

  predicate Clear(mem: map<nat, Header>, ring: seq<nat>, except: set<nat>) {
    forall k :: 0 <= k < |ring| && k !in except ==> !Touch(mem, ring, k)
  }

  /** No block reaches the next: touching blocks have been merged. */
  predicate Coalesced(mem: map<nat, Header>, ring: seq<nat>) {
    Clear(mem, ring, {})
  }

  /** The blocks of the list as a set. */
  ghost function Members(ring: seq<nat>): set<nat> {
    set k | 0 <= k < |ring| :: ring[k]
  }

  // ---- All blocks, free and live ---------------------------------------------

  predicate Disjoint(mem: map<nat, Header>, a: nat, b: nat) {
    a + Size(mem, a) <= b || b + Size(mem, b) <= a
  }

  predicate Covers(mem: map<nat, Header>, a: nat, u: nat) {
    a <= u < a + Size(mem, a)
  }

  predicate Covered(mem: map<nat, Header>, blocks: set<nat>, u: nat) {
    exists a :: a in blocks && Covers(mem, a, u)
  }

  predicate SameSizes(mem: map<nat, Header>, m: map<nat, Header>, blocks: set<nat>) {
    forall a :: a in blocks ==> Size(m, a) == Size(mem, a)
  }

  /** Conservation: the blocks are pairwise disjoint, and together they are the units obtained from sbrk. */
  ghost predicate Tiled(mem: map<nat, Header>, blocks: set<nat>, obtained: set<nat>) {
    && (forall a :: a in blocks ==> a == BASE || (BASE < a && Size(mem, a) > 0))
    && (forall a, b {:trigger Disjoint(mem, a, b)} :: a in blocks && b in blocks && a != b ==> Disjoint(mem, a, b))
    && (forall u: nat :: u in obtained <==> Covered(mem, blocks, u))
  }

  ghost predicate Sound(mem: map<nat, Header>, ring: seq<nat>, live: set<nat>, obtained: set<nat>) {
    Listed(mem, ring) && Ordered(mem, ring) && Members(ring) !! live && Tiled(mem, Members(ring) + live, obtained)
  }

  /** The invariant of the heap between calls. */
  ghost predicate HeapOk(mem: map<nat, Header>, ring: seq<nat>, live: set<nat>, obtained: set<nat>) {
    Sound(mem, ring, live, obtained) && Coalesced(mem, ring)
  }

  lemma TiledSame(mem: map<nat, Header>, m: map<nat, Header>, blocks: set<nat>, obtained: set<nat>)
    requires Tiled(mem, blocks, obtained) && SameSizes(mem, m, blocks)
    ensures Tiled(m, blocks, obtained)
  {
    forall a, b | a in blocks && b in blocks && a != b ensures Disjoint(m, a, b) {
      assert Disjoint(mem, a, b);
    }
    forall u: nat ensures u in obtained <==> Covered(m, blocks, u) {
      assert forall a :: a in blocks ==> Covers(m, a, u) == Covers(mem, a, u);
    }
  }

  // ---- Putting a block into the list --------------------------------------

  /** bp goes between ring[k] and the block after it. */
  predicate Between(ring: seq<nat>, k: nat, bp: nat) {
    k < |ring| && ring[k] < bp && (k + 1 < |ring| ==> bp < ring[k + 1])
  }

  function Insert(ring: seq<nat>, k: nat, bp: nat): seq<nat>
    requires k < |ring|
  {
    ring[..k + 1] + [bp] + ring[k + 1..]
  }

  function Link(mem: map<nat, Header>, p: nat, bp: nat): map<nat, Header>
    requires p in mem && bp in mem
  {
    mem[bp := Header(mem[p].ptr, mem[bp].size)][p := Header(bp, mem[p].size)]
  }

  lemma InsertAt(ring: seq<nat>, k: nat, bp: nat, j: nat)
    requires k < |ring| && j <= |ring|
    ensures Insert(ring, k, bp)[j] == if j <= k then ring[j] else if j == k + 1 then bp else ring[j - 1]
  {
  }

  lemma LinkSize(mem: map<nat, Header>, p: nat, bp: nat, a: nat)
    requires p in mem && bp in mem
    ensures Size(Link(mem, p, bp), a) == Size(mem, a)
  {
  }

  lemma InsertMembers(ring: seq<nat>, k: nat, bp: nat)
    requires k < |ring|
    ensures Members(Insert(ring, k, bp)) == Members(ring) + {bp}
  {
    var r := Insert(ring, k, bp);
    forall x | x in Members(ring) + {bp} ensures x in Members(r) {
      if x == bp {
        assert r[k + 1] == bp;
      } else {
        var j :| 0 <= j < |ring| && ring[j] == x;
        InsertAt(ring, k, bp, if j <= k then j else j + 1);
      }
    }
    forall x | x in Members(r) ensures x in Members(ring) + {bp} {
      var j :| 0 <= j < |r| && r[j] == x;
      InsertAt(ring, k, bp, j);
    }
  }

  lemma LinkListed(mem: map<nat, Header>, ring: seq<nat>, k: nat, bp: nat)
    requires Listed(mem, ring) && Ordered(mem, ring) && k < |ring| && bp in mem && mem[bp].size > 0
    requires forall j :: 0 <= j < |ring| ==> ring[j] != bp
    ensures Listed(Link(mem, ring[k], bp), Insert(ring, k, bp))
  {
    var m, r := Link(mem, ring[k], bp), Insert(ring, k, bp);
    forall j | 0 <= j < |r| ensures r[j] in m && m[r[j]].ptr == Succ(r, j) && (m[r[j]].size == 0 <==> j == 0) {
      InsertAt(ring, k, bp, j);
      if j + 1 < |r| {
        InsertAt(ring, k, bp, j + 1);
      }
      if j < k || j > k + 1 {
        var i := if j < k then j else j - 1;
        Different(mem, ring, i, k);
        assert m[r[j]] == mem[ring[i]];
      }
    }
  }

  lemma LinkOrdered(mem: map<nat, Header>, ring: seq<nat>, k: nat, bp: nat)
    requires Listed(mem, ring) && Ordered(mem, ring) && Between(ring, k, bp) && bp in mem
    requires forall j :: 0 <= j < |ring| ==> Disjoint(mem, bp, ring[j])
    ensures Ordered(Link(mem, ring[k], bp), Insert(ring, k, bp))
  {
    var m, r := Link(mem, ring[k], bp), Insert(ring, k, bp);
    forall i, j | 0 <= i < j < |r| ensures Before(m, r[i], r[j]) {
      InsertAt(ring, k, bp, i);
      InsertAt(ring, k, bp, j);
      LinkSize(mem, ring[k], bp, r[i]);
      if i == k + 1 {
        assert Disjoint(mem, bp, ring[j - 1]) && (j > k + 2 ==> Before(mem, ring[k + 1], ring[j - 1]));
      } else if j == k + 1 {
        assert Disjoint(mem, bp, ring[i]) && (i < k ==> Before(mem, ring[i], ring[k]));
      } else {
        assert Before(mem, if i <= k then ring[i] else ring[i - 1], if j <= k then ring[j] else ring[j - 1]);
      }
    }
  }

  /** A freed block joins the list: the heap is sound, and only it may touch its neighbours. */
  lemma LinkSound(mem: map<nat, Header>, ring: seq<nat>, k: nat, bp: nat, live: set<nat>, obtained: set<nat>)
    requires Sound(mem, ring, live, obtained) && bp in live && bp in mem && mem[bp].size > 0 && Between(ring, k, bp)
    ensures Sound(Link(mem, ring[k], bp), Insert(ring, k, bp), live - {bp}, obtained)
  {
    var m, r, blocks := Link(mem, ring[k], bp), Insert(ring, k, bp), Members(ring) + live;
    forall j | 0 <= j < |ring| ensures ring[j] != bp && Disjoint(mem, bp, ring[j]) {
      assert ring[j] in Members(ring) && bp in blocks && ring[j] in blocks;
    }
    LinkListed(mem, ring, k, bp);
    LinkOrdered(mem, ring, k, bp);
    InsertMembers(ring, k, bp);
    assert Members(r) + (live - {bp}) == blocks;
    forall a | a in blocks ensures Size(m, a) == Size(mem, a) {
      LinkSize(mem, ring[k], bp, a);
    }
    TiledSame(mem, m, blocks, obtained);
  }

  lemma LinkClear(mem: map<nat, Header>, ring: seq<nat>, k: nat, bp: nat)
    requires Listed(mem, ring) && Coalesced(mem, ring) && k < |ring| && bp in mem
    ensures Clear(Link(mem, ring[k], bp), Insert(ring, k, bp), {k, k + 1})
  {
    var m, r := Link(mem, ring[k], bp), Insert(ring, k, bp);
    forall j | 0 <= j < |r| && j !in {k, k + 1} ensures !Touch(m, r, j) {
      InsertAt(ring, k, bp, j);
      if j + 1 < |r| {
        InsertAt(ring, k, bp, j + 1);
      }
      LinkSize(mem, ring[k], bp, r[j]);
      assert !Touch(mem, ring, if j < k then j else j - 1);
    }
  }

  // ---- Merging a block with the next ---------------------------------------

  function Merge(mem: map<nat, Header>, p: nat, q: nat): map<nat, Header>
    requires p in mem && q in mem
  {
    mem[p := Header(mem[q].ptr, mem[p].size + mem[q].size)]
  }

  lemma WithoutAt(ring: seq<nat>, k: nat, j: nat)
    requires k + 1 < |ring| && j < |ring| - 1
    ensures Without(ring, k + 1)[j] == if j <= k then ring[j] else ring[j + 1]
  {
  }

  lemma MergeSize(mem: map<nat, Header>, p: nat, q: nat, a: nat)
    requires p in mem && q in mem
    ensures Size(Merge(mem, p, q), a) == if a == p then Size(mem, p) + Size(mem, q) else Size(mem, a)
  {
  }

  lemma WithoutMembers(mem: map<nat, Header>, ring: seq<nat>, k: nat)
    requires Ordered(mem, ring) && k + 1 < |ring|
    ensures Members(Without(ring, k + 1)) == Members(ring) - {ring[k + 1]} && ring[k + 1] in Members(ring)
  {
    var r := Without(ring, k + 1);
    forall x | x in Members(ring) - {ring[k + 1]} ensures x in Members(r) {
      var j :| 0 <= j < |ring| && ring[j] == x;
      WithoutAt(ring, k, if j <= k then j else j - 1);
    }
    forall x | x in Members(r) ensures x in Members(ring) - {ring[k + 1]} {
      var j :| 0 <= j < |r| && r[j] == x;
      WithoutAt(ring, k, j);
      Different(mem, ring, if j <= k then j else j + 1, k + 1);
    }
  }

  lemma MergeListed(mem: map<nat, Header>, ring: seq<nat>, k: nat)
    requires Listed(mem, ring) && Ordered(mem, ring) && 0 < k && k + 1 < |ring|
    ensures Listed(Merge(mem, ring[k], ring[k + 1]), Without(ring, k + 1))
  {
    var m, r := Merge(mem, ring[k], ring[k + 1]), Without(ring, k + 1);
    forall j | 0 <= j < |r| ensures r[j] in m && m[r[j]].ptr == Succ(r, j) && (m[r[j]].size == 0 <==> j == 0) {
      WithoutAt(ring, k, j);
      if j + 1 < |r| {
        WithoutAt(ring, k, j + 1);
      }
      if j != k {
        var i := if j < k then j else j + 1;
        Different(mem, ring, i, k);
        assert m[r[j]] == mem[ring[i]];
      }
    }
  }

  lemma MergeOrdered(mem: map<nat, Header>, ring: seq<nat>, k: nat)
    requires Listed(mem, ring) && Ordered(mem, ring) && Touch(mem, ring, k)
    ensures Ordered(Merge(mem, ring[k], ring[k + 1]), Without(ring, k + 1))
  {
    var m, r := Merge(mem, ring[k], ring[k + 1]), Without(ring, k + 1);
    forall i, j | 0 <= i < j < |r| ensures Before(m, r[i], r[j]) {
      WithoutAt(ring, k, i);
      WithoutAt(ring, k, j);
      MergeSize(mem, ring[k], ring[k + 1], r[i]);
      if i == k {
        assert Before(mem, ring[k], ring[k + 1]) && Before(mem, ring[k + 1], ring[j + 1]);
      } else {
        var i', j' := if i <= k then i else i + 1, if j <= k then j else j + 1;
        Different(mem, ring, i', k);
        assert Before(mem, ring[i'], ring[j']);
      }
    }
  }

  /** Two adjacent blocks become one. */
  lemma MergeTiled(mem: map<nat, Header>, p: nat, q: nat, blocks: set<nat>, obtained: set<nat>)
    requires Tiled(mem, blocks, obtained) && p in blocks && q in blocks && p in mem && q in mem && BASE < p &&
      p + Size(mem, p) == q
    ensures Tiled(Merge(mem, p, q), blocks - {q}, obtained)
  {
    var m := Merge(mem, p, q);
    forall a, b | a in blocks - {q} && b in blocks - {q} && a != b ensures Disjoint(m, a, b) {
      assert Disjoint(mem, a, b) && (a == p ==> Disjoint(mem, q, b)) && (b == p ==> Disjoint(mem, a, q));
    }
    forall u: nat ensures u in obtained <==> Covered(m, blocks - {q}, u) {
      assert Covers(m, p, u) == (Covers(mem, p, u) || Covers(mem, q, u));
      if a :| a in blocks && Covers(mem, a, u) {
        assert if a == q then Covers(m, p, u) && p in blocks - {q} else a in blocks - {q} && Covers(m, a, u);
      }
    }
  }

  lemma MergeTouch(mem: map<nat, Header>, ring: seq<nat>, k: nat, j: nat)
    requires Listed(mem, ring) && Ordered(mem, ring) && Touch(mem, ring, k)
    ensures Touch(Merge(mem, ring[k], ring[k + 1]), Without(ring, k + 1), j) ==
      Touch(mem, ring, if j < k then j else j + 1)
  {
    var r := Without(ring, k + 1);
    if j + 1 < |r| {
      WithoutAt(ring, k, j);
      WithoutAt(ring, k, j + 1);
      MergeSize(mem, ring[k], ring[k + 1], r[j]);
      if j != k {
        Different(mem, ring, if j < k then j else j + 1, k);
      }
    }
  }

  /** Merging ring[k] with the block it touches keeps the heap sound. */
  lemma MergeSound(mem: map<nat, Header>, ring: seq<nat>, k: nat, live: set<nat>, obtained: set<nat>)
    requires Sound(mem, ring, live, obtained) && 0 < k && Touch(mem, ring, k)
    ensures Sound(Merge(mem, ring[k], ring[k + 1]), Without(ring, k + 1), live, obtained)
  {
    MergeListed(mem, ring, k);
    MergeOrdered(mem, ring, k);
    WithoutMembers(mem, ring, k);
    assert ring[k] in Members(ring);
    MergeTiled(mem, ring[k], ring[k + 1], Members(ring) + live, obtained);
    assert Members(Without(ring, k + 1)) + live == Members(ring) + live - {ring[k + 1]};
  }

  // ---- free ------------------------------------------------------------------

  /** The headers after free, as umalloc.c:33-42 writes them. */
  function Relinked(mem: map<nat, Header>, p: nat, bp: nat): map<nat, Header>
    requires p in mem && bp in mem && mem[p].ptr in mem
  {
    var q := mem[p].ptr;
    var m := mem[bp := if bp + mem[bp].size == q then Header(mem[q].ptr, mem[bp].size + mem[q].size)
        else Header(q, mem[bp].size)];
    m[p := if p + m[p].size == bp then Header(m[bp].ptr, m[p].size + m[bp].size) else Header(bp, m[p].size)]
  }

  /** The list after free: bp inserted, merged with the next block if they touch, then with the previous one. */
  function Joined(mem: map<nat, Header>, ring: seq<nat>, k: nat): seq<nat> {
    if Touch(mem, ring, k) then Without(ring, k + 1) else ring
  }

  function JoinedMem(mem: map<nat, Header>, ring: seq<nat>, k: nat): map<nat, Header>
    requires k < |ring| && ring[k] in mem && (k + 1 < |ring| ==> ring[k + 1] in mem)
  {
    if Touch(mem, ring, k) then Merge(mem, ring[k], ring[k + 1]) else mem
  }

  /** Joining ring[k] with its successor if they touch. */
  lemma JoinSound(mem: map<nat, Header>, ring: seq<nat>, k: nat, live: set<nat>, obtained: set<nat>)
    requires Sound(mem, ring, live, obtained) && k < |ring| && (Touch(mem, ring, k) ==> 0 < k)
    ensures Sound(JoinedMem(mem, ring, k), Joined(mem, ring, k), live, obtained)
  {
    if Touch(mem, ring, k) {
      MergeSound(mem, ring, k, live, obtained);
    }
  }

  /** Afterwards they do not touch, and no new blocks do. */
  lemma JoinClear(mem: map<nat, Header>, ring: seq<nat>, k: nat, except: set<nat>)
    requires Listed(mem, ring) && Ordered(mem, ring) && k < |ring| && Clear(mem, ring, except + {k}) &&
      forall j :: j in except ==> j < k
    ensures Clear(JoinedMem(mem, ring, k), Joined(mem, ring, k), except)
  {
    if Touch(mem, ring, k) {
      var m, r := JoinedMem(mem, ring, k), Joined(mem, ring, k);
      forall j | 0 <= j < |r| && j !in except ensures !Touch(m, r, j) {
        var i := if j < k then j else j + 1;
        assert i !in except + {k} && i < |ring|;
        MergeTouch(mem, ring, k, j);
      }
    }
  }

  /** free, on values: linked in after ring[k], joined with the next block, then the previous one joined with it. */
  function FreedRing(mem: map<nat, Header>, ring: seq<nat>, k: nat, bp: nat): seq<nat>
    requires Listed(mem, ring) && k < |ring| && bp in mem && mem[bp].size > 0 && bp !in Members(ring)
  {
    var m, r := Link(mem, ring[k], bp), Insert(ring, k, bp);
    assert r[k + 1] == bp && (k + 2 < |r| ==> r[k + 2] == ring[k + 1]);
    Joined(JoinedMem(m, r, k + 1), Joined(m, r, k + 1), k)
  }

  lemma RelinkedIsMerged(mem: map<nat, Header>, p: nat, bp: nat)
    requires p in mem && bp in mem && p != bp && mem[p].ptr in mem && mem[p].ptr != bp && (mem[p].ptr == p ==> p < bp)
    ensures
      var q, m := mem[p].ptr, Link(mem, p, bp);
      var m1 := if bp + mem[bp].size == q then Merge(m, bp, q) else m;
      Relinked(mem, p, bp) == if p + mem[p].size == bp then Merge(m1, p, bp) else m1
  {
  }

  /** The C code's two header updates are the link and the two joins. */
  lemma RelinkedIsJoined(mem: map<nat, Header>, ring: seq<nat>, k: nat, bp: nat)
    requires Listed(mem, ring) && Ordered(mem, ring) && Between(ring, k, bp) && bp in mem && mem[bp].size > 0 &&
      bp !in Members(ring)
    ensures mem[ring[k]].ptr in mem && Listed(Link(mem, ring[k], bp), Insert(ring, k, bp))
    ensures var m, r := Link(mem, ring[k], bp), Insert(ring, k, bp);
      var m1, r1 := JoinedMem(m, r, k + 1), Joined(m, r, k + 1);
      k + 1 < |r1| && r1[k] == ring[k] && r1[k + 1] == bp && JoinedMem(m1, r1, k) == Relinked(mem, ring[k], bp)
  {
    LinkListed(mem, ring, k, bp);
    var p, q := ring[k], mem[ring[k]].ptr;
    assert q == Succ(ring, k);
    RelinkedIsMerged(mem, p, bp);
    var m, r := Link(mem, p, bp), Insert(ring, k, bp);
    assert r[k] == p && r[k + 1] == bp && (k + 2 < |r| ==> r[k + 2] == q);
    assert Touch(m, r, k + 1) <==> bp + mem[bp].size == q;
    var m1, r1 := JoinedMem(m, r, k + 1), Joined(m, r, k + 1);
    assert r1[k] == p && r1[k + 1] == bp && Size(m1, p) == mem[p].size;
  }

  lemma Linkable(mem: map<nat, Header>, ring: seq<nat>, k: nat, bp: nat, live: set<nat>, obtained: set<nat>)
    requires Sound(mem, ring, live, obtained) && bp in live && k < |ring|
    ensures bp in mem && mem[bp].size > 0 && bp !in Members(ring) && BASE < bp && ring[k] in mem &&
      mem[ring[k]].ptr in mem
  {
    assert mem[ring[k]].ptr == Succ(ring, k);
    assert ring[0] in Members(ring);
  }

  /** What free does: the block leaves the live ones, the heap stays coalesced, and the unit count at ring[k] or
      after it suffices. */
  lemma FreeOk(mem: map<nat, Header>, ring: seq<nat>, k: nat, bp: nat, live: set<nat>, obtained: set<nat>)
    requires HeapOk(mem, ring, live, obtained) && bp in live && Between(ring, k, bp)
    ensures bp in mem && mem[bp].size > 0 && bp !in Members(ring) && mem[ring[k]].ptr in mem
    ensures HeapOk(Relinked(mem, ring[k], bp), FreedRing(mem, ring, k, bp), live - {bp}, obtained)
    ensures k < |FreedRing(mem, ring, k, bp)| && FreedRing(mem, ring, k, bp)[k] == ring[k]
  {
    Linkable(mem, ring, k, bp, live, obtained);
    RelinkedIsJoined(mem, ring, k, bp);
    LinkSound(mem, ring, k, bp, live, obtained);
    LinkClear(mem, ring, k, bp);
    var m, r := Link(mem, ring[k], bp), Insert(ring, k, bp);
    JoinSound(m, r, k + 1, live - {bp}, obtained);
    JoinClear(m, r, k + 1, {k});
    var m1, r1 := JoinedMem(m, r, k + 1), Joined(m, r, k + 1);
    JoinSound(m1, r1, k, live - {bp}, obtained);
    JoinClear(m1, r1, k, {});
  }

  /** Free changes no other block's size, and the freed units are all at p or in the block after it. */
  lemma FreeSizes(mem: map<nat, Header>, p: nat, bp: nat)
    requires p in mem && bp in mem && p != bp && mem[p].ptr in mem
    ensures var m := Relinked(mem, p, bp);
      && (forall a :: a != p && a != bp ==> Size(m, a) == Size(mem, a))
      && (Size(m, p) >= Size(mem, bp) || (m[p].ptr == bp && Size(m, bp) >= Size(mem, bp)))
  {
  }

  lemma FreeStep(mem: map<nat, Header>, m: map<nat, Header>, ring: seq<nat>, k: nat, bp: nat, live: set<nat>,
                 obtained: set<nat>)
    returns (r: seq<nat>)
    requires HeapOk(mem, ring, live, obtained) && bp in live && Between(ring, k, bp) && bp in mem &&
      mem[ring[k]].ptr in mem
    requires bp !in Members(ring) && m == Relinked(mem, ring[k], bp)
    ensures HeapOk(m, r, live - {bp}, obtained) && ring[k] in Members(r)
    ensures SameSizes(mem, m, live - {bp})
    ensures ring[k] in m && (Size(m, ring[k]) >= Size(mem, bp) || Size(m, m[ring[k]].ptr) >= Size(mem, bp))
  {
    FreeOk(mem, ring, k, bp, live, obtained);
    FreeSizes(mem, ring[k], bp);
    r := FreedRing(mem, ring, k, bp);
    assert r[k] in Members(r) && ring[k] in Members(ring);
  }

  // ---- malloc: taking a whole block ------------------------------------------

  /** The list without the block after prev. */
  function Unlink(mem: map<nat, Header>, prev: nat, p: nat): map<nat, Header>
    requires prev in mem && p in mem
  {
    mem[prev := Header(mem[p].ptr, mem[prev].size)]
  }

  lemma UnlinkSize(mem: map<nat, Header>, prev: nat, p: nat, a: nat)
    requires prev in mem && p in mem
    ensures Size(Unlink(mem, prev, p), a) == Size(mem, a)
  {
  }

  lemma UnlinkListed(mem: map<nat, Header>, ring: seq<nat>, k: nat)
    requires Listed(mem, ring) && Ordered(mem, ring) && k + 1 < |ring|
    ensures Listed(Unlink(mem, ring[k], ring[k + 1]), Without(ring, k + 1))
  {
    var m, r := Unlink(mem, ring[k], ring[k + 1]), Without(ring, k + 1);
    forall j | 0 <= j < |r| ensures r[j] in m && m[r[j]].ptr == Succ(r, j) && (m[r[j]].size == 0 <==> j == 0) {
      WithoutAt(ring, k, j);
      if j + 1 < |r| {
        WithoutAt(ring, k, j + 1);
      }
      if j != k {
        var i := if j < k then j else j + 1;
        Different(mem, ring, i, k);
        assert m[r[j]] == mem[ring[i]];
      }
    }
  }

  lemma UnlinkOrdered(mem: map<nat, Header>, ring: seq<nat>, k: nat)
    requires Listed(mem, ring) && Ordered(mem, ring) && k + 1 < |ring|
    ensures Ordered(Unlink(mem, ring[k], ring[k + 1]), Without(ring, k + 1))
  {
    var m, r := Unlink(mem, ring[k], ring[k + 1]), Without(ring, k + 1);
    forall i, j | 0 <= i < j < |r| ensures Before(m, r[i], r[j]) {
      WithoutAt(ring, k, i);
      WithoutAt(ring, k, j);
      UnlinkSize(mem, ring[k], ring[k + 1], r[i]);
      var i', j' := if i <= k then i else i + 1, if j <= k then j else j + 1;
      assert Before(mem, ring[i'], ring[j']);
    }
  }

  lemma UnlinkCoalesced(mem: map<nat, Header>, ring: seq<nat>, k: nat)
    requires Listed(mem, ring) && Ordered(mem, ring) && Coalesced(mem, ring) && k + 1 < |ring|
    ensures Coalesced(Unlink(mem, ring[k], ring[k + 1]), Without(ring, k + 1))
  {
    var m, r := Unlink(mem, ring[k], ring[k + 1]), Without(ring, k + 1);
    forall j | 0 <= j < |r| ensures !Touch(m, r, j) {
      if j + 1 < |r| {
        WithoutAt(ring, k, j);
        WithoutAt(ring, k, j + 1);
        UnlinkSize(mem, ring[k], ring[k + 1], r[j]);
        if j == k {
          assert Before(mem, ring[k], ring[k + 1]) && Before(mem, ring[k + 1], ring[k + 2]);
        } else {
          assert !Touch(mem, ring, if j < k then j else j + 1);
        }
      }
    }
  }

  /** Handing out a block that fits exactly (umalloc.c:76-77). */
  lemma UnlinkOk(mem: map<nat, Header>, ring: seq<nat>, k: nat, live: set<nat>, obtained: set<nat>)
    requires HeapOk(mem, ring, live, obtained) && k + 1 < |ring|
    ensures HeapOk(Unlink(mem, ring[k], ring[k + 1]), Without(ring, k + 1), live + {ring[k + 1]}, obtained)
  {
    var m, r, blocks := Unlink(mem, ring[k], ring[k + 1]), Without(ring, k + 1), Members(ring) + live;
    UnlinkListed(mem, ring, k);
    UnlinkOrdered(mem, ring, k);
    UnlinkCoalesced(mem, ring, k);
    WithoutMembers(mem, ring, k);
    assert Members(r) + (live + {ring[k + 1]}) == blocks;
    forall a | a in blocks ensures Size(m, a) == Size(mem, a) {
      UnlinkSize(mem, ring[k], ring[k + 1], a);
    }
    TiledSame(mem, m, blocks, obtained);
  }

  lemma UnlinkStep(mem: map<nat, Header>, m: map<nat, Header>, ring: seq<nat>, k: nat, live: set<nat>,
                   obtained: set<nat>) returns (r: seq<nat>)
    requires HeapOk(mem, ring, live, obtained) && k + 1 < |ring| && m == Unlink(mem, ring[k], ring[k + 1])
    ensures HeapOk(m, r, live + {ring[k + 1]}, obtained) && ring[k] in Members(r)
    ensures ring[k + 1] !in live && Size(m, ring[k + 1]) == Size(mem, ring[k + 1]) && SameSizes(mem, m, live)
  {
    UnlinkOk(mem, ring, k, live, obtained);
    WithoutMembers(mem, ring, k);
    r := Without(ring, k + 1);
    assert r[k] in Members(r);
    forall a ensures Size(m, a) == Size(mem, a) {
      UnlinkSize(mem, ring[k], ring[k + 1], a);
    }
  }

  // ---- malloc: carving a block ------------------------------------------------

  /** The headers after n units have been cut from the end of p (umalloc.c:79-81). */
  function Carved(mem: map<nat, Header>, p: nat, n: nat): map<nat, Header>
    requires p in mem && 0 < n < mem[p].size
  {
    var np := p + mem[p].size - n;
    mem[p := Header(mem[p].ptr, mem[p].size - n)][np := Header(if np in mem then mem[np].ptr else 0, n)]
  }

  lemma CarveSize(mem: map<nat, Header>, p: nat, n: nat, a: nat)
    requires p in mem && 0 < n < mem[p].size
    ensures Size(Carved(mem, p, n), a) == if a == p then mem[p].size - n else if a == p + mem[p].size - n then n
      else Size(mem, a)
  {
  }

  lemma CarveDisjoint(mem: map<nat, Header>, p: nat, n: nat, blocks: set<nat>, a: nat, b: nat)
    requires p in mem && 0 < n < mem[p].size && p in blocks
    requires forall x, y :: x in blocks && y in blocks && x != y ==> Disjoint(mem, x, y)
    requires (a in blocks || a == p + mem[p].size - n) && (b in blocks || b == p + mem[p].size - n) && a != b
    ensures Disjoint(Carved(mem, p, n), a, b)
  {
    var np := p + mem[p].size - n;
    assert np in blocks ==> Disjoint(mem, np, p);
    CarveSize(mem, p, n, a);
    CarveSize(mem, p, n, b);
    var x, y := if a == np then p else a, if b == np then p else b;
    assert x != y ==> Disjoint(mem, x, y);
  }

  lemma CarveCovered(mem: map<nat, Header>, p: nat, n: nat, blocks: set<nat>, u: nat)
    requires p in mem && 0 < n < mem[p].size && p in blocks && p + mem[p].size - n !in blocks
    ensures Covered(Carved(mem, p, n), blocks + {p + mem[p].size - n}, u) == Covered(mem, blocks, u)
  {
    var m, np := Carved(mem, p, n), p + mem[p].size - n;
    assert Covers(mem, p, u) == (Covers(m, p, u) || Covers(m, np, u));
    forall a | a in blocks && a != p ensures Covers(m, a, u) == Covers(mem, a, u) {
      CarveSize(mem, p, n, a);
    }
    assert p in blocks + {np} && np in blocks + {np};
    if a :| a in blocks && Covers(mem, a, u) {
      assert a in blocks + {np};
    }
  }

  /** One block becomes two. */
  lemma CarveTiled(mem: map<nat, Header>, p: nat, n: nat, blocks: set<nat>, obtained: set<nat>)
    requires Tiled(mem, blocks, obtained) && p in blocks && BASE < p && p in mem && 0 < n < mem[p].size
    ensures p + mem[p].size - n !in blocks && Tiled(Carved(mem, p, n), blocks + {p + mem[p].size - n}, obtained)
  {
    var m, np := Carved(mem, p, n), p + mem[p].size - n;
    assert np in blocks ==> Disjoint(mem, np, p);
    forall a | a in blocks + {np} ensures a == BASE || (BASE < a && Size(m, a) > 0) {
      CarveSize(mem, p, n, a);
    }
    forall a, b | a in blocks + {np} && b in blocks + {np} && a != b ensures Disjoint(m, a, b) {
      CarveDisjoint(mem, p, n, blocks, a, b);
    }
    forall u: nat ensures u in obtained <==> Covered(m, blocks + {np}, u) {
      CarveCovered(mem, p, n, blocks, u);
    }
  }

  lemma CarveListedAt(mem: map<nat, Header>, ring: seq<nat>, k: nat, n: nat, j: nat)
    requires Listed(mem, ring) && Ordered(mem, ring) && Coalesced(mem, ring) && j < |ring|
    requires 0 < k < |ring| && 0 < n < mem[ring[k]].size && ring[k] + mem[ring[k]].size - n != ring[j]
    ensures var m := Carved(mem, ring[k], n);
      ring[j] in m && m[ring[j]].ptr == Succ(ring, j) && (m[ring[j]].size == 0 <==> j == 0) && !Touch(m, ring, j)
  {
    if j != k {
      Different(mem, ring, j, k);
    }
    assert !Touch(mem, ring, j);
    if k + 1 < |ring| {
      assert Before(mem, ring[k], ring[k + 1]);
    }
  }

  lemma CarveListed(mem: map<nat, Header>, ring: seq<nat>, k: nat, n: nat)
    requires Listed(mem, ring) && Ordered(mem, ring) && Coalesced(mem, ring)
    requires 0 < k < |ring| && 0 < n < mem[ring[k]].size && ring[k] + mem[ring[k]].size - n !in Members(ring)
    ensures Listed(Carved(mem, ring[k], n), ring) && Ordered(Carved(mem, ring[k], n), ring) &&
      Coalesced(Carved(mem, ring[k], n), ring)
  {
    var m := Carved(mem, ring[k], n);
    forall j | 0 <= j < |ring|
      ensures ring[j] in m && m[ring[j]].ptr == Succ(ring, j) && (m[ring[j]].size == 0 <==> j == 0) &&
        !Touch(m, ring, j)
    {
      assert ring[j] in Members(ring);
      CarveListedAt(mem, ring, k, n, j);
    }
    CarveOrdered(mem, ring, k, n);
  }

  lemma CarveOrdered(mem: map<nat, Header>, ring: seq<nat>, k: nat, n: nat)
    requires Listed(mem, ring) && Ordered(mem, ring) && 0 < k < |ring| && 0 < n < mem[ring[k]].size
    requires forall j :: 0 <= j < |ring| ==> ring[j] != ring[k] + mem[ring[k]].size - n
    ensures Ordered(Carved(mem, ring[k], n), ring)
  {
    forall i, j | 0 <= i < j < |ring| ensures Before(Carved(mem, ring[k], n), ring[i], ring[j]) {
      assert Before(mem, ring[i], ring[j]);
      CarveSize(mem, ring[k], n, ring[i]);
    }
  }

  /** Handing out the end of a larger block (umalloc.c:78-82). */
  lemma CarveOk(mem: map<nat, Header>, ring: seq<nat>, k: nat, n: nat, live: set<nat>, obtained: set<nat>)
    requires HeapOk(mem, ring, live, obtained) && 0 < k < |ring| && 0 < n < mem[ring[k]].size
    ensures ring[k] + mem[ring[k]].size - n !in Members(ring) + live
    ensures HeapOk(Carved(mem, ring[k], n), ring, live + {ring[k] + mem[ring[k]].size - n}, obtained)
  {
    var blocks, np := Members(ring) + live, ring[k] + mem[ring[k]].size - n;
    assert ring[k] in Members(ring) && Before(mem, ring[0], ring[k]);
    CarveTiled(mem, ring[k], n, blocks, obtained);
    CarveListed(mem, ring, k, n);
    assert blocks + {np} == Members(ring) + (live + {np});
  }

  lemma CarveStep(mem: map<nat, Header>, m: map<nat, Header>, ring: seq<nat>, k: nat, n: nat, live: set<nat>,
                  obtained: set<nat>, a: nat)
    requires HeapOk(mem, ring, live, obtained) && 0 < k < |ring| && 0 < n < mem[ring[k]].size
    requires m == Carved(mem, ring[k], n) && a == ring[k] + mem[ring[k]].size - n
    ensures HeapOk(m, ring, live + {a}, obtained)
    ensures a !in live && Size(m, a) == n && SameSizes(mem, m, live)
  {
    CarveOk(mem, ring, k, n, live, obtained);
    forall b | b in live ensures Size(m, b) == Size(mem, b) {
      assert ring[k] in Members(ring) && b != ring[k];
      CarveSize(mem, ring[k], n, b);
    }
    CarveSize(mem, ring[k], n, a);
  }

  // ---- morecore ------------------------------------------------------------------

  function Units(a: nat, n: nat): (r: set<nat>)
    ensures forall u :: u in r <==> a <= u < a + n
  {
    if n == 0 then {} else Units(a, n - 1) + {a + n - 1}
  }

  /** Everything obtained lies below hp, so every block ends there. */
  lemma BelowGrant(mem: map<nat, Header>, blocks: set<nat>, obtained: set<nat>, hp: nat)
    requires Tiled(mem, blocks, obtained) && BASE < hp && (forall u :: u in obtained ==> u < hp) && Size(mem, BASE) == 0
    ensures forall a :: a in blocks ==> a != hp && a + Size(mem, a) <= hp
  {
    forall a | a in blocks ensures a != hp && a + Size(mem, a) <= hp {
      if a != BASE {
        var u := a + Size(mem, a) - 1;
        assert Covers(mem, a, u) && Covered(mem, blocks, u);
      }
    }
  }

  lemma GrantTiled(mem: map<nat, Header>, blocks: set<nat>, obtained: set<nat>, hp: nat, n: nat)
    requires Tiled(mem, blocks, obtained) && 0 < n && BASE < hp && forall a :: a in blocks ==>
      a != hp && a + Size(mem, a) <= hp
    ensures Tiled(mem[hp := Header(0, n)], blocks + {hp}, obtained + Units(hp, n))
  {
    var m := mem[hp := Header(0, n)];
    assert SameSizes(mem, m, blocks);
    forall a, b | a in blocks + {hp} && b in blocks + {hp} && a != b ensures Disjoint(m, a, b) {
      assert a in blocks && b in blocks ==> Disjoint(mem, a, b);
    }
    forall u: nat ensures u in obtained + Units(hp, n) <==> Covered(m, blocks + {hp}, u) {
      assert Covers(m, hp, u) <==> hp <= u < hp + n;
      assert hp in blocks + {hp};
      if a :| a in blocks && Covers(mem, a, u) {
        assert a in blocks + {hp} && Covers(m, a, u);
      }
    }
  }

  lemma GrantListed(mem: map<nat, Header>, ring: seq<nat>, hp: nat, n: nat)
    requires Listed(mem, ring) && Ordered(mem, ring) && Coalesced(mem, ring) && forall j :: 0 <= j < |ring| ==>
      ring[j] != hp
    ensures var m := mem[hp := Header(0, n)]; Listed(m, ring) && Ordered(m, ring) && Coalesced(m, ring)
  {
    var m := mem[hp := Header(0, n)];
    forall j | 0 <= j < |ring| ensures !Touch(m, ring, j) {
      assert !Touch(mem, ring, j);
    }
    forall i, j | 0 <= i < j < |ring| ensures Before(m, ring[i], ring[j]) {
      assert Before(mem, ring[i], ring[j]);
    }
  }

  /** A block above everything obtained so far joins the live ones. */
  lemma GrantOk(mem: map<nat, Header>, ring: seq<nat>, live: set<nat>, obtained: set<nat>, hp: nat, n: nat)
    requires HeapOk(mem, ring, live, obtained) && 0 < n && BASE < hp && forall u :: u in obtained ==> u < hp
    ensures HeapOk(mem[hp := Header(0, n)], ring, live + {hp}, obtained + Units(hp, n)) && hp !in live
  {
    var blocks := Members(ring) + live;
    assert ring[0] == BASE;
    BelowGrant(mem, blocks, obtained, hp);
    forall j | 0 <= j < |ring| ensures ring[j] != hp {
      assert ring[j] in Members(ring) && ring[j] in blocks;
    }
    GrantListed(mem, ring, hp, n);
    GrantTiled(mem, blocks, obtained, hp, n);
    assert blocks + {hp} == Members(ring) + (live + {hp});
  }

  /** The position for bp: the last block below it. */
  function Place(ring: seq<nat>, bp: nat): (k: nat)
    requires |ring| > 0 && ring[0] < bp
    ensures k < |ring| && ring[k] < bp && forall j :: k < j < |ring| ==> bp <= ring[j]
  {
    var last := |ring| - 1;
    if ring[last] < bp then last else Place(ring[..last], bp)
  }

  /** The conditions of umalloc.c:30-31 under which the search stops at p, with q after it. */
  predicate Here(p: nat, q: nat, bp: nat) {
    p < bp < q || (p >= q && (bp > p || bp < q))
  }

  /** The search stops at the place for bp and nowhere else. */
  lemma AtPlace(mem: map<nat, Header>, ring: seq<nat>, live: set<nat>, bp: nat, k: nat)
    requires Listed(mem, ring) && Ordered(mem, ring) && Members(ring) !! live && bp in live && BASE < bp && k < |ring|
    ensures ring[0] < bp && mem[ring[k]].ptr == Succ(ring, k)
    ensures Here(ring[k], Succ(ring, k), bp) <==> k == Place(ring, bp)
    ensures k == Place(ring, bp) ==> Between(ring, k, bp)
  {
    var t := Place(ring, bp);
    forall j | 0 <= j < |ring| ensures bp != ring[j] {
      assert ring[j] in Members(ring);
    }
    if k + 1 < |ring| {
      assert Before(mem, ring[k], ring[k + 1]);
    }
    if k > 0 {
      assert Before(mem, ring[0], ring[k]);
    }
    if k + 1 < t {
      assert Before(mem, ring[k + 1], ring[t]);
    } else if k > t {
      assert bp < ring[k];
    }
  }

  lemma Neighbour(mem: map<nat, Header>, ring: seq<nat>, k: nat)
    requires Listed(mem, ring) && Ordered(mem, ring) && k < |ring|
    ensures ring[k] in mem && ring[k] != 0 && mem[ring[k]].ptr == Succ(ring, k) && Succ(ring, k) in mem
    ensures mem[Succ(ring, k)].size > 0 ==> k + 1 < |ring|
    ensures forall f :: 0 <= f < |ring| ==> (Succ(ring, k) == ring[f] <==> f == After(|ring|, k))
  {
    if k > 0 {
      assert Before(mem, ring[0], ring[k]);
    }
    var i := if k + 1 < |ring| then k + 1 else 0;
    assert Succ(ring, k) == ring[i];
    forall f | 0 <= f < |ring| && f != i ensures ring[f] != ring[i] {
      Different(mem, ring, f, i);
    }
  }

  /** Steps from index j to index t, forward around a cycle of n. */
  function Steps(n: nat, j: nat, t: nat): nat
    requires j < n && t < n
  {
    if j <= t then t - j else n - j + t
  }

  /** The index after k around a cycle of n. */
  function After(n: nat, k: nat): (r: nat)
    requires k < n
    ensures r < n
  {
    if k + 1 < n then k + 1 else 0
  }

  /** Some block of the list has n units. */
  ghost predicate FreeFits(mem: map<nat, Header>, ring: seq<nat>, n: nat) {
    exists j :: 0 <= j < |ring| && Size(mem, ring[j]) >= n
  }

  /** The blocks after index f, going round up to and without index j, are too small for n units. */
  ghost predicate Passed(mem: map<nat, Header>, ring: seq<nat>, f: nat, j: nat, n: nat) {
    && f < |ring| && j < |ring|
    && forall i :: 0 <= i < |ring| && Steps(|ring|, After(|ring|, f), i) < Steps(|ring|, After(|ring|, f), j) ==>
         Size(mem, ring[i]) < n
  }

  /** addr is where the last n units of a block begin, the first after freep that has them; freep' is the block before
      it. */
  ghost predicate FromFirstFit(mem: map<nat, Header>, ring: seq<nat>, freep: nat, n: nat, addr: nat, freep': nat) {
    exists f, k :: 0 <= f < |ring| && 0 <= k < |ring| && ring[f] == freep && ring[k] == freep'
      && FitsAfter(mem, ring, f, k, n, addr)
  }

  ghost predicate FitsAfter(mem: map<nat, Header>, ring: seq<nat>, f: nat, k: nat, n: nat, addr: nat)
    requires k < |ring|
  {
    var j := After(|ring|, k);
    Passed(mem, ring, f, j, n) && Size(mem, ring[j]) >= n && addr == ring[j] + Size(mem, ring[j]) - n
  }

  lemma PassedMore(mem: map<nat, Header>, ring: seq<nat>, f: nat, j: nat, n: nat)
    requires Passed(mem, ring, f, j, n) && Size(mem, ring[j]) < n
    ensures j != f ==> Passed(mem, ring, f, After(|ring|, j), n)
    ensures j == f ==> !FreeFits(mem, ring, n)
  {
    forall i | 0 <= i < |ring| && i != j && Steps(|ring|, After(|ring|, f), i) <= Steps(|ring|, After(|ring|, f), j)
      ensures Size(mem, ring[i]) < n
    {
    }
  }

  datatype More = Grown | Refused | Overran

  /** What malloc comes to: a block, a null pointer, or memory past the break used as if granted. */
  datatype Block = At(addr: nat) | Null | Overrun

  class Allocator {
    var mem: map<nat, Header>
    var freep: nat                   // 0 before the first malloc
    ghost var ring: seq<nat>         // the free list from base on
    ghost var live: set<nat>         // the headers of the blocks handed out
    ghost var obtained: set<nat>     // every unit sbrk has granted

    ghost predicate Valid()
      reads this
    {
      if freep == 0 then ring == [] && live == {} && obtained == {}
      else freep in Members(ring) && HeapOk(mem, ring, live, obtained)
    }

    constructor ()
      ensures Valid() && freep == 0
    {
      mem, freep, ring, live, obtained := map[], 0, [], {}, {};
    }

    /** The search of free: from freep around the list to the place for bp (umalloc.c:30-32). */
    method FindPlace(bp: nat) returns (p: nat, ghost k: nat)
      requires Valid() && bp in live
      ensures k < |ring| && p == ring[k] && Between(ring, k, bp)
    {
      k :| 0 <= k < |ring| && ring[k] == freep;
      Linkable(mem, ring, k, bp, live, obtained);
      ghost var t := Place(ring, bp);
      p := freep;
      AtPlace(mem, ring, live, bp, k);
      while !(bp > p && bp < mem[p].ptr)
        invariant 0 <= k < |ring| && p == ring[k] && p in mem && mem[p].ptr == Succ(ring, k)
        invariant Here(p, mem[p].ptr, bp) <==> k == t
        decreases Steps(|ring|, k, t)
      {
        if p >= mem[p].ptr && (bp > p || bp < mem[p].ptr) {
          break;
        }
        p := mem[p].ptr;
        k := if k + 1 < |ring| then k + 1 else 0;
        AtPlace(mem, ring, live, bp, k);
      }
      AtPlace(mem, ring, live, bp, k);
    }

    /** free (umalloc.c:24-44), for the header bp of a live block. */
    method Free(bp: nat)
      requires Valid() && bp in live
      modifies this
      ensures Valid() && live == old(live) - {bp} && obtained == old(obtained)
      ensures SameSizes(old(mem), mem, live)
      // the next search starts at the block before it
      ensures exists k: nat :: k < |old(ring)| && Between(old(ring), k, bp) && freep == old(ring)[k]
      ensures freep in mem && (Size(mem, freep) >= Size(old(mem), bp) || Size(mem, mem[freep].ptr) >= Size(old(mem),
        bp))
    {
      var p; ghost var k;
      p, k := FindPlace(bp);
      ghost var mem0 := mem;
      Linkable(mem, ring, k, bp, live, obtained);
      Relink(p, bp);
      freep := p;
      ring := FreeStep(mem0, mem, ring, k, bp, live, obtained);
      live := live - {bp};
    }

    /** umalloc.c:33-42. */
    method Relink(p: nat, bp: nat)
      requires p in mem && bp in mem && mem[p].ptr in mem
      modifies this`mem
      ensures mem == Relinked(old(mem), p, bp)
    {
      var q := mem[p].ptr;
      if bp + mem[bp].size == q {
        mem := mem[bp := Header(mem[q].ptr, mem[bp].size + mem[q].size)];
      } else {
        mem := mem[bp := Header(q, mem[bp].size)];
      }
      if p + mem[p].size == bp {
        mem := mem[p := Header(mem[bp].ptr, mem[p].size + mem[bp].size)];
      } else {
        mem := mem[p := Header(bp, mem[p].size)];
      }
    }

    /** Ask sbrk for more and put it on the list (umalloc.c:46-61). grant is what sbrk answers. */
    method Morecore(nu: nat, grant: Option<nat>) returns (r: More)
      requires Valid() && freep != 0 && Grantable(obtained, grant)
      modifies this
      ensures Valid() && freep != 0 && live == old(live) && SameSizes(old(mem), mem, live)
      ensures r == if grant.None? then Refused else if Honoured(nu) then Grown else Overran
      ensures r.Grown? ==> obtained == old(obtained) + Units(grant.value, Core(nu))
      ensures r.Grown? ==> freep in mem && (Size(mem, freep) >= nu || Size(mem, mem[freep].ptr) >= nu)
      ensures !r.Grown? ==> obtained == old(obtained)
    {
      var n := if nu < MORECORE then MORECORE else nu;
      if grant.None? {
        return Refused;
      }
      if !Honoured(nu) {
        return Overran;
      }
      ghost var live0 := live;
      Grow(grant.value, n);
      Free(grant.value);
      assert live == live0;
      return Grown;
    }

    /** n units at hp, above everything so far, become a block in use (umalloc.c:57-58). */
    method Grow(hp: nat, n: nat)
      requires Valid() && freep != 0 && 0 < n && BASE < hp && forall u :: u in obtained ==> u < hp
      modifies this`mem, this`live, this`obtained
      ensures Valid() && hp !in old(live) && live == old(live) + {hp} && obtained == old(obtained) + Units(hp, n)
      ensures Size(mem, hp) == n && SameSizes(old(mem), mem, old(live))
    {
      GrantOk(mem, ring, live, obtained, hp, n);
      mem := mem[hp := Header(0, n)];
      live, obtained := live + {hp}, obtained + Units(hp, n);
    }

    method UnlinkHeader(prevp: nat, p: nat)
      requires p in mem && prevp in mem
      modifies this`mem
      ensures mem == Unlink(old(mem), prevp, p)
    {
      mem := mem[prevp := Header(mem[p].ptr, mem[prevp].size)];
    }

    method CarveHeader(p: nat, n: nat) returns (r: nat)
      requires p in mem && 0 < n < mem[p].size
      modifies this`mem
      ensures mem == Carved(old(mem), p, n) && r == p + old(mem)[p].size - n
    {
      mem := mem[p := Header(mem[p].ptr, mem[p].size - n)];
      r := p + mem[p].size;
      mem := mem[r := Header(if r in mem then mem[r].ptr else 0, n)];
    }

    /** Block p, which follows prevp, fits exactly: it leaves the list (umalloc.c:76-77). */
    method TakeWhole(prevp: nat, p: nat, ghost k: nat)
      requires Valid() && k + 1 < |ring| && prevp == ring[k] && p == ring[k + 1] && p in mem && prevp in mem &&
        prevp != 0
      modifies this
      ensures Valid() && freep == prevp && p !in old(live) && live == old(live) + {p} && obtained == old(obtained)
      ensures Size(mem, p) == Size(old(mem), p) && SameSizes(old(mem), mem, old(live))
    {
      ghost var mem0 := mem;
      UnlinkHeader(prevp, p);
      freep := prevp;
      ring := UnlinkStep(mem0, mem, ring, k, live, obtained);
      live := live + {p};
    }

    /** Block p is larger: its last n units go (umalloc.c:78-82). */
    method TakePart(prevp: nat, p: nat, n: nat, ghost k: nat) returns (r: nat)
      requires Valid() && k + 1 < |ring| && prevp == ring[k] && p == ring[k + 1] && p in mem && prevp != 0 &&
        0 < n < mem[p].size
      modifies this
      ensures Valid() && freep == prevp && r !in old(live) && live == old(live) + {r} && obtained == old(obtained)
      ensures Size(mem, r) == n && SameSizes(old(mem), mem, old(live)) && r == p + Size(old(mem), p) - n
    {
      ghost var mem0 := mem;
      r := CarveHeader(p, n);
      freep := prevp;
      CarveStep(mem0, mem, ring, k + 1, n, live, obtained, r);
      live := live + {r};
    }

    /** Hand out n units of block p, which follows prevp (umalloc.c:76-84). */
    method Take(prevp: nat, p: nat, n: nat, ghost k: nat) returns (r: nat)
      requires Valid() && k + 1 < |ring| && prevp == ring[k] && p == ring[k + 1]
      requires p in mem && prevp in mem && prevp != 0 && 0 < n <= mem[p].size
      modifies this
      ensures Valid() && freep == prevp && r !in old(live) && live == old(live) + {r} && obtained == old(obtained)
      ensures Size(mem, r) == n && SameSizes(old(mem), mem, old(live)) && r == p + Size(old(mem), p) - n
    {
      if mem[p].size == n {
        TakeWhole(prevp, p, k);
        r := p;
      } else {
        r := TakePart(prevp, p, n, k);
      }
    }

    /** The empty list, on the first call (umalloc.c:70-73). */
    method Init()
      requires Valid()
      modifies this`mem, this`freep, this`ring
      ensures Valid() && freep != 0
      ensures old(freep) != 0 ==> mem == old(mem) && freep == old(freep) && ring == old(ring)
      ensures old(freep) == 0 ==> old(ring) == [] && ring == [BASE] && Size(mem, BASE) == 0
    {
      if freep == 0 {
        mem := mem[BASE := Header(BASE, 0)];
        freep := BASE;
        ring := [BASE];
        assert ring[0] in Members(ring);
        assert Members(ring) == {BASE};
      }
    }

    /** The walk of malloc is at prevp and p, two neighbours in the list; once it has asked, a block that fits is at
        p or at freep. */
    ghost predicate Searching(n: nat, mem0: map<nat, Header>, live0: set<nat>, obtained0: set<nat>, grant: Option<nat>,
                              asked: bool,
                              prevp: nat, p: nat, k: nat, f: nat)
      reads this
    {
      && Valid() && freep != 0 && live == live0 && f < |ring| && ring[f] == freep
      && k < |ring| && prevp == ring[k] && p == Succ(ring, k)
      && SameSizes(mem0, mem, live)
      && (asked ==> grant.Some? && Honoured(n) && (Size(mem, freep) >= n || Size(mem, p) >= n))
      && obtained == obtained0 + Obtained(grant, asked, n)
    }

    /** Until it asks, it has passed only blocks of the list that are too small; it asks when that is all of them. */
    ghost predicate Sought(n: nat, asked: bool, mem1: map<nat, Header>, ring1: seq<nat>, freep1: nat, k: nat, f: nat)
      reads this
    {
      if asked then !FreeFits(mem1, ring1, n)
      else mem == mem1 && ring == ring1 && freep == freep1 && k < |ring| && Passed(mem, ring, f, After(|ring|, k), n)
    }

    /** The walk starts at freep. */
    method Start(n: nat) returns (prevp: nat, p: nat, ghost f: nat)
      requires Valid()
      modifies this`mem, this`freep, this`ring
      ensures Searching(n, old(mem), old(live), old(obtained), None, false, prevp, p, f, f)
      ensures old(freep) != 0 ==> mem == old(mem) && freep == old(freep) && ring == old(ring)
      ensures old(freep) == 0 ==> old(ring) == [] && ring == [BASE] && Size(mem, BASE) == 0
    {
      Init();
      f :| 0 <= f < |ring| && ring[f] == freep;
      Neighbour(mem, ring, f);
      prevp, p := freep, mem[freep].ptr;
    }

    /** morecore, and on from freep (umalloc.c:86-88, umalloc.c:74). */
    method Refill(n: nat, grant: Option<nat>, ghost mem0: map<nat, Header>, ghost obtained0: set<nat>)
      returns (r: More, prevp: nat, p: nat, ghost f: nat)
      requires Valid() && freep != 0 && obtained == obtained0 && Grantable(obtained, grant)
      requires SameSizes(mem0, mem, live)
      modifies this
      ensures r == if grant.None? then Refused else if Honoured(n) then Grown else Overran
      ensures !r.Grown? ==> Valid() && freep != 0 && live == old(live) && obtained == obtained0
      ensures !r.Grown? ==> SameSizes(mem0, mem, live)
      ensures r.Grown? ==> Searching(n, mem0, old(live), obtained0, grant, true, prevp, p, f, f)
    {
      r := Morecore(n, grant);
      f :| 0 <= f < |ring| && ring[f] == freep;
      Neighbour(mem, ring, f);
      prevp, p := freep, mem[freep].ptr;
    }

    /** The walk is back at freep: it has not asked yet, and no block of the list fits. */
    lemma AllPassed(n: nat, mem0: map<nat, Header>, live0: set<nat>, obtained0: set<nat>, grant: Option<nat>,
                    asked: bool, prevp: nat, p: nat, k: nat, f: nat, mem1: map<nat, Header>, ring1: seq<nat>,
                    freep1: nat)
      requires Searching(n, mem0, live0, obtained0, grant, asked, prevp, p, k, f)
      requires Sought(n, asked, mem1, ring1, freep1, k, f) && Size(mem, p) < n && p == freep
      ensures !asked && !FreeFits(mem1, ring1, n) && obtained == obtained0
    {
      Neighbour(mem, ring, k);
      PassedMore(mem, ring, f, After(|ring|, k), n);
    }

    /** It is not: it goes on to the next block, nearer to freep. */
    lemma NextPassed(n: nat, mem0: map<nat, Header>, live0: set<nat>, obtained0: set<nat>, grant: Option<nat>,
                     asked: bool, prevp: nat, p: nat, k: nat, f: nat, mem1: map<nat, Header>, ring1: seq<nat>,
                     freep1: nat)
      requires Searching(n, mem0, live0, obtained0, grant, asked, prevp, p, k, f)
      requires Sought(n, asked, mem1, ring1, freep1, k, f) && Size(mem, p) < n && p != freep
      ensures p in mem
      ensures Searching(n, mem0, live0, obtained0, grant, asked, p, mem[p].ptr, After(|ring|, k), f)
      ensures Sought(n, asked, mem1, ring1, freep1, After(|ring|, k), f)
      ensures Steps(|ring|, After(|ring|, After(|ring|, k)), f) < Steps(|ring|, After(|ring|, k), f)
    {
      Neighbour(mem, ring, k);
      if !asked {
        PassedMore(mem, ring, f, After(|ring|, k), n);
      }
      Neighbour(mem, ring, After(|ring|, k));
    }

    /** The walk is at a block that fits. */
    method TakeFound(prevp: nat, p: nat, n: nat, ghost k: nat, ghost f: nat, ghost grant: Option<nat>,
                     ghost asked: bool, ghost mem0: map<nat, Header>, ghost live0: set<nat>,
                     ghost obtained0: set<nat>, ghost mem1: map<nat, Header>, ghost ring1: seq<nat>,
                     ghost freep1: nat) returns (a: nat)
      requires Searching(n, mem0, live0, obtained0, grant, asked, prevp, p, k, f)
      requires Sought(n, asked, mem1, ring1, freep1, k, f) && 0 < n && p in mem && mem[p].size >= n
      modifies this
      ensures Valid() && freep != 0 && (asked <==> !FreeFits(mem1, ring1, n))
      ensures !asked ==> FromFirstFit(mem1, ring1, freep1, n, a, freep)
      ensures a !in live0 && live == live0 + {a} && Size(mem, a) == n && SameSizes(mem0, mem, live0)
      ensures obtained == obtained0 + Obtained(grant, asked, n) && (asked ==> grant.Some? && Honoured(n))
    {
      Neighbour(mem, ring, k);
      ghost var mem2, ring2 := mem, ring;
      a := Take(prevp, p, n, k);
      if !asked {
        assert FitsAfter(mem2, ring2, f, k, n, a);
      }
    }

    /** The loop of malloc (umalloc.c:74-89), from freep on. */
    method Search(n: nat, grant: Option<nat>, prevp0: nat, p0: nat, ghost f0: nat, ghost mem0: map<nat, Header>)
      returns (r: Block, asked: bool)
      requires 0 < n && Grantable(obtained, grant)
      requires Searching(n, mem0, live, obtained, None, false, prevp0, p0, f0, f0)
      modifies this
      ensures Valid() && freep != 0
      ensures asked <==> !FreeFits(old(mem), old(ring), n)
      ensures !asked ==> r.At? && FromFirstFit(old(mem), old(ring), old(freep), n, r.addr, freep)
      ensures asked ==> (r.Null? <==> grant.None?) && (r.Overrun? <==> grant.Some? && !Honoured(n))
      ensures r.At? ==> r.addr !in old(live) && live == old(live) + {r.addr} && Size(mem, r.addr) == n
      ensures !r.At? ==> live == old(live)
      ensures obtained == old(obtained) + if r.At? then Obtained(grant, asked, n) else {}
      ensures SameSizes(mem0, mem, old(live))
    {
      ghost var k: nat, f := f0, f0;
      var prevp, p := prevp0, p0;
      asked := false;
      while true
        invariant Searching(n, mem0, old(live), old(obtained), grant, asked, prevp, p, k, f) == true
        invariant Sought(n, asked, old(mem), old(ring), old(freep), k, f) == true
        decreases !asked, Steps(|ring|, After(|ring|, k), f)
      {
        Neighbour(mem, ring, k);
        if mem[p].size >= n {
          var a := TakeFound(prevp, p, n, k, f, grant, asked, mem0, old(live), old(obtained), old(mem), old(ring),
                             old(freep));
          return At(a), asked;
        }
        if p == freep {
          AllPassed(n, mem0, old(live), old(obtained), grant, asked, prevp, p, k, f, old(mem), old(ring), old(freep));
          asked := true;
          var more;
          more, prevp, p, f := Refill(n, grant, mem0, old(obtained));
          if !more.Grown? {
            return if more.Refused? then Null else Overrun, asked;
          }
          k := f;
        } else {
          NextPassed(n, mem0, old(live), old(obtained), grant, asked, prevp, p, k, f, old(mem), old(ring), old(freep));
          k := After(|ring|, k);
          prevp, p := p, mem[p].ptr;
        }
      }
    }

    /**
     malloc (umalloc.c:63-90). It takes the end of the first block after freep that is large enough. Only if there is
     none it asks for more core, once, whatever the answer is merged with, and fails if and only if that is refused. A
     request out of reach, when sbrk does not refuse it, overruns the break.
     */
    method Malloc(nbytes: nat, grant: Option<nat>) returns (r: Block, asked: bool)
      requires Valid() && nbytes < UINT_LIMIT && Grantable(obtained, grant)
      modifies this
      ensures Valid() && freep != 0
      ensures asked <==> !FreeFits(old(mem), old(ring), NUnits(nbytes))
      ensures !asked ==> r.At? && FromFirstFit(old(mem), old(ring), old(freep), NUnits(nbytes), r.addr, freep)
      ensures r.Null? <==> asked && grant.None?
      ensures r.Overrun? <==> asked && grant.Some? && !InReach(nbytes)
      ensures r.At? ==> r.addr !in old(live) && live == old(live) + {r.addr} && Size(mem, r.addr) == NUnits(nbytes)
      ensures !r.At? ==> live == old(live)
      ensures r.Overrun? ==> obtained == old(obtained)
      ensures !r.Overrun? ==> obtained == old(obtained) + Obtained(grant, asked, NUnits(nbytes))
      ensures SameSizes(old(mem), mem, old(live))
    {
      var n := NUnits(nbytes);
      HonouredInReach(nbytes);
      var prevp, p; ghost var f;
      prevp, p, f := Start(n);
      r, asked := Search(n, grant, prevp, p, f, old(mem));
    }
  }

  /** What morecore asks for. */
  function Core(nu: nat): nat {
    if nu < MORECORE then MORECORE else nu
  }

  /** What a call that did or did not ask has added. */
  function Obtained(grant: Option<nat>, asked: bool, n: nat): set<nat> {
    if asked && grant.Some? then Units(grant.value, Core(n)) else {}
  }

  /** sbrk answers with -1, or with the old break, which is above all it gave before. */
  predicate Grantable(obtained: set<nat>, grant: Option<nat>) {
    grant.Some? ==> BASE < grant.value && forall u :: u in obtained ==> u < grant.value
  }

  // ---- How much sbrk grants -----------------------------------------------------------

  /** What morecore passes to sbrk (umalloc.c:54): a product of uints, taken as an int. */
  function SbrkArg(nu: nat): int {
    var bytes := Core(nu) * HEADER % UINT_LIMIT;
    if bytes < UINT_LIMIT / 2 then bytes else bytes - UINT_LIMIT
  }

  /** The request does not overrun what sbrk gives: a condition on malloc's argument alone. */
  predicate InReach(nbytes: nat) {
    nbytes <= UINT_LIMIT / 2 - 2 * HEADER || nbytes > UINT_LIMIT - HEADER
  }

  /** sbrk, unless it refuses, moves the break by what morecore takes: the argument has not become another number. */
  predicate Honoured(nu: nat) {
    SbrkArg(nu) == Core(nu) * HEADER
  }

  lemma HonouredInReach(nbytes: nat)
    requires nbytes < UINT_LIMIT
    ensures Honoured(NUnits(nbytes)) <==> InReach(nbytes)
  {
    if nbytes > UINT_LIMIT - HEADER {
      assert NUnits(nbytes) == 1;
    } else {
      assert NUnits(nbytes) == (nbytes + HEADER - 1) / HEADER + 1;
    }
  }

  /** A successful sbrk has moved the break by what morecore takes exactly when the request is in reach. */
  lemma SbrkGrants(sz: nat, nbytes: nat, room: bool)
    requires nbytes < UINT_LIMIT && sz < Vm.KERNBASE && Vm.NewSize(sz, SbrkArg(NUnits(nbytes)), room).Some?
    ensures var sz' := Vm.NewSize(sz, SbrkArg(NUnits(nbytes)), room).value;
      (sz' == sz + Core(NUnits(nbytes)) * HEADER <==> InReach(nbytes)) && (!InReach(nbytes) ==> sz' <= sz)
  {
    HonouredInReach(nbytes);
    if InReach(nbytes) {
      assert Core(NUnits(nbytes)) >= MORECORE;
    } else {
      assert NUnits(nbytes) == (nbytes + HEADER - 1) / HEADER + 1;
    }
  }

  /** For example malloc(0x80000000): sbrk succeeds and grants nothing. */
  lemma NothingGranted(sz: nat, room: bool)
    requires 0 < sz < 0x7FFF_FFF8
    ensures Vm.NewSize(sz, SbrkArg(NUnits(0x8000_0000)), room) == Some(sz)
  {
    assert NUnits(0x8000_0000) == 0x1000_0001 && SbrkArg(0x1000_0001) == -0x7FFF_FFF8;
  }

  /** The header morecore then writes at the old break belongs to nobody: the heap is no longer sound. */
  lemma OverrunBreaks(mem: map<nat, Header>, ring: seq<nat>, live: set<nat>, obtained: set<nat>, hp: nat, n: nat)
    requires 0 < n && hp !in obtained
    ensures !HeapOk(mem[hp := Header(0, n)], ring, live + {hp}, obtained)
  {
    var mem' := mem[hp := Header(0, n)];
    assert hp in Members(ring) + (live + {hp}) && Covers(mem', hp, hp);
  }

  // ---- Counting units --------------------------------------------------------------

  lemma {:induction false} UnitsCount(a: nat, n: nat)
    ensures |Units(a, n)| == n
  {
    if n > 0 {
      UnitsCount(a, n - 1);
    }
  }

  ghost function Pick(s: set<nat>): (a: nat)
    requires s != {}
    ensures a in s
  {
    var a :| a in s; a
  }

  /** The units of some blocks, counted block by block. */
  ghost function TotalUnits(mem: map<nat, Header>, blocks: set<nat>): nat {
    if blocks == {} then 0 else var a := Pick(blocks); TotalUnits(mem, blocks - {a}) + Size(mem, a)
  }

  ghost function UnitSet(mem: map<nat, Header>, blocks: set<nat>): set<nat> {
    if blocks == {} then {} else var a := Pick(blocks); UnitSet(mem, blocks - {a}) + Units(a, Size(mem, a))
  }

  lemma {:induction false} TotalCount(mem: map<nat, Header>, blocks: set<nat>)
    requires forall a, b :: a in blocks && b in blocks && a != b ==> Disjoint(mem, a, b)
    ensures |UnitSet(mem, blocks)| == TotalUnits(mem, blocks) && forall u :: u in UnitSet(mem, blocks) <==>
      Covered(mem, blocks, u)
  {
    if blocks != {} {
      var a := Pick(blocks);
      var rest := blocks - {a};
      TotalCount(mem, rest);
      UnitsCount(a, Size(mem, a));
      forall u ensures Covered(mem, blocks, u) <==> Covered(mem, rest, u) || Covers(mem, a, u) {
        if b :| b in blocks && Covers(mem, b, u) {
          assert b == a || b in rest;
        }
      }
      forall u | Covered(mem, rest, u) ensures !Covers(mem, a, u) {
        var b :| b in rest && Covers(mem, b, u);
        assert Disjoint(mem, a, b);
      }
      assert UnitSet(mem, rest) !! Units(a, Size(mem, a));
    }
  }

  /** Conservation: the units of the free and of the live blocks add up to the units obtained from sbrk. */
  lemma Conservation(mem: map<nat, Header>, ring: seq<nat>, live: set<nat>, obtained: set<nat>)
    requires HeapOk(mem, ring, live, obtained)
    ensures TotalUnits(mem, Members(ring)) + TotalUnits(mem, live) == |obtained|
  {
    var free := Members(ring);
    TotalCount(mem, free);
    TotalCount(mem, live);
    var f, l := UnitSet(mem, free), UnitSet(mem, live);
    forall u | Covered(mem, free, u) ensures !Covered(mem, live, u) {
      var b :| b in free && Covers(mem, b, u);
      assert forall a :: a in live ==> a in free + live && Disjoint(mem, a, b);
    }
    forall u: nat ensures u in obtained <==> u in f || u in l {
      assert Covered(mem, free + live, u) <==> Covered(mem, free, u) || Covered(mem, live, u);
    }
    assert obtained == f + l && f !! l;
  }

  /** The units malloc looks for, in 32-bit arithmetic (umalloc.c:69). */
  function NUnits(nbytes: nat): nat {
    (nbytes + HEADER - 1) % UINT_LIMIT / HEADER + 1
  }

  /** The block's payload holds the request exactly when rounding up does not wrap. */
  lemma PayloadFits(nbytes: nat)
    requires nbytes < UINT_LIMIT
    ensures (NUnits(nbytes) - 1) * HEADER >= nbytes <==> nbytes <= UINT_LIMIT - HEADER
  {
  }

  /** For example malloc(0xFFFFFFFF): a header and nothing behind it. */
  lemma NoPayload()
    ensures NUnits(0xFFFF_FFFF) == 1
  {
  }
}
