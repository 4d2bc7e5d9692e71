/**
 Address spaces (vm.c) over the frame allocator (kalloc.c): two-level page tables, and who owns
 which frame. Physical and virtual addresses are counted in pages of 4096 bytes.
 */
module Vm {
  import opened Bytes
  import opened Recency
  import opened Wrappers

  const NPT: nat := 1024             // entries in a directory or a table
  const USER: nat := 512 * NPT       // KERNBASE / PGSIZE: the user pages are below
  const VPAGES: nat := NPT * NPT     // 2^32 / PGSIZE
  const PGSIZE: nat := 4096

  /** A directory or table entry: PTE_P clear, or the frame it refers to. */
  datatype Entry = Absent | To(frame: nat)

  /** The contents of the frames used as directories and tables. */
  type Tabs = map<nat, seq<Entry>>

  function At(tab: Tabs, t: nat, j: nat): Entry {
    if t in tab && j < |tab[t]| then tab[t][j] else Absent
  }

  /** The page table entry of virtual page v in the space with directory d. */
  function Pte(tab: Tabs, d: nat, v: nat): Entry {
    var e := At(tab, d, v / NPT);
    if e.To? then At(tab, e.frame, v % NPT) else Absent
  }

  predicate TableOk(tab: Tabs, d: nat, i: nat) {
    At(tab, d, i).To? ==> At(tab, d, i).frame in tab && |tab[At(tab, d, i).frame]| == NPT && At(tab, d, i).frame != d
  }

  predicate SameTable(tab: Tabs, d: nat, i: nat, j: nat) {
    At(tab, d, i).To? && At(tab, d, i) == At(tab, d, j)
  }

  /** d is a directory of distinct tables. */
  ghost predicate Shaped(tab: Tabs, d: nat) {
    && d in tab && |tab[d]| == NPT
    && (forall i {:trigger TableOk(tab, d, i)} :: 0 <= i < NPT ==> TableOk(tab, d, i))
    && (forall i, j {:trigger SameTable(tab, d, i, j)} :: 0 <= i < NPT && 0 <= j < NPT && SameTable(tab, d, i, j) ==>
        i == j)
  }

  ghost predicate IsTable(tab: Tabs, d: nat, f: nat) {
    exists i :: 0 <= i < NPT && At(tab, d, i) == To(f)
  }

  ghost predicate IsLeaf(tab: Tabs, d: nat, f: nat) {
    exists v :: 0 <= v < USER && Pte(tab, d, v) == To(f)
  }

  /** The frames of a space: its directory, its tables, and its user pages. Kernel pages are shared and not owned. */
  ghost predicate Owns(tab: Tabs, d: nat, f: nat) {
    f == d || IsTable(tab, d, f) || IsLeaf(tab, d, f)
  }

  predicate SameLeaf(tab: Tabs, d: nat, v: nat, w: nat) {
    Pte(tab, d, v).To? && Pte(tab, d, v) == Pte(tab, d, w)
  }

  /** No user page is mapped twice, and none to a directory or table. */
  ghost predicate LeavesOk(tab: Tabs, d: nat) {
    && (forall v {:trigger Pte(tab, d, v)} :: 0 <= v < USER && Pte(tab, d, v).To? ==>
        Pte(tab, d, v).frame != d && !IsTable(tab, d, Pte(tab, d, v).frame))
    && (forall v, w {:trigger SameLeaf(tab, d, v, w)} :: 0 <= v < USER && 0 <= w < USER && SameLeaf(tab, d, v, w) ==>
        v == w)
  }

  lemma SplitPage(v: nat, w: nat)
    ensures v == w <==> v / NPT == w / NPT && v % NPT == w % NPT
  {
  }

  // ---- A new table -------------------------------------------------------------

  function EmptyTable(): seq<Entry> {
    seq(NPT, _ => Absent)
  }

  /** walkpgdir fills directory entry i with a new table (vm.c:55-62). */
  function NewTable(tab: Tabs, d: nat, i: nat, t: nat): Tabs
    requires d in tab && i < |tab[d]|
  {
    tab[t := EmptyTable()][d := tab[d][i := To(t)]]
  }

  lemma NewTableAt(tab: Tabs, d: nat, i: nat, t: nat, u: nat, j: nat)
    requires d in tab && i < |tab[d]| && t != d
    ensures At(NewTable(tab, d, i, t), u, j) ==
      if u == d && j == i then To(t) else if u == t then Absent else At(tab, u, j)
  {
  }

  lemma NewTablePte(tab: Tabs, d: nat, i: nat, t: nat, v: nat)
    requires Shaped(tab, d) && i < NPT && At(tab, d, i).Absent? && t != d && !IsTable(tab, d, t) && v < VPAGES
    ensures Pte(NewTable(tab, d, i, t), d, v) == Pte(tab, d, v)
  {
    var e := At(tab, d, v / NPT);
    NewTableAt(tab, d, i, t, d, v / NPT);
    if e.To? {
      assert TableOk(tab, d, v / NPT);
      NewTableAt(tab, d, i, t, e.frame, v % NPT);
    } else {
      NewTableAt(tab, d, i, t, t, v % NPT);
    }
  }

  lemma NewTableShaped(tab: Tabs, d: nat, i: nat, t: nat)
    requires Shaped(tab, d) && i < NPT && At(tab, d, i).Absent? && t != d && !IsTable(tab, d, t)
    ensures Shaped(NewTable(tab, d, i, t), d)
  {
    var tab' := NewTable(tab, d, i, t);
    forall j | 0 <= j < NPT ensures TableOk(tab', d, j) {
      NewTableAt(tab, d, i, t, d, j);
      assert TableOk(tab, d, j);
    }
    forall j, k | 0 <= j < NPT && 0 <= k < NPT && SameTable(tab', d, j, k) ensures j == k {
      NewTableAt(tab, d, i, t, d, j);
      NewTableAt(tab, d, i, t, d, k);
      assert j != i && k != i ==> SameTable(tab, d, j, k);
    }
  }

  lemma NewTableOwns(tab: Tabs, d: nat, i: nat, t: nat, f: nat)
    requires Shaped(tab, d) && i < NPT && At(tab, d, i).Absent? && t != d && !IsTable(tab, d, t)
    ensures IsTable(NewTable(tab, d, i, t), d, f) <==> IsTable(tab, d, f) || f == t
    ensures IsLeaf(NewTable(tab, d, i, t), d, f) <==> IsLeaf(tab, d, f)
  {
    var tab' := NewTable(tab, d, i, t);
    forall j | 0 <= j < NPT ensures At(tab', d, j) == if j == i then To(t) else At(tab, d, j) {
      NewTableAt(tab, d, i, t, d, j);
    }
    forall v | 0 <= v < USER ensures Pte(tab', d, v) == Pte(tab, d, v) {
      NewTablePte(tab, d, i, t, v);
    }
  }

  // ---- Writing an entry -----------------------------------------------------------

  /** The entry of page v, whose table exists, is overwritten. */
  function SetPte(tab: Tabs, d: nat, v: nat, e: Entry): Tabs
    requires Shaped(tab, d) && v < VPAGES && At(tab, d, v / NPT).To?
  {
    assert TableOk(tab, d, v / NPT);
    var t := At(tab, d, v / NPT).frame;
    tab[t := tab[t][v % NPT := e]]
  }

  lemma SetPteDir(tab: Tabs, d: nat, v: nat, e: Entry, i: nat)
    requires Shaped(tab, d) && v < VPAGES && At(tab, d, v / NPT).To? && i < NPT
    ensures At(SetPte(tab, d, v, e), d, i) == At(tab, d, i)
  {
    assert TableOk(tab, d, v / NPT);
  }

  lemma SetPteShaped(tab: Tabs, d: nat, v: nat, e: Entry)
    requires Shaped(tab, d) && v < VPAGES && At(tab, d, v / NPT).To?
    ensures Shaped(SetPte(tab, d, v, e), d)
  {
    var tab' := SetPte(tab, d, v, e);
    assert TableOk(tab, d, v / NPT);
    forall i | 0 <= i < NPT ensures TableOk(tab', d, i) {
      SetPteDir(tab, d, v, e, i);
      assert TableOk(tab, d, i);
    }
    forall i, j | 0 <= i < NPT && 0 <= j < NPT && SameTable(tab', d, i, j) ensures i == j {
      SetPteDir(tab, d, v, e, i);
      SetPteDir(tab, d, v, e, j);
      assert SameTable(tab, d, i, j);
    }
  }

  lemma SetPtePte(tab: Tabs, d: nat, v: nat, e: Entry, w: nat)
    requires Shaped(tab, d) && v < VPAGES && At(tab, d, v / NPT).To? && w < VPAGES
    ensures Pte(SetPte(tab, d, v, e), d, w) == if w == v then e else Pte(tab, d, w)
  {
    assert TableOk(tab, d, v / NPT) && TableOk(tab, d, w / NPT);
    SetPteDir(tab, d, v, e, w / NPT);
    SplitPage(v, w);
    if At(tab, d, w / NPT) == At(tab, d, v / NPT) {
      assert SameTable(tab, d, v / NPT, w / NPT);
    }
  }

  lemma SetPteOwns(tab: Tabs, d: nat, v: nat, e: Entry, f: nat)
    requires Shaped(tab, d) && LeavesOk(tab, d) && v < VPAGES && At(tab, d, v / NPT).To?
    ensures IsTable(SetPte(tab, d, v, e), d, f) == IsTable(tab, d, f)
    ensures v >= USER ==> IsLeaf(SetPte(tab, d, v, e), d, f) == IsLeaf(tab, d, f)
    ensures v < USER && Pte(tab, d, v).Absent? && e.To? ==>
      IsLeaf(SetPte(tab, d, v, e), d, f) == (IsLeaf(tab, d, f) || f == e.frame)
    ensures v < USER && Pte(tab, d, v).To? && e.Absent? ==>
      IsLeaf(SetPte(tab, d, v, e), d, f) == (IsLeaf(tab, d, f) && To(f) != Pte(tab, d, v))
  {
    var tab' := SetPte(tab, d, v, e);
    forall i | 0 <= i < NPT ensures At(tab', d, i) == At(tab, d, i) {
      SetPteDir(tab, d, v, e, i);
    }
    forall w | 0 <= w < USER ensures Pte(tab', d, w) == if w == v then e else Pte(tab, d, w) {
      SetPtePte(tab, d, v, e, w);
    }
    if v < USER && Pte(tab, d, v) == To(f) {
      forall w | 0 <= w < USER && w != v ensures Pte(tab, d, w) != To(f) {
        assert !SameLeaf(tab, d, v, w);
      }
    }
  }

  lemma SetPteLeaves(tab: Tabs, d: nat, v: nat, e: Entry)
    requires Shaped(tab, d) && LeavesOk(tab, d) && v < VPAGES && At(tab, d, v / NPT).To?
    requires v < USER && e.To? ==> !Owns(tab, d, e.frame)
    ensures LeavesOk(SetPte(tab, d, v, e), d)
  {
    var tab' := SetPte(tab, d, v, e);
    assert v < USER && e.To? ==> !IsLeaf(tab, d, e.frame);
    forall w | 0 <= w < USER && Pte(tab', d, w).To? ensures Pte(tab', d, w).frame != d &&
        !IsTable(tab', d, Pte(tab', d, w).frame) {
      SetPtePte(tab, d, v, e, w);
      SetPteOwns(tab, d, v, e, Pte(tab', d, w).frame);
    }
    forall w, x | 0 <= w < USER && 0 <= x < USER && SameLeaf(tab', d, w, x) ensures w == x {
      SetPtePte(tab, d, v, e, w);
      SetPtePte(tab, d, v, e, x);
      if w != v && x != v {
        assert SameLeaf(tab, d, w, x);
      }
    }
  }

  // ---- A space and the free frames ---------------------------------------------------

  const LOW: nat := 0x100            // EXTMEM / PGSIZE: the kernel image begins here, and `end` is behind it
  const HIGH: nat := 0xE000          // PHYSTOP / PGSIZE

  /** The frames kfree accepts (kalloc.c:63-64). */
  predicate Usable(f: nat) {
    LOW <= f < HIGH
  }

  /** A space beside kmem.freelist: distinct free frames, none of them owned by the space, all of them real. */
  ghost predicate Space(free: seq<nat>, tab: Tabs, d: nat) {
    && Shaped(tab, d) && LeavesOk(tab, d) && NoDup(free)
    && (forall f {:trigger f in free} :: f in free ==> !Owns(tab, d, f) && Usable(f))
    && (forall f {:trigger Owns(tab, d, f)} :: Owns(tab, d, f) ==> Usable(f))
  }

  /** A frame that is free or belongs to the space. */
  ghost predicate Has(free: seq<nat>, tab: Tabs, d: nat, f: nat) {
    f in free || Owns(tab, d, f)
  }

  lemma NewTableSpace(free: seq<nat>, tab: Tabs, d: nat, i: nat)
    requires Space(free, tab, d) && i < NPT && At(tab, d, i).Absent? && free != []
    ensures Space(free[1..], NewTable(tab, d, i, free[0]), d)
  {
    var t := free[0];
    assert t in free;
    var tab' := NewTable(tab, d, i, t);
    NewTableShaped(tab, d, i, t);
    forall v | 0 <= v < USER && Pte(tab', d, v).To? ensures Pte(tab', d, v).frame != d &&
        !IsTable(tab', d, Pte(tab', d, v).frame) {
      NewTablePte(tab, d, i, t, v);
      assert IsLeaf(tab, d, Pte(tab, d, v).frame);
      NewTableOwns(tab, d, i, t, Pte(tab, d, v).frame);
    }
    forall v, w | 0 <= v < USER && 0 <= w < USER && SameLeaf(tab', d, v, w) ensures v == w {
      NewTablePte(tab, d, i, t, v);
      NewTablePte(tab, d, i, t, w);
      assert SameLeaf(tab, d, v, w);
    }
    forall f | f in free[1..] ensures !Owns(tab', d, f) && Usable(f) {
      assert f in free && f != t;
      NewTableOwns(tab, d, i, t, f);
    }
    forall f | Owns(tab', d, f) ensures Usable(f) {
      NewTableOwns(tab, d, i, t, f);
      assert Owns(tab, d, f) || f == t;
    }
  }

  lemma NewTableHas(free: seq<nat>, tab: Tabs, d: nat, i: nat, f: nat)
    requires Space(free, tab, d) && i < NPT && At(tab, d, i).Absent? && free != []
    ensures Has(free[1..], NewTable(tab, d, i, free[0]), d, f) == Has(free, tab, d, f)
  {
    assert free == [free[0]] + free[1..] && free[0] in free;
    NewTableOwns(tab, d, i, free[0], f);
  }

  /** A free frame, taken off the list, is mapped at user page v. */
  lemma MapSpace(free: seq<nat>, tab: Tabs, d: nat, v: nat, f: nat)
    requires Space(free, tab, d) && v < VPAGES && At(tab, d, v / NPT).To? && Pte(tab, d, v).Absent?
    requires v < USER ==> f !in free && !Owns(tab, d, f) && Usable(f)
    ensures Space(free, SetPte(tab, d, v, To(f)), d)
    ensures forall x :: Owns(SetPte(tab, d, v, To(f)), d, x) <==> Owns(tab, d, x) || (v < USER && x == f)
  {
    var tab' := SetPte(tab, d, v, To(f));
    SetPteShaped(tab, d, v, To(f));
    SetPteLeaves(tab, d, v, To(f));
    forall x ensures Owns(tab', d, x) <==> Owns(tab, d, x) || (v < USER && x == f) {
      SetPteOwns(tab, d, v, To(f), x);
    }
  }

  /** A user page is unmapped and its frame put on the list. */
  lemma UnmapSpace(free: seq<nat>, tab: Tabs, d: nat, v: nat, f: nat)
    requires Space(free, tab, d) && v < USER && At(tab, d, v / NPT).To? && Pte(tab, d, v) == To(f)
    ensures Space([f] + free, SetPte(tab, d, v, Absent), d)
    ensures forall x :: Owns(SetPte(tab, d, v, Absent), d, x) <==> Owns(tab, d, x) && x != f
  {
    SetPteShaped(tab, d, v, Absent);
    SetPteLeaves(tab, d, v, Absent);
    assert IsLeaf(tab, d, f) && Owns(tab, d, f) && f !in free;
    forall x ensures Owns(SetPte(tab, d, v, Absent), d, x) <==> Owns(tab, d, x) && x != f {
      SetPteOwns(tab, d, v, Absent, x);
    }
  }

  // ---- kalloc, kfree and the page table walk -------------------------------------------

  /** deallocuvm leaves these pages out: a missing table at an unaligned start makes it skip into the middle of the
      next one (vm.c:261-262). */
  ghost predicate Missed(tab: Tabs, d: nat, lo: nat, w: nat) {
    lo / NPT < w / NPT && w % NPT < lo % NPT && forall r :: lo / NPT <= r < w / NPT ==> At(tab, d, r).Absent?
  }

  ghost predicate SamePtes(tab0: Tabs, tab: Tabs, d: nat) {
    forall w :: 0 <= w < VPAGES ==> Pte(tab, d, w) == Pte(tab0, d, w)
  }

  /** Frames only moved between the free list and the space. */
  ghost predicate SameFrames(free0: seq<nat>, tab0: Tabs, free: seq<nat>, tab: Tabs, d: nat) {
    forall f :: Has(free, tab, d, f) == Has(free0, tab0, d, f)
  }

  /** Only the directory, its tables and new tables from the free list have been written; no frame became free. */
  ghost predicate Local(free0: seq<nat>, tab0: Tabs, free: seq<nat>, tab: Tabs, d: nat) {
    && (forall f :: f in free ==> f in free0)
    && (forall u :: IsTable(tab, d, u) ==> IsTable(tab0, d, u) || u in free0)
    && (forall u :: u != d && u !in free0 && !IsTable(tab0, d, u) ==>
        (u in tab <==> u in tab0) && (u in tab0 ==> u in tab && tab[u] == tab0[u]))
  }

  lemma SetPteLocal(free: seq<nat>, tab: Tabs, d: nat, v: nat, e: Entry)
    requires Shaped(tab, d) && LeavesOk(tab, d) && v < VPAGES && At(tab, d, v / NPT).To?
    ensures Local(free, tab, free, SetPte(tab, d, v, e), d)
  {
    assert IsTable(tab, d, At(tab, d, v / NPT).frame);
    assert TableOk(tab, d, v / NPT);
    forall u ensures IsTable(SetPte(tab, d, v, e), d, u) == IsTable(tab, d, u) {
      SetPteOwns(tab, d, v, e, u);
    }
  }

  lemma LocalTrans(free0: seq<nat>, tab0: Tabs, free1: seq<nat>, tab1: Tabs, free2: seq<nat>, tab2: Tabs, d: nat)
    requires Local(free0, tab0, free1, tab1, d) && Local(free1, tab1, free2, tab2, d)
    ensures Local(free0, tab0, free2, tab2, d)
  {
  }

  ghost predicate PteSet(tab0: Tabs, tab: Tabs, d: nat, v: nat, e: Entry) {
    forall w :: 0 <= w < VPAGES ==> Pte(tab, d, w) == if w == v then e else Pte(tab0, d, w)
  }

  /** The space has f besides what it and the free list had. */
  ghost predicate GainsFrame(free0: seq<nat>, tab0: Tabs, free: seq<nat>, tab: Tabs, d: nat, gains: bool, f: nat) {
    forall x :: Has(free, tab, d, x) <==> Has(free0, tab0, d, x) || (gains && x == f)
  }

  /** What a walk for page v takes: the first free frame, if the table was missing. */
  ghost predicate Walked(free0: seq<nat>, tab0: Tabs, free: seq<nat>, tab: Tabs, d: nat, v: nat) {
    && (At(tab0, d, v / NPT).Absent? ==> free0 != []) && At(tab, d, v / NPT).To?
    && free == (if At(tab0, d, v / NPT).Absent? then free0[1..] else free0)
    && forall r :: 0 <= r < NPT && r != v / NPT ==> At(tab, d, r) == At(tab0, d, r)
  }

  /** And when it fails. */
  ghost predicate NoWalk(free0: seq<nat>, tab0: Tabs, free: seq<nat>, tab: Tabs, d: nat, v: nat) {
    free0 == [] && At(tab0, d, v / NPT).Absent? && free == free0 && tab == tab0
  }

  lemma WalkedThenSet(free0: seq<nat>, tab0: Tabs, free1: seq<nat>, tab1: Tabs, d: nat, v: nat, e: Entry)
    requires Walked(free0, tab0, free1, tab1, d, v) && Shaped(tab1, d) && v < VPAGES
    ensures Walked(free0, tab0, free1, SetPte(tab1, d, v, e), d, v)
  {
    forall r | 0 <= r < NPT ensures At(SetPte(tab1, d, v, e), d, r) == At(tab1, d, r) {
      SetPteDir(tab1, d, v, e, r);
    }
  }

  /** After the walk has made sure of the table, the entry is written. */
  lemma MapStep(free0: seq<nat>, tab0: Tabs, free1: seq<nat>, tab1: Tabs, tab2: Tabs, d: nat, v: nat, f: nat)
    requires Space(free1, tab1, d) && v < VPAGES && At(tab1, d, v / NPT).To? && Pte(tab1, d, v).Absent?
    requires v < USER ==> !Has(free0, tab0, d, f) && Usable(f)
    requires SamePtes(tab0, tab1, d) && SameFrames(free0, tab0, free1, tab1, d) && Local(free0, tab0, free1, tab1, d)
    requires tab2 == SetPte(tab1, d, v, To(f))
    ensures Space(free1, tab2, d) && PteSet(tab0, tab2, d, v, To(f)) && Local(free0, tab0, free1, tab2, d)
    ensures GainsFrame(free0, tab0, free1, tab2, d, v < USER, f)
  {
    assert Has(free1, tab1, d, f) == Has(free0, tab0, d, f);
    MapSpace(free1, tab1, d, v, f);
    SetPteLocal(free1, tab1, d, v, To(f));
    LocalTrans(free0, tab0, free1, tab1, free1, tab2, d);
    forall w | 0 <= w < VPAGES ensures Pte(tab2, d, w) == if w == v then To(f) else Pte(tab0, d, w) {
      SetPtePte(tab1, d, v, To(f), w);
    }
    forall x ensures Has(free1, tab2, d, x) <==> Has(free0, tab0, d, x) || (v < USER && x == f) {
      assert Has(free1, tab1, d, x) == Has(free0, tab0, d, x);
    }
  }

  // ---- Ranges of pages, which may run into 2^32 --------------------------------------

  /** How far page w is from page a, going up and around. */
  function Back(a: nat, w: nat): nat
    requires a < VPAGES && w < VPAGES
  {
    if w >= a then w - a else w + VPAGES - a
  }

  /** Page or frame number a + j in 32-bit arithmetic. */
  function Up(a: nat, j: nat): nat {
    (a + j) % VPAGES
  }

  lemma UpBack(a: nat, j: nat, w: nat)
    requires a < VPAGES && j < VPAGES && w < VPAGES
    ensures Up(a, j) < VPAGES && (Back(a, w) == j <==> w == Up(a, j))
  {
  }

  /** The first k pages from a on are mapped to the frames from p on; the others are as they were. */
  ghost predicate MappedRange(tab0: Tabs, tab: Tabs, d: nat, a: nat, p: nat, k: nat)
    requires a < VPAGES
  {
    forall w :: 0 <= w < VPAGES ==> Pte(tab, d, w) == if Back(a, w) < k then To(Up(p, Back(a, w))) else Pte(tab0, d, w)
  }

  /** One of the first k pages from a on is in table r. */
  ghost predicate InRange(a: nat, k: nat, r: nat)
    requires a < VPAGES
  {
    exists w :: 0 <= w < VPAGES && Back(a, w) < k && w / NPT == r
  }

  /** The tables that are new are those of these pages. */
  ghost predicate NoIdleTables(tab0: Tabs, tab: Tabs, d: nat, a: nat, k: nat)
    requires a < VPAGES
  {
    forall r :: 0 <= r < NPT && At(tab, d, r).To? && At(tab0, d, r).Absent? ==> InRange(a, k, r)
  }

  /** f is the frame of a user page among the first k pages from a on. */
  ghost predicate UserFrame(a: nat, p: nat, k: nat, f: nat)
    requires a < VPAGES
  {
    exists w :: 0 <= w < USER && Back(a, w) < k && f == Up(p, Back(a, w))
  }

  ghost predicate GainsRange(free0: seq<nat>, tab0: Tabs, free: seq<nat>, tab: Tabs, d: nat, a: nat, p: nat, k: nat)
    requires a < VPAGES
  {
    forall x :: Has(free, tab, d, x) <==> Has(free0, tab0, d, x) || UserFrame(a, p, k, x)
  }

  /** The frames meant for user pages are neither free nor in the space. */
  ghost predicate FreshRange(free: seq<nat>, tab: Tabs, d: nat, a: nat, p: nat, n: nat)
    requires a < VPAGES
  {
    forall x :: UserFrame(a, p, n, x) ==> !Has(free, tab, d, x) && Usable(x)
  }

  /** Everything about the space after k pages of a range have been mapped. */
  ghost predicate RangeDone(free0: seq<nat>, tab0: Tabs, free: seq<nat>, tab: Tabs, d: nat, a: nat, p: nat, k: nat)
    requires a < VPAGES
  {
    && Space(free, tab, d) && MappedRange(tab0, tab, d, a, p, k) && GainsRange(free0, tab0, free, tab, d, a, p, k)
    && Local(free0, tab0, free, tab, d) && NoIdleTables(tab0, tab, d, a, k)
    && (k == 0 ==> free == free0 && tab == tab0) && (k == 1 ==> Walked(free0, tab0, free, tab, d, a))
  }

  /** Page k of the range has no table, and there is no frame for it. */
  ghost predicate StuckAt(free0: seq<nat>, tab0: Tabs, free: seq<nat>, tab: Tabs, d: nat, a: nat, p: nat, k: nat)
    requires a < VPAGES
  {
    RangeDone(free0, tab0, free, tab, d, a, p, k) && free == [] && At(tab, d, Up(a, k) / NPT).Absent?
  }

  ghost predicate RanOut(free0: seq<nat>, tab0: Tabs, free: seq<nat>, tab: Tabs, d: nat, a: nat, p: nat, n: nat)
    requires a < VPAGES
  {
    exists k :: 0 <= k < n && StuckAt(free0, tab0, free, tab, d, a, p, k)
  }

  lemma RanOutAt(free0: seq<nat>, tab0: Tabs, tab: Tabs, d: nat, a: nat, p: nat, k: nat, n: nat)
    requires a < VPAGES && k < n && RangeDone(free0, tab0, [], tab, d, a, p, k) && At(tab, d, Up(a, k) / NPT).Absent?
    ensures RanOut(free0, tab0, [], tab, d, a, p, n)
  {
    assert StuckAt(free0, tab0, [], tab, d, a, p, k);
  }

  lemma UserFrameMore(a: nat, p: nat, k: nat, x: nat)
    requires a < VPAGES && p < VPAGES && k < VPAGES
    ensures UserFrame(a, p, k + 1, x) <==> UserFrame(a, p, k, x) || (Up(a, k) < USER && x == Up(p, k))
    ensures !UserFrame(a, p, k, Up(p, k))
  {
    UpBack(a, k, Up(a, k));
    if w :| 0 <= w < USER && Back(a, w) < k + 1 && x == Up(p, Back(a, w)) {
      UpBack(a, k, w);
    }
    forall w | 0 <= w < USER && Back(a, w) < k ensures Up(p, Back(a, w)) != Up(p, k) {
      UpBack(p, Back(a, w), Up(p, k));
      UpBack(p, k, Up(p, k));
    }
  }

  lemma NoIdleMore(tab0: Tabs, free1: seq<nat>, tab1: Tabs, free2: seq<nat>, tab2: Tabs, d: nat, a: nat, k: nat)
    requires a < VPAGES && k < VPAGES && NoIdleTables(tab0, tab1, d, a, k)
    requires Walked(free1, tab1, free2, tab2, d, Up(a, k))
    ensures NoIdleTables(tab0, tab2, d, a, k + 1)
  {
    UpBack(a, k, Up(a, k));
    forall r | 0 <= r < NPT && At(tab2, d, r).To? && At(tab0, d, r).Absent? ensures InRange(a, k + 1, r) {
      if r == Up(a, k) / NPT {
        assert Back(a, Up(a, k)) < k + 1;
      } else {
        assert InRange(a, k, r);
      }
    }
  }

  lemma RangeStep(free0: seq<nat>, tab0: Tabs, free1: seq<nat>, tab1: Tabs, free2: seq<nat>, tab2: Tabs, d: nat,
                  a: nat, p: nat, k: nat)
    requires a < VPAGES && p < VPAGES && k < VPAGES && RangeDone(free0, tab0, free1, tab1, d, a, p, k)
    requires Space(free2, tab2, d) && PteSet(tab1, tab2, d, Up(a, k), To(Up(p, k))) &&
      Local(free1, tab1, free2, tab2, d)
    requires GainsFrame(free1, tab1, free2, tab2, d, Up(a, k) < USER, Up(p, k))
    requires Walked(free1, tab1, free2, tab2, d, Up(a, k))
    ensures RangeDone(free0, tab0, free2, tab2, d, a, p, k + 1)
  {
    LocalTrans(free0, tab0, free1, tab1, free2, tab2, d);
    NoIdleMore(tab0, free1, tab1, free2, tab2, d, a, k);
    UpBack(a, 0, a);
    forall w | 0 <= w < VPAGES ensures Pte(tab2, d, w) == if Back(a, w) < k + 1 then To(Up(p, Back(a, w)))
        else Pte(tab0, d, w) {
      UpBack(a, k, w);
    }
    forall x ensures Has(free2, tab2, d, x) <==> Has(free0, tab0, d, x) || UserFrame(a, p, k + 1, x) {
      UserFrameMore(a, p, k, x);
      assert Has(free1, tab1, d, x) <==> Has(free0, tab0, d, x) || UserFrame(a, p, k, x);
    }
  }

  // ---- Sweeping a range of pages ------------------------------------------------------

  ghost predicate SameDir(tab0: Tabs, tab: Tabs, d: nat) {
    forall i :: 0 <= i < NPT ==> At(tab, d, i) == At(tab0, d, i)
  }

  /** The user pages from lo up to a are gone but for the missed ones; the others are as they were. */
  ghost predicate Swept(tab0: Tabs, tab: Tabs, d: nat, lo: nat, a: nat) {
    forall w :: 0 <= w < VPAGES ==>
        Pte(tab, d, w) == if lo <= w < a && w < USER && !Missed(tab0, d, lo, w) then Absent else Pte(tab0, d, w)
  }

  /** The sweep is at the start of a table, inside one that exists, or has skipped missing tables ever since it
      started. */
  ghost predicate OnTrack(tab0: Tabs, d: nat, lo: nat, a: nat) {
    && !Missed(tab0, d, lo, a)
    && (|| a % NPT == 0
        || At(tab0, d, a / NPT).To?
        || (a % NPT == lo % NPT && forall r :: lo / NPT <= r < a / NPT ==> At(tab0, d, r).Absent?))
  }

  lemma UnmapStep(free0: seq<nat>, tab0: Tabs, free: seq<nat>, tab: Tabs, d: nat, v: nat, f: nat)
    requires Space(free0, tab0, d) && v < USER && At(tab0, d, v / NPT).To? && Pte(tab0, d, v) == To(f)
    requires free == [f] + free0 && tab == SetPte(tab0, d, v, Absent)
    ensures Space(free, tab, d) && PteSet(tab0, tab, d, v, Absent) && SameFrames(free0, tab0, free, tab, d) &&
      SameDir(tab0, tab, d)
  {
    UnmapSpace(free0, tab0, d, v, f);
    assert IsLeaf(tab0, d, f) && Owns(tab0, d, f);
    forall w | 0 <= w < VPAGES ensures Pte(tab, d, w) == if w == v then Absent else Pte(tab0, d, w) {
      SetPtePte(tab0, d, v, Absent, w);
    }
    forall i | 0 <= i < NPT ensures At(tab, d, i) == At(tab0, d, i) {
      SetPteDir(tab0, d, v, Absent, i);
    }
    forall x ensures Has(free, tab, d, x) == Has(free0, tab0, d, x) {
    }
  }

  lemma SameFramesTrans(free0: seq<nat>, tab0: Tabs, free1: seq<nat>, tab1: Tabs, free2: seq<nat>, tab2: Tabs, d: nat)
    requires SameFrames(free0, tab0, free1, tab1, d) && SameFrames(free1, tab1, free2, tab2, d)
    ensures SameFrames(free0, tab0, free2, tab2, d)
  {
    forall f ensures Has(free2, tab2, d, f) == Has(free0, tab0, d, f) {
      assert Has(free2, tab2, d, f) == Has(free1, tab1, d, f);
    }
  }

  lemma SkipTable(tab0: Tabs, tab: Tabs, d: nat, lo: nat, a: nat, x: nat)
    requires Swept(tab0, tab, d, lo, a) && OnTrack(tab0, d, lo, a) && lo <= a < USER && At(tab0, d, a / NPT).Absent? &&
      x <= a + NPT
    ensures a <= x ==> Swept(tab0, tab, d, lo, x)
    ensures OnTrack(tab0, d, lo, a + NPT)
  {
    NextTable(a);
    assert !Missed(tab0, d, lo, a + NPT);
    forall w | 0 <= w < VPAGES && a <= x
      ensures Pte(tab, d, w) == if lo <= w < x && w < USER && !Missed(tab0, d, lo, w) then Absent else Pte(tab0, d, w)
    {
      if a <= w < x {
        WithinTable(a, w);
        if w / NPT == a / NPT {
          assert Pte(tab0, d, w).Absent?;
        } else if a % NPT != 0 {
          assert Missed(tab0, d, lo, w);
        }
      }
    }
  }

  lemma NextTable(a: nat)
    ensures (a + NPT) / NPT == a / NPT + 1 && (a + NPT) % NPT == a % NPT
  {
  }

  lemma WithinTable(a: nat, w: nat)
    requires a <= w < a + NPT
    ensures w / NPT == a / NPT || (w / NPT == a / NPT + 1 && w % NPT < a % NPT)
  {
  }

  lemma SweepPage(tab0: Tabs, tab1: Tabs, tab2: Tabs, d: nat, lo: nat, a: nat)
    requires Swept(tab0, tab1, d, lo, a) && PteSet(tab1, tab2, d, a, Absent) && lo <= a < USER &&
      At(tab0, d, a / NPT).To?
    requires OnTrack(tab0, d, lo, a)
    ensures Swept(tab0, tab2, d, lo, a + 1) && OnTrack(tab0, d, lo, a + 1)
  {
    assert
      || ((a + 1) % NPT == 0 && (a + 1) / NPT == a / NPT + 1)
      || ((a + 1) / NPT == a / NPT && (a + 1) % NPT == a % NPT + 1);
  }

  function RoundUp(bytes: nat): nat {
    (bytes + PGSIZE - 1) / PGSIZE
  }

  // ---- Freeing a space ------------------------------------------------------------------

  ghost predicate Left(free: seq<nat>, tab: Tabs, d: nat, f: nat) {
    f in free || f == d || IsTable(tab, d, f)
  }

  /** After a sweep from page 0, which misses nothing, only the directory and the tables are left. */
  lemma NoPagesLeft(free0: seq<nat>, tab0: Tabs, free: seq<nat>, tab: Tabs, d: nat)
    requires Space(free, tab, d) && SameFrames(free0, tab0, free, tab, d) &&
      Swept(tab0, tab, d, RoundUp(0), RoundUp(USER * PGSIZE))
    ensures Freeing(free, free, tab, d, 0)
    ensures forall f :: Left(free, tab, d, f) == Has(free0, tab0, d, f)
  {
    forall f ensures !IsLeaf(tab, d, f) {
      assert forall w :: 0 <= w < USER ==> Pte(tab, d, w).Absent?;
    }
    forall f ensures Left(free, tab, d, f) == Has(free0, tab0, d, f) {
      assert Has(free, tab, d, f) == Has(free0, tab0, d, f);
    }
  }

  ghost predicate TableBelow(tab: Tabs, d: nat, n: nat, f: nat) {
    exists i :: 0 <= i < n && i < NPT && At(tab, d, i) == To(f)
  }

  /** The tables of the first n directory entries have been freed. */
  ghost predicate Freeing(free1: seq<nat>, free: seq<nat>, tab: Tabs, d: nat, n: nat) {
    && Space(free1, tab, d) && NoDup(free)
    && forall f :: f in free <==> f in free1 || TableBelow(tab, d, n, f)
  }

  lemma FreeingMore(free1: seq<nat>, free: seq<nat>, tab: Tabs, d: nat, i: nat)
    requires Freeing(free1, free, tab, d, i) && i < NPT
    ensures At(tab, d, i).Absent? ==> Freeing(free1, free, tab, d, i + 1)
    ensures At(tab, d, i).To? ==>
      Usable(At(tab, d, i).frame) && Freeing(free1, [At(tab, d, i).frame] + free, tab, d, i + 1)
  {
    var e := At(tab, d, i);
    forall f ensures TableBelow(tab, d, i + 1, f) <==> TableBelow(tab, d, i, f) || e == To(f) {
    }
    if e.To? {
      assert IsTable(tab, d, e.frame) && Owns(tab, d, e.frame);
      forall j | 0 <= j < i ensures At(tab, d, j) != e {
        assert SameTable(tab, d, j, i) ==> j == i;
      }
      assert e.frame !in free1;
    }
  }

  lemma FreedAll(free1: seq<nat>, free: seq<nat>, tab: Tabs, d: nat)
    requires Freeing(free1, free, tab, d, NPT)
    ensures d !in free && Usable(d) && forall f :: f in free <==> f in free1 || IsTable(tab, d, f)
  {
    forall j | 0 <= j < NPT ensures At(tab, d, j) != To(d) {
      assert TableOk(tab, d, j);
    }
    assert Owns(tab, d, d) && d !in free1;
    forall f ensures TableBelow(tab, d, NPT, f) == IsTable(tab, d, f) {
    }
  }

  // ---- A new space -----------------------------------------------------------------------

  /** Nothing outside the frames that were free has been written. */
  ghost predicate Outside(free0: seq<nat>, tab0: Tabs, tab: Tabs) {
    forall u :: u !in free0 ==> (u in tab <==> u in tab0) && (u in tab0 ==> u in tab && tab[u] == tab0[u])
  }

  /** A space made of frames that were free; the others of those are free still. */
  ghost predicate NewSpace(free0: seq<nat>, tab0: Tabs, free: seq<nat>, tab: Tabs, d: nat) {
    Space(free, tab, d) && (forall f :: Has(free, tab, d, f) <==> f in free0) && Outside(free0, tab0, tab)
  }

  /** What a free list needs by itself. */
  ghost predicate FreeList(free: seq<nat>) {
    NoDup(free) && forall f {:trigger f in free} :: f in free ==> Usable(f)
  }

  lemma EmptySpace(free: seq<nat>, tab: Tabs)
    requires FreeList(free) && free != []
    ensures NewSpace(free, tab, free[1..], tab[free[0] := EmptyTable()], free[0])
    ensures NoUserPages(tab[free[0] := EmptyTable()], free[0])
  {
    var d, tab' := free[0], tab[free[0] := EmptyTable()];
    assert free == [d] + free[1..] && d in free;
    forall i ensures At(tab', d, i).Absent? {
    }
    forall f ensures Owns(tab', d, f) <==> f == d {
      assert !IsTable(tab', d, f) && !IsLeaf(tab', d, f);
    }
    forall f | f in free[1..] ensures f != d && Usable(f) {
      assert f in free;
    }
  }

  /** More pages mapped in a new space, none of them for users: it is one still. */
  lemma NewSpaceKernel(free0: seq<nat>, tab0: Tabs, free1: seq<nat>, tab1: Tabs, free2: seq<nat>, tab2: Tabs, d: nat,
                       a: nat, p: nat, n: nat)
    requires NewSpace(free0, tab0, free1, tab1, d) && a < VPAGES && RangeDone(free1, tab1, free2, tab2, d, a, p, n)
    requires forall x :: !UserFrame(a, p, n, x)
    ensures NewSpace(free0, tab0, free2, tab2, d)
  {
    forall f ensures Has(free2, tab2, d, f) <==> f in free0 {
      assert Has(free1, tab1, d, f) <==> f in free0;
    }
    LocalOutside(free0, tab0, free1, tab1, free2, tab2, d);
  }

  lemma LocalOutside(free0: seq<nat>, tab0: Tabs, free1: seq<nat>, tab1: Tabs, free2: seq<nat>, tab2: Tabs, d: nat)
    requires Outside(free0, tab0, tab1) && Local(free1, tab1, free2, tab2, d)
    requires forall f :: Has(free1, tab1, d, f) ==> f in free0
    ensures Outside(free0, tab0, tab2)
  {
    forall u | u !in free0 ensures (u in tab2 <==> u in tab0) && (u in tab0 ==> u in tab2 && tab2[u] == tab0[u]) {
      assert !Has(free1, tab1, d, u);
      assert Owns(tab1, d, d);
    }
  }

  /** A kernel mapping: page-aligned physical range [start, end) at virt; end 0 stands for 2^32 (vm.c:115-125). */
  datatype Kmap = Kmap(virt: nat, start: nat, end: nat) {
    function Size(): nat {
      (end - start) % UINT_LIMIT
    }
    /** It lies in the kernel's half, above KERNBASE. */
    ghost predicate Kernel() {
      && virt < UINT_LIMIT && start < UINT_LIMIT
      && forall w :: 0 <= w < USER ==> Back(virt / PGSIZE, w) >= PageCount(virt, Size())
    }
    /** Page w is one of its pages. */
    predicate Covers(w: nat) {
      w < VPAGES && virt < UINT_LIMIT && Back(virt / PGSIZE, w) < PageCount(virt, Size())
    }
    /** The frame it gives page w. */
    function Frame(w: nat): nat
      requires Covers(w)
    {
      Up(start / PGSIZE, Back(virt / PGSIZE, w))
    }
  }

  /** What the first k mappings make of page w. */
  function KernelEntry(kmap: seq<Kmap>, k: nat, w: nat): Entry
    requires k <= |kmap|
  {
    if k == 0 then Absent
    else if kmap[k - 1].Covers(w) then To(kmap[k - 1].Frame(w))
    else KernelEntry(kmap, k - 1, w)
  }

  ghost predicate KernelEntries(tab: Tabs, d: nat, kmap: seq<Kmap>, k: nat)
    requires k <= |kmap|
  {
    forall w :: 0 <= w < VPAGES ==> Pte(tab, d, w) == KernelEntry(kmap, k, w)
  }

  /** No page is mapped twice. */
  ghost predicate Apart(kmap: seq<Kmap>) {
    forall j, k, w :: 0 <= j < k < |kmap| && 0 <= w < VPAGES ==> !(kmap[j].Covers(w) && kmap[k].Covers(w))
  }

  lemma {:induction false} EntryCovered(kmap: seq<Kmap>, k: nat, w: nat)
    requires k <= |kmap| && KernelEntry(kmap, k, w).To?
    ensures exists j :: 0 <= j < k && kmap[j].Covers(w)
  {
    if !kmap[k - 1].Covers(w) {
      EntryCovered(kmap, k - 1, w);
    }
  }

  /** With nothing mapped twice, mapping k finds its pages free. */
  lemma NotYetMapped(tab: Tabs, d: nat, kmap: seq<Kmap>, k: nat)
    requires k < |kmap| && kmap[k].virt < UINT_LIMIT && KernelEntries(tab, d, kmap, k) && Apart(kmap)
    ensures !AlreadyMapped(tab, d, kmap[k].virt / PGSIZE, PageCount(kmap[k].virt, kmap[k].Size()))
  {
    forall w | 0 <= w < VPAGES && kmap[k].Covers(w) ensures Pte(tab, d, w).Absent? {
      if KernelEntry(kmap, k, w).To? {
        EntryCovered(kmap, k, w);
      }
    }
  }

  const KERNBASE: nat := 0x8000_0000
  const EXTMEM: nat := 0x10_0000
  const PHYSTOP: nat := 0xE00_0000
  const DEVSPACE: nat := 0xFE00_0000

  /** The kernel's mappings (vm.c:120-125); `data` is where the linker puts the kernel's data. */
  function KernelMaps(data: nat): seq<Kmap>
    requires KERNBASE <= data
  {
    [ Kmap(KERNBASE, 0, EXTMEM), Kmap(KERNBASE + EXTMEM, EXTMEM, data - KERNBASE),
      Kmap(data, data - KERNBASE, PHYSTOP), Kmap(DEVSPACE, DEVSPACE, 0) ]
  }

  /** All of them are the kernel's, wherever the data is. */
  lemma KernelMapsAreKernel(data: nat, k: nat)
    requires KERNBASE + EXTMEM < data < KERNBASE + PHYSTOP && data % PGSIZE == 0 && k < 4
    ensures KernelMaps(data)[k].Kernel()
  {
    var m := KernelMaps(data)[k];
    LastInRange(m.virt, m.Size());
  }

  /** A mapping of n whole pages from page a on, to the frames from f on. */
  lemma MapPages(m: Kmap, a: nat, f: nat, n: nat, w: nat)
    requires m.virt == a * PGSIZE && m.start == f * PGSIZE && m.Size() == n * PGSIZE && 0 < n
    requires a + n <= VPAGES && f + n <= VPAGES && w < VPAGES
    ensures m.Covers(w) <==> a <= w < a + n
    ensures m.Covers(w) ==> m.Frame(w) == f + w - a
  {
    WholePages(a, n);
  }

  lemma WholePages(a: nat, n: nat)
    requires 0 < n && a + n <= VPAGES
    ensures a * PGSIZE < UINT_LIMIT && a * PGSIZE / PGSIZE == a && PageCount(a * PGSIZE, n * PGSIZE) == n
  {
    LastInRange(a * PGSIZE, n * PGSIZE);
    assert a * PGSIZE + n * PGSIZE - 1 == (a + n - 1) * PGSIZE + (PGSIZE - 1);
  }

  /** The kernel's mappings in pages: 256 below EXTMEM, 57344 below PHYSTOP, and from page 1040384 on. */
  lemma KernelPages(data: nat, w: nat, p: nat)
    requires KERNBASE + EXTMEM < data < KERNBASE + PHYSTOP && data == p * PGSIZE && w < VPAGES
    ensures var kmap := KernelMaps(data);
      && (kmap[0].Covers(w) <==> USER <= w < USER + 256) && (kmap[0].Covers(w) ==> kmap[0].Frame(w) == w - USER)
      && (kmap[1].Covers(w) <==> USER + 256 <= w < p) && (kmap[1].Covers(w) ==> kmap[1].Frame(w) == w - USER)
      && (kmap[2].Covers(w) <==> p <= w < USER + 57344) && (kmap[2].Covers(w) ==> kmap[2].Frame(w) == w - USER)
      && (kmap[3].Covers(w) <==> 1040384 <= w) && (kmap[3].Covers(w) ==> kmap[3].Frame(w) == w)
  {
    var kmap := KernelMaps(data);
    MapPages(kmap[0], USER, 0, 256, w);
    MapPages(kmap[1], USER + 256, 256, p - USER - 256, w);
    MapPages(kmap[2], p, p - USER, USER + 57344 - p, w);
    MapPages(kmap[3], 1040384, 1040384, VPAGES - 1040384, w);
  }

  /** So none is mapped twice, and setupkvm does not panic. */
  lemma KernelMapsApart(data: nat)
    requires KERNBASE + EXTMEM < data < KERNBASE + PHYSTOP && data % PGSIZE == 0
    ensures Apart(KernelMaps(data))
  {
    var kmap := KernelMaps(data);
    forall j, k, w | 0 <= j < k < |kmap| && 0 <= w < VPAGES ensures !(kmap[j].Covers(w) && kmap[k].Covers(w)) {
      KernelPages(data, w, data / PGSIZE);
    }
  }

  /** The layout that vm.c:98-107 describes: physical memory from KERNBASE on, devices where they are, nothing else. */
  lemma KernelLayout(data: nat, w: nat)
    requires KERNBASE + EXTMEM < data < KERNBASE + PHYSTOP && data % PGSIZE == 0 && w < VPAGES
    ensures KernelEntry(KernelMaps(data), 4, w) ==
            if KERNBASE <= w * PGSIZE < KERNBASE + PHYSTOP then To(w - USER)
            else if DEVSPACE <= w * PGSIZE then To(w)
            else Absent
  {
    var kmap := KernelMaps(data);
    FourEntries(kmap, w);
    KernelPages(data, w, data / PGSIZE);
  }

  lemma FourEntries(kmap: seq<Kmap>, w: nat)
    requires |kmap| == 4
    ensures KernelEntry(kmap, 4, w) ==
            if kmap[3].Covers(w) then To(kmap[3].Frame(w)) else if kmap[2].Covers(w) then To(kmap[2].Frame(w))
            else if kmap[1].Covers(w) then To(kmap[1].Frame(w)) else if kmap[0].Covers(w) then To(kmap[0].Frame(w))
            else Absent
  {
    assert KernelEntry(kmap, 3, w) == if kmap[2].Covers(w) then To(kmap[2].Frame(w)) else KernelEntry(kmap, 2, w);
    assert KernelEntry(kmap, 2, w) == if kmap[1].Covers(w) then To(kmap[1].Frame(w)) else KernelEntry(kmap, 1, w);
    assert KernelEntry(kmap, 1, w) == if kmap[0].Covers(w) then To(kmap[0].Frame(w)) else KernelEntry(kmap, 0, w);
  }

  lemma LastInRange(va: nat, size: nat)
    requires 0 < size && va + size <= UINT_LIMIT && va < UINT_LIMIT
    ensures va / PGSIZE <= LastPage(va, size) < VPAGES && PageCount(va, size) == LastPage(va, size) - va / PGSIZE + 1
  {
    assert (va + size - 1) % UINT_LIMIT == va + size - 1;
  }

  // ---- How many frames a space takes ------------------------------------------------------------

  /** The directory entries that have a table. */
  ghost function TableSet(tab: Tabs, d: nat): set<nat> {
    set r | 0 <= r < NPT && At(tab, d, r).To?
  }

  /** A page of the first k mappings is in table r. */
  ghost predicate InKernel(kmap: seq<Kmap>, k: nat, r: nat)
    requires k <= |kmap|
  {
    exists j, w: nat :: 0 <= j < k && kmap[j].Covers(w) && w / NPT == r
  }

  /** The tables the kernel's mappings need. */
  ghost function KernelTables(kmap: seq<Kmap>): set<nat> {
    set r | 0 <= r < NPT && InKernel(kmap, |kmap|, r)
  }

  ghost predicate OnlyKernelTables(tab: Tabs, d: nat, kmap: seq<Kmap>, k: nat)
    requires k <= |kmap|
  {
    forall r :: 0 <= r < NPT && At(tab, d, r).To? ==> InKernel(kmap, k, r)
  }

  lemma InKernelMore(kmap: seq<Kmap>, k: nat, n: nat, r: nat)
    requires k <= n <= |kmap| && InKernel(kmap, k, r)
    ensures InKernel(kmap, n, r)
  {
    var j, w: nat :| 0 <= j < k && kmap[j].Covers(w) && w / NPT == r;
    assert j < n;
  }

  lemma RangeInKernel(tab0: Tabs, tab: Tabs, d: nat, kmap: seq<Kmap>, i: nat, a: nat, k: nat)
    requires i < |kmap| && kmap[i].virt < UINT_LIMIT && a == kmap[i].virt / PGSIZE
    requires k <= PageCount(kmap[i].virt, kmap[i].Size())
    requires OnlyKernelTables(tab0, d, kmap, i) && NoIdleTables(tab0, tab, d, a, k)
    ensures OnlyKernelTables(tab, d, kmap, i + 1)
  {
    forall r | 0 <= r < NPT && At(tab, d, r).To? ensures InKernel(kmap, i + 1, r) {
      if At(tab0, d, r).To? {
        InKernelMore(kmap, i, i + 1, r);
      } else {
        assert InRange(a, k, r);
        var w :| 0 <= w < VPAGES && Back(a, w) < k && w / NPT == r;
        assert kmap[i].Covers(w);
      }
    }
  }

  /** With all the mappings made, their tables are there and no others. */
  lemma AllKernelTables(tab: Tabs, d: nat, kmap: seq<Kmap>)
    requires KernelEntries(tab, d, kmap, |kmap|) && OnlyKernelTables(tab, d, kmap, |kmap|)
    ensures TableSet(tab, d) == KernelTables(kmap)
  {
    forall r | r in KernelTables(kmap) ensures r in TableSet(tab, d) {
      var j, w: nat :| 0 <= j < |kmap| && kmap[j].Covers(w) && w / NPT == r;
      EntryThere(kmap, |kmap|, j, w);
      assert Pte(tab, d, w).To?;
    }
  }

  lemma {:induction false} IntervalCount(s: set<nat>, lo: nat, hi: nat)
    requires lo <= hi && forall r :: r in s <==> lo <= r < hi
    ensures |s| == hi - lo
    decreases hi - lo
  {
    if lo == hi {
      assert s == {};
    } else {
      assert hi - 1 in s;
      IntervalCount(s - {hi - 1}, lo, hi - 1);
    }
  }

  lemma KernelTableAt(data: nat, r: nat)
    requires KERNBASE + EXTMEM < data < KERNBASE + PHYSTOP && data % PGSIZE == 0 && r < NPT
    ensures InKernel(KernelMaps(data), 4, r) <==> 512 <= r < 568 || 1016 <= r
  {
    var kmap := KernelMaps(data);
    if InKernel(kmap, 4, r) {
      var j, w: nat :| 0 <= j < 4 && kmap[j].Covers(w) && w / NPT == r;
      EntryThere(kmap, 4, j, w);
      KernelLayout(data, w);
    }
    if 512 <= r < 568 || 1016 <= r {
      KernelLayout(data, r * NPT);
      EntryCovered(kmap, 4, r * NPT);
    }
  }

  /** The kernel's own mappings need 64 tables: with the directory, a process takes 65 frames before it has a page. */
  lemma KernelTableCount(data: nat)
    requires KERNBASE + EXTMEM < data < KERNBASE + PHYSTOP && data % PGSIZE == 0
    ensures |KernelTables(KernelMaps(data))| == 64
  {
    forall r | 0 <= r < NPT ensures InKernel(KernelMaps(data), 4, r) <==> 512 <= r < 568 || 1016 <= r {
      KernelTableAt(data, r);
    }
    TwoIntervals(KernelTables(KernelMaps(data)), 512, 568, 1016, NPT);
  }

  lemma TwoIntervals(ts: set<nat>, a: nat, b: nat, c: nat, e: nat)
    requires a <= b <= c <= e && forall r :: r in ts <==> a <= r < b || c <= r < e
    ensures |ts| == b - a + (e - c)
  {
    var low, high := set r | r in ts && r < b, set r | r in ts && r >= c;
    IntervalCount(low, a, b);
    IntervalCount(high, c, e);
    assert ts == low + high;
  }

  /** So of 64 free frames, for example, setupkvm takes all and loses them. */
  lemma KernelNeedsMore(data: nat, frames: nat)
    requires KERNBASE + EXTMEM < data < KERNBASE + PHYSTOP && data % PGSIZE == 0 && frames == 64
    ensures frames < 1 + |KernelTables(KernelMaps(data))|
  {
    KernelTableCount(data);
  }

  lemma {:induction false} EntryThere(kmap: seq<Kmap>, k: nat, j: nat, w: nat)
    requires j < k <= |kmap| && kmap[j].Covers(w)
    ensures KernelEntry(kmap, k, w).To?
    decreases k
  {
    if !kmap[k - 1].Covers(w) {
      EntryThere(kmap, k - 1, j, w);
    }
  }

  ghost function Elements(s: seq<nat>): set<nat> {
    set x | x in s
  }

  lemma {:induction false} NoDupCount(s: seq<nat>)
    requires NoDup(s)
    ensures |Elements(s)| == |s|
  {
    if s == [] {
      assert Elements(s) == {};
    } else {
      var init, last := s[..|s| - 1], s[|s| - 1];
      NoDupCount(init);
      assert s == init + [last] && last !in init;
      assert Elements(s) == Elements(init) + {last};
    }
  }

  ghost function FramesOf(tab: Tabs, d: nat, rs: set<nat>): set<nat> {
    set r | r in rs && At(tab, d, r).To? :: At(tab, d, r).frame
  }

  lemma {:induction false} FramesCount(tab: Tabs, d: nat, rs: set<nat>)
    requires Shaped(tab, d) && rs <= TableSet(tab, d)
    ensures |FramesOf(tab, d, rs)| == |rs|
    decreases |rs|
  {
    if rs == {} {
      assert FramesOf(tab, d, rs) == {};
    } else {
      var r :| r in rs;
      FramesCount(tab, d, rs - {r});
      var f := At(tab, d, r).frame;
      forall q | q in rs - {r} ensures At(tab, d, q).frame != f {
        assert q in TableSet(tab, d) && r in TableSet(tab, d);
        assert !SameTable(tab, d, q, r);
      }
      assert f !in FramesOf(tab, d, rs - {r});
      assert FramesOf(tab, d, rs) == FramesOf(tab, d, rs - {r}) + {f};
    }
  }

  lemma TableFrames(tab: Tabs, d: nat, x: nat)
    requires Shaped(tab, d)
    ensures x in FramesOf(tab, d, TableSet(tab, d)) <==> IsTable(tab, d, x)
    ensures x == d ==> !IsTable(tab, d, x)
  {
    if i :| 0 <= i < NPT && At(tab, d, i) == To(x) {
      assert i in TableSet(tab, d) && TableOk(tab, d, i);
    }
  }

  lemma OwnedFrames(free0: seq<nat>, tab0: Tabs, free: seq<nat>, tab: Tabs, d: nat, x: nat)
    requires NewSpace(free0, tab0, free, tab, d) && NoUserPages(tab, d)
    ensures x in free0 <==> x in free || x == d || IsTable(tab, d, x)
    ensures x in free ==> x != d && !IsTable(tab, d, x)
  {
    assert Has(free, tab, d, x) <==> x in free0;
    assert !IsLeaf(tab, d, x);
    assert x in free ==> !Owns(tab, d, x);
  }

  lemma DisjointSizes(a: set<nat>, b: set<nat>, d: nat, c: set<nat>)
    requires (forall x :: x in a <==> x in b || x == d || x in c) && d !in b && d !in c && b !! c
    ensures |a| == |b| + 1 + |c|
  {
    assert a == b + {d} + c;
  }

  /** A new space without user pages has taken a frame for its directory and one for each table. */
  lemma SpaceCount(free0: seq<nat>, tab0: Tabs, free: seq<nat>, tab: Tabs, d: nat)
    requires NoDup(free0) && NewSpace(free0, tab0, free, tab, d) && NoUserPages(tab, d)
    ensures |free0| == |free| + 1 + |TableSet(tab, d)|
  {
    var ts := FramesOf(tab, d, TableSet(tab, d));
    NoDupCount(free0);
    NoDupCount(free);
    FramesCount(tab, d, TableSet(tab, d));
    forall x
      ensures x in Elements(free0) <==> x in Elements(free) || x == d || x in ts
      ensures x in Elements(free) ==> x != d && x !in ts
      ensures x == d ==> x !in ts
    {
      TableFrames(tab, d, x);
      OwnedFrames(free0, tab0, free, tab, d, x);
    }
    DisjointSizes(Elements(free0), Elements(free), d, ts);
  }

  /** Not all tables have been made and the free list is empty: there were too few frames. */
  lemma KernelShort(free0: seq<nat>, tab0: Tabs, tab: Tabs, d: nat, kmap: seq<Kmap>, r: nat)
    requires NoDup(free0) && NewSpace(free0, tab0, [], tab, d) && NoUserPages(tab, d)
    requires OnlyKernelTables(tab, d, kmap, |kmap|) && r < NPT && At(tab, d, r).Absent? && InKernel(kmap, |kmap|, r)
    ensures |free0| < 1 + |KernelTables(kmap)|
  {
    SpaceCount(free0, tab0, [], tab, d);
    ProperSize(TableSet(tab, d), KernelTables(kmap), r);
  }

  /** A new space with the first k mappings in it and nothing else. */
  ghost predicate KernelSpace(free0: seq<nat>, tab0: Tabs, free: seq<nat>, tab: Tabs, d: nat, kmap: seq<Kmap>, k: nat)
    requires k <= |kmap|
  {
    && NewSpace(free0, tab0, free, tab, d) && NoUserPages(tab, d)
    && KernelEntries(tab, d, kmap, k) && OnlyKernelTables(tab, d, kmap, k)
  }

  lemma KernelSpaceStart(free0: seq<nat>, tab0: Tabs, kmap: seq<Kmap>)
    requires FreeList(free0) && free0 != []
    ensures KernelSpace(free0, tab0, free0[1..], tab0[free0[0] := EmptyTable()], free0[0], kmap, 0)
  {
    EmptySpace(free0, tab0);
    var d, tab := free0[0], tab0[free0[0] := EmptyTable()];
    forall r ensures At(tab, d, r).Absent? {
    }
  }

  lemma KernelSpaceDone(free0: seq<nat>, tab0: Tabs, free: seq<nat>, tab: Tabs, d: nat, kmap: seq<Kmap>)
    requires NoDup(free0) && KernelSpace(free0, tab0, free, tab, d, kmap, |kmap|)
    ensures |free0| == |free| + 1 + |KernelTables(kmap)|
  {
    SpaceCount(free0, tab0, free, tab, d);
    AllKernelTables(tab, d, kmap);
  }

  lemma StuckInKernel(free0: seq<nat>, tab0: Tabs, free1: seq<nat>, tab1: Tabs, tab: Tabs, d: nat, kmap: seq<Kmap>,
                      i: nat, a: nat, p: nat, n: nat)
    requires NoDup(free0) && NewSpace(free0, tab0, free1, tab1, d) && NoUserPages(tab1, d)
    requires i < |kmap| && kmap[i].Kernel() && a == kmap[i].virt / PGSIZE
    requires n == PageCount(kmap[i].virt, kmap[i].Size())
    requires OnlyKernelTables(tab1, d, kmap, i) && RanOut(free1, tab1, [], tab, d, a, p, n)
    ensures |free0| < 1 + |KernelTables(kmap)|
  {
    var k :| 0 <= k < n && StuckAt(free1, tab1, [], tab, d, a, p, k);
    forall x ensures !UserFrame(a, p, k, x) {
    }
    NewSpaceKernel(free0, tab0, free1, tab1, [], tab, d, a, p, k);
    RangeInKernel(tab1, tab, d, kmap, i, a, k);
    forall r | 0 <= r < NPT && At(tab, d, r).To? ensures InKernel(kmap, |kmap|, r) {
      InKernelMore(kmap, i + 1, |kmap|, r);
    }
    var w := Up(a, k);
    UpBack(a, k, w);
    assert kmap[i].Covers(w);
    KernelShort(free0, tab0, tab, d, kmap, w / NPT);
  }

  lemma ProperSize(a: set<nat>, b: set<nat>, r: nat)
    requires a <= b && r in b && r !in a
    ensures |a| < |b|
  {
    SubsetSize(a, b - {r});
  }

  lemma {:induction false} SubsetSize(a: set<nat>, b: set<nat>)
    requires a <= b
    ensures |a| <= |b|
    decreases |a|
  {
    if a != {} {
      var x :| x in a;
      SubsetSize(a - {x}, b - {x});
    }
  }

  // ---- Copying a space ---------------------------------------------------------------------

  function FrameBytes(page: map<nat, seq<byte>>, f: nat): seq<byte> {
    if f in page then page[f] else []
  }

  /** The first n user pages of d are fresh frames with the bytes of those of s; it has no others. */
  ghost predicate CopiedPages(free0: seq<nat>, tab0: Tabs, page0: map<nat, seq<byte>>, tab: Tabs, page: map<nat,
                              seq<byte>>, s: nat, d: nat, n: nat) {
    forall w :: 0 <= w < USER ==>
      if w < n then
        && Pte(tab0, s, w).To? && Pte(tab, d, w).To? && Pte(tab, d, w).frame in free0
        && FrameBytes(page, Pte(tab, d, w).frame) == FrameBytes(page0, Pte(tab0, s, w).frame)
      else Pte(tab, d, w).Absent?
  }

  /** The pages of the space that was there before are as they were. */
  lemma SourceSame(free0: seq<nat>, tab0: Tabs, tab: Tabs, s: nat, w: nat)
    requires Space(free0, tab0, s) && Outside(free0, tab0, tab) && w < VPAGES
    ensures Pte(tab, s, w) == Pte(tab0, s, w) && At(tab, s, w / NPT) == At(tab0, s, w / NPT)
  {
    assert Owns(tab0, s, s) && s !in free0;
    var e := At(tab0, s, w / NPT);
    if e.To? {
      assert TableOk(tab0, s, w / NPT) && IsTable(tab0, s, e.frame) && Owns(tab0, s, e.frame) && e.frame !in free0;
    }
  }

  /** A new space that still lacks frame f, which has been taken off the list for it. */
  ghost predicate Lacking(free0: seq<nat>, tab0: Tabs, free: seq<nat>, tab: Tabs, d: nat, f: nat) {
    && Space(free, tab, d) && (forall x :: Has(free, tab, d, x) <==> x in free0 && x != f) && Outside(free0, tab0, tab)
    && f in free0 && Usable(f)
  }

  lemma TakeFrame(free0: seq<nat>, tab0: Tabs, free: seq<nat>, tab: Tabs, d: nat)
    requires NewSpace(free0, tab0, free, tab, d) && free != []
    ensures Lacking(free0, tab0, free[1..], tab, d, free[0])
  {
    assert free == [free[0]] + free[1..] && free[0] in free;
    assert Has(free, tab, d, free[0]);
    forall x | x in free[1..] ensures !Owns(tab, d, x) && Usable(x) && x != free[0] {
      assert x in free;
    }
    forall x ensures Has(free[1..], tab, d, x) <==> x in free0 && x != free[0] {
      assert Has(free, tab, d, x) <==> x in free0;
    }
  }

  lemma GiveFrame(free0: seq<nat>, tab0: Tabs, free1: seq<nat>, tab1: Tabs, free2: seq<nat>, tab2: Tabs, d: nat, f: nat)
    requires Lacking(free0, tab0, free1, tab1, d, f) && Space(free2, tab2, d) && Local(free1, tab1, free2, tab2, d)
    requires GainsFrame(free1, tab1, free2, tab2, d, true, f)
    ensures NewSpace(free0, tab0, free2, tab2, d)
  {
    forall x ensures Has(free2, tab2, d, x) <==> x in free0 {
      assert Has(free1, tab1, d, x) <==> x in free0 && x != f;
    }
    LocalOutside(free0, tab0, free1, tab1, free2, tab2, d);
  }

  /** The frames for n user pages and their tables. */
  function PageFrames(n: nat): nat {
    n + (n + NPT - 1) / NPT
  }

  /** With n frames, copying runs out when a page has its frame and not its table. */
  ghost predicate LosesOne(n: nat, pages: nat) {
    exists i :: 0 <= i < pages && i % NPT == 0 && n == PageFrames(i) + 1
  }

  /** For example one page, with one frame after the kernel's. */
  lemma LosesTheOnly()
    ensures LosesOne(1, 1)
  {
    assert PageFrames(0) == 0;
  }

  /** After i pages out of n frames. */
  ghost predicate CopyCounted(free: seq<nat>, tab: Tabs, d: nat, n: nat, i: nat) {
    |free| + PageFrames(i) == n && forall r :: 0 <= r < USER / NPT ==> (At(tab, d, r).To? <==> r * NPT < i)
  }

  /** There is no frame for page v, or only one and none for its table. */
  ghost predicate CopyStuck(free0: seq<nat>, free: seq<nat>, tab: Tabs, d: nat, n: nat, v: nat, lost: Option<nat>) {
    && Space(free, tab, d) && (forall x :: Has(free, tab, d, x) <==> x in free0 && lost != Some(x))
    && match lost
       case None => n == PageFrames(v)
       case Some(f) => f in free0 && v % NPT == 0 && n == PageFrames(v) + 1
  }

  lemma CountStart(free: seq<nat>, tab: Tabs, d: nat, kmap: seq<Kmap>)
    requires OnlyKernelTables(tab, d, kmap, |kmap|) && forall k :: 0 <= k < |kmap| ==> kmap[k].Kernel()
    ensures CopyCounted(free, tab, d, |free|, 0)
  {
    forall r | 0 <= r < USER / NPT ensures At(tab, d, r).Absent? {
      forall j, w: nat | 0 <= j < |kmap| && w / NPT == r ensures !kmap[j].Covers(w) {
        assert kmap[j].Kernel();
      }
      assert !InKernel(kmap, |kmap|, r);
    }
  }

  lemma CountMore(free0: seq<nat>, tab0: Tabs, free1: seq<nat>, free: seq<nat>, tab: Tabs, d: nat, n: nat, v: nat)
    requires CopyCounted(free0, tab0, d, n, v) && v < USER && free0 != [] && free1 == free0[1..]
    requires Walked(free1, tab0, free, tab, d, v)
    ensures CopyCounted(free, tab, d, n, v + 1)
  {
    var r := v / NPT;
    assert At(tab0, d, r).To? <==> r * NPT < v;
    assert PageFrames(v + 1) == PageFrames(v) + 1 + if v % NPT == 0 then 1 else 0;
  }

  lemma CountStuck(free0: seq<nat>, tab0: Tabs, d: nat, n: nat, v: nat)
    requires CopyCounted(free0, tab0, d, n, v) && v < USER && |free0| == 1 && At(tab0, d, v / NPT).Absent?
    ensures v % NPT == 0 && n == PageFrames(v) + 1
  {
    assert !(v / NPT * NPT < v);
  }

  lemma {:induction false} PageFramesGrow(i: nat, j: nat)
    requires i < j
    ensures PageFrames(i) + (if i % NPT == 0 then 2 else 1) <= PageFrames(j)
  {
    assert (i + NPT - 1) / NPT + (if i % NPT == 0 then 1 else 0) <= (j + NPT - 1) / NPT;
  }

  /** What is lost can be told from the number of frames. */
  lemma StuckTold(n: nat, v: nat, pages: nat, lost: bool)
    requires v < pages && (if lost then v % NPT == 0 && n == PageFrames(v) + 1 else n == PageFrames(v))
    ensures n < PageFrames(pages) && (lost <==> LosesOne(n, pages))
  {
    PageFramesGrow(v, pages);
    if !lost {
      forall i | 0 <= i < pages && i % NPT == 0 ensures n != PageFrames(i) + 1 {
        if i < v {
          PageFramesGrow(i, v);
        } else if v < i {
          PageFramesGrow(v, i);
        }
      }
    }
  }

  /** The next page has been copied. */
  lemma CopiedMore(free0: seq<nat>, tab0: Tabs, page0: map<nat, seq<byte>>, tab1: Tabs, page1: map<nat, seq<byte>>,
                   tab2: Tabs, page2: map<nat, seq<byte>>, s: nat, d: nat, n: nat, f: nat)
    requires CopiedPages(free0, tab0, page0, tab1, page1, s, d, n) && n < USER && Pte(tab0, s, n).To? && f in free0
    requires PteSet(tab1, tab2, d, n, To(f)) && page2 == page1[f := FrameBytes(page0, Pte(tab0, s, n).frame)]
    requires forall w :: 0 <= w < n ==> Pte(tab1, d, w) != To(f)
    ensures CopiedPages(free0, tab0, page0, tab2, page2, s, d, n + 1)
  {
  }

  /** Parent and copy share no frame, and the parent's frames and pages are what they were. */
  lemma CopyApart(free0: seq<nat>, tab0: Tabs, free: seq<nat>, tab: Tabs, s: nat, d: nat)
    requires Space(free0, tab0, s) && NewSpace(free0, tab0, free, tab, d)
    ensures SamePtes(tab0, tab, s)
    ensures forall f :: Owns(tab, s, f) <==> Owns(tab0, s, f)
    ensures forall f :: Owns(tab, d, f) ==> !Owns(tab, s, f)
  {
    forall w | 0 <= w < VPAGES ensures Pte(tab, s, w) == Pte(tab0, s, w) {
      SourceSame(free0, tab0, tab, s, w);
    }
    forall i | 0 <= i < NPT ensures At(tab, s, i) == At(tab0, s, i) {
      FirstPage(i);
      SourceSame(free0, tab0, tab, s, i * NPT);
    }
    forall f ensures Owns(tab, s, f) <==> Owns(tab0, s, f) {
      assert IsTable(tab, s, f) <==> IsTable(tab0, s, f);
      assert IsLeaf(tab, s, f) <==> IsLeaf(tab0, s, f);
    }
    forall f | Owns(tab, d, f) ensures !Owns(tab, s, f) {
      assert Has(free, tab, d, f) && f in free0;
    }
  }

  lemma FirstPage(i: nat)
    requires i < NPT
    ensures i * NPT < VPAGES && i * NPT / NPT == i
  {
  }

  /** Freeing a copy gives back exactly what making it took. */
  lemma FreeingCopyRestores(free0: seq<nat>, tab0: Tabs, free: seq<nat>, tab: Tabs, d: nat, free2: seq<nat>)
    requires NewSpace(free0, tab0, free, tab, d) && forall f :: f in free2 <==> Has(free, tab, d, f)
    ensures forall f :: f in free2 <==> f in free0
  {
    forall f ensures f in free2 <==> f in free0 {
      assert Has(free, tab, d, f) <==> f in free0;
    }
  }

  /** A sweep leaves no page behind exactly when it misses none that is mapped. */
  lemma SweptExactly(tab0: Tabs, tab: Tabs, d: nat, lo: nat, hi: nat)
    requires Swept(tab0, tab, d, lo, hi) && hi <= USER
    ensures (forall w :: lo <= w < hi ==> Pte(tab, d, w).Absent?) <==>
      (forall w :: lo <= w < hi && Missed(tab0, d, lo, w) ==> Pte(tab0, d, w).Absent?)
  {
    if forall w :: lo <= w < hi ==> Pte(tab, d, w).Absent? {
      forall w | lo <= w < hi && Missed(tab0, d, lo, w) ensures Pte(tab0, d, w).Absent? {
        assert Pte(tab, d, w).Absent?;
      }
    }
  }

  /** It misses none when it starts at a table boundary or in a table that exists. */
  lemma NothingMissed(tab: Tabs, d: nat, lo: nat, w: nat)
    requires lo % NPT == 0 || At(tab, d, lo / NPT).To?
    ensures !Missed(tab, d, lo, w)
  {
  }

  /** The same for one page: none that is mapped is passed over if the first page of the sweep is mapped. */
  lemma FirstMapped(tab: Tabs, d: nat, lo: nat, w: nat)
    requires lo % NPT == 0 || (Pte(tab, d, w).To? ==> Pte(tab, d, lo).To?)
    ensures Pte(tab, d, w).To? ==> !Missed(tab, d, lo, w)
  {
    if Pte(tab, d, w).To? {
      NothingMissed(tab, d, lo, w);
    }
  }

  /** And it can miss one: with no first table, a sweep from page 1 passes over page 1024. */
  lemma MissedPage(d: nat, t: nat, f: nat)
    requires d != t
    ensures var tab: Tabs := map[d := EmptyTable()[1 := To(t)], t := EmptyTable()[0 := To(f)]];
      Pte(tab, d, NPT) == To(f) && Missed(tab, d, 1, NPT)
  {
  }

  // ---- Growing a space -----------------------------------------------------------------------

  function Zeros(): seq<byte> {
    seq(PGSIZE, _ => 0)
  }

  /** Mapping the pages from lo on, page v needs a new table. */
  predicate NeedsTable(tab: Tabs, d: nat, lo: nat, v: nat) {
    At(tab, d, v / NPT).Absent? && (v == lo || v % NPT == 0)
  }

  /** The frames it takes to map the pages lo..v: one for each, and one for each missing table. */
  function Need(tab: Tabs, d: nat, lo: nat, v: nat): nat {
    if v <= lo then 0 else Need(tab, d, lo, v - 1) + if NeedsTable(tab, d, lo, v - 1) then 2 else 1
  }

  lemma {:induction false} NeedGrows(tab: Tabs, d: nat, lo: nat, v: nat, w: nat)
    requires lo <= v <= w
    ensures Need(tab, d, lo, v) + (w - v) <= Need(tab, d, lo, w)
    ensures v < w && NeedsTable(tab, d, lo, v) ==> Need(tab, d, lo, v) + (w - v) < Need(tab, d, lo, w)
    decreases w - v
  {
    if v < w {
      NeedGrows(tab, d, lo, v + 1, w);
      assert Need(tab, d, lo, v + 1) == Need(tab, d, lo, v) + if NeedsTable(tab, d, lo, v) then 2 else 1;
    }
  }

  /** The tables of the pages lo..a are there; the directory is otherwise as it was. */
  ghost predicate TablesMade(tab0: Tabs, tab: Tabs, d: nat, lo: nat, a: nat) {
    forall r :: 0 <= r < NPT ==>
        if lo < a && lo / NPT <= r <= (a - 1) / NPT then At(tab, d, r).To? else At(tab, d, r) == At(tab0, d, r)
  }

  /** The pages lo..a are mapped to zeroed frames that were free; every other page and frame is as it was. */
  ghost predicate GrownPages(free0: seq<nat>, tab0: Tabs, page0: map<nat, seq<byte>>, tab: Tabs,
                             page: map<nat, seq<byte>>, d: nat, lo: nat, a: nat) {
    && (forall w :: 0 <= w < VPAGES ==>
        if lo <= w < a then Pte(tab, d, w).To? && Pte(tab, d, w).frame in free0 &&
            FrameBytes(page, Pte(tab, d, w).frame) == Zeros()
        else Pte(tab, d, w) == Pte(tab0, d, w))
    && (forall u :: u !in free0 ==> FrameBytes(page, u) == FrameBytes(page0, u))
  }

  /** Frame f is in nobody's hands. */
  ghost predicate Lost(free0: seq<nat>, tab0: Tabs, free: seq<nat>, tab: Tabs, d: nat, lost: Option<nat>) {
    forall x: nat :: Has(free, tab, d, x) <==> Has(free0, tab0, d, x) && lost != Some(x)
  }

  lemma GrownMore(free0: seq<nat>, tab0: Tabs, page0: map<nat, seq<byte>>, tab1: Tabs, page1: map<nat, seq<byte>>,
                  tab2: Tabs, d: nat, lo: nat, a: nat, f: nat)
    requires GrownPages(free0, tab0, page0, tab1, page1, d, lo, a) && PteSet(tab1, tab2, d, a, To(f)) && f in free0
    requires lo <= a < VPAGES
    ensures GrownPages(free0, tab0, page0, tab2, page1[f := Zeros()], d, lo, a + 1)
  {
  }

  lemma TablesMore(tab0: Tabs, free1: seq<nat>, tab1: Tabs, free2: seq<nat>, tab2: Tabs, d: nat, lo: nat, a: nat)
    requires TablesMade(tab0, tab1, d, lo, a) && lo <= a < VPAGES && Walked(free1, tab1, free2, tab2, d, a)
    ensures TablesMade(tab0, tab2, d, lo, a + 1)
  {
  }

  /** The first free frame is taken off the list. */
  lemma FrameTaken(free: seq<nat>, tab: Tabs, d: nat)
    requires Space(free, tab, d) && free != []
    ensures Space(free[1..], tab, d) && !Has(free[1..], tab, d, free[0]) && Usable(free[0])
    ensures Lost(free, tab, free[1..], tab, d, Some(free[0]))
  {
    assert free == [free[0]] + free[1..] && free[0] in free;
    forall x | x in free[1..] ensures !Owns(tab, d, x) && Usable(x) && x != free[0] {
      assert x in free;
    }
    forall x: nat ensures Has(free[1..], tab, d, x) <==> Has(free, tab, d, x) && x != free[0] {
    }
  }

  /** And is lost, or comes back as a page of the space. */
  lemma FrameLost(free0: seq<nat>, tab0: Tabs, free1: seq<nat>, tab1: Tabs, free2: seq<nat>, d: nat, f: nat)
    requires SameFrames(free0, tab0, free1, tab1, d) && Lost(free1, tab1, free2, tab1, d, Some(f))
    ensures Lost(free0, tab0, free2, tab1, d, Some(f))
  {
    forall x: nat ensures Has(free2, tab1, d, x) <==> Has(free0, tab0, d, x) && x != f {
      assert Has(free1, tab1, d, x) == Has(free0, tab0, d, x);
    }
  }

  lemma FrameBack(free0: seq<nat>, tab0: Tabs, free1: seq<nat>, tab1: Tabs, free2: seq<nat>, free3: seq<nat>,
                  tab3: Tabs,
                  d: nat, f: nat)
    requires SameFrames(free0, tab0, free1, tab1, d) && Lost(free1, tab1, free2, tab1, d, Some(f)) && f in free1
    requires GainsFrame(free2, tab1, free3, tab3, d, true, f)
    ensures SameFrames(free0, tab0, free3, tab3, d)
  {
    assert Has(free1, tab1, d, f);
    forall x: nat ensures Has(free3, tab3, d, x) == Has(free0, tab0, d, x) {
      assert Has(free1, tab1, d, x) == Has(free0, tab0, d, x);
      assert Has(free3, tab3, d, x) <==> Has(free2, tab1, d, x) || x == f;
    }
  }

  /** The list has lost as many frames as it takes. */
  lemma ListShorter(tab0: Tabs, free0: seq<nat>, free1: seq<nat>, tab1: Tabs, free3: seq<nat>, tab3: Tabs, d: nat,
                    lo: nat,
                    a: nat)
    requires Need(tab0, d, lo, a) <= |free0| && free1 == free0[Need(tab0, d, lo, a)..] && free1 != []
    requires TablesMade(tab0, tab1, d, lo, a) && lo <= a < VPAGES && Walked(free1[1..], tab1, free3, tab3, d, a)
    ensures Need(tab0, d, lo, a + 1) <= |free0| && free3 == free0[Need(tab0, d, lo, a + 1)..]
  {
    TableMissing(tab0, tab1, d, lo, a);
    assert Need(tab0, d, lo, a + 1) == Need(tab0, d, lo, a) + if NeedsTable(tab0, d, lo, a) then 2 else 1;
  }

  /** The table of page a is missing now exactly if it was and a is the first page in it. */
  lemma TableMissing(tab0: Tabs, tab: Tabs, d: nat, lo: nat, a: nat)
    requires TablesMade(tab0, tab, d, lo, a) && lo <= a < VPAGES
    ensures At(tab, d, a / NPT).Absent? <==> NeedsTable(tab0, d, lo, a)
  {
  }

  /** The state of allocuvm's loop at page a: everything up to there is mapped. */
  ghost predicate Growing(free0: seq<nat>, tab0: Tabs, page0: map<nat, seq<byte>>, free: seq<nat>, tab: Tabs,
                          page: map<nat, seq<byte>>, d: nat, lo: nat, a: nat) {
    && Space(free, tab, d) && SameFrames(free0, tab0, free, tab, d) && GrownPages(free0, tab0, page0, tab, page, d, lo,
      a)
    && TablesMade(tab0, tab, d, lo, a) && Need(tab0, d, lo, a) <= |free0| && free == free0[Need(tab0, d, lo, a)..]
  }

  /** Or page a could not be mapped for want of a table, and the frame for it is lost. */
  ghost predicate Stuck(free0: seq<nat>, tab0: Tabs, page0: map<nat, seq<byte>>, free: seq<nat>, tab: Tabs,
                        page: map<nat, seq<byte>>, d: nat, lo: nat, a: nat, lost: Option<nat>) {
    && Space(free, tab, d) && Lost(free0, tab0, free, tab, d, lost) && GrownPages(free0, tab0, page0, tab, page, d, lo,
      a)
    && free == [] && |free0| == Need(tab0, d, lo, a) + 1 && NeedsTable(tab0, d, lo, a)
  }

  ghost predicate NothingMapped(tab: Tabs, d: nat, lo: nat, hi: nat) {
    forall w :: lo <= w < hi && w < USER ==> Pte(tab, d, w).Absent?
  }

  /** With n free frames, allocuvm loses one: the one it has taken for a page that needs a table, when no other is
      left. */
  predicate Leaks(tab: Tabs, d: nat, lo: nat, hi: nat, n: nat) {
    exists v :: lo <= v < hi && NeedsTable(tab, d, lo, v) && n == Need(tab, d, lo, v) + 1
  }

  /** And if that is the last page, there is nothing left to fail. */
  predicate OneShort(tab: Tabs, d: nat, lo: nat, hi: nat, n: nat) {
    lo < hi && NeedsTable(tab, d, lo, hi - 1) && n == Need(tab, d, lo, hi - 1) + 1
  }

  /** For example the first page of a space without tables, when one frame is left. */
  lemma LastFrame(tab: Tabs, d: nat)
    requires At(tab, d, 0).Absent?
    ensures OneShort(tab, d, 0, 1, 1)
  {
    assert Need(tab, d, 0, 0) == 0;
  }

  /** Which outcome it is: all pages up to v are mapped, and v is the end or could not be. */
  lemma Outcome(tab: Tabs, d: nat, lo: nat, hi: nat, n: nat, v: nat, stuck: bool)
    requires lo <= v <= hi && (stuck ==> v < hi && NeedsTable(tab, d, lo, v) && n == Need(tab, d, lo, v) + 1)
    requires !stuck ==> if v == hi then n >= Need(tab, d, lo, v) else n == Need(tab, d, lo, v)
    ensures stuck <==> Leaks(tab, d, lo, hi, n)
    ensures n >= Need(tab, d, lo, hi) <==> v == hi
    ensures OneShort(tab, d, lo, hi, n) <==> stuck && v + 1 == hi
  {
    forall w | lo <= w < hi && NeedsTable(tab, d, lo, w) && n == Need(tab, d, lo, w) + 1 ensures stuck && w == v {
      if w < v {
        NeedGrows(tab, d, lo, w, v);
      } else {
        NeedGrows(tab, d, lo, v, w);
      }
    }
    NeedGrows(tab, d, lo, v, hi);
  }

  /** Freeing what has been mapped leaves the pages as they were. */
  lemma GaveUp(free0: seq<nat>, tab0: Tabs, page0: map<nat, seq<byte>>, tab1: Tabs, page1: map<nat, seq<byte>>,
               tab2: Tabs,
               d: nat, lo: nat, a: nat, hi: nat)
    requires GrownPages(free0, tab0, page0, tab1, page1, d, lo, a) && lo <= a <= hi <= USER
    requires Swept(tab1, tab2, d, lo, hi) && NothingMapped(tab0, d, lo, hi)
    ensures SamePtes(tab0, tab2, d)
  {
    forall w | 0 <= w < VPAGES ensures Pte(tab2, d, w) == Pte(tab0, d, w) {
      if lo <= w < a {
        FirstMapped(tab1, d, lo, w);
      }
    }
  }

  lemma StillLost(free0: seq<nat>, tab0: Tabs, free1: seq<nat>, tab1: Tabs, free2: seq<nat>, tab2: Tabs, d: nat,
                  lost: Option<nat>)
    requires Lost(free0, tab0, free1, tab1, d, lost) && SameFrames(free1, tab1, free2, tab2, d)
    ensures Lost(free0, tab0, free2, tab2, d, lost)
  {
    forall x: nat ensures Has(free2, tab2, d, x) <==> Has(free0, tab0, d, x) && lost != Some(x) {
      assert Has(free2, tab2, d, x) == Has(free1, tab1, d, x);
    }
  }

  /**
   What allocuvm comes to, growing the pages lo..hi. It depends on the number of free frames alone: with enough of them
   every page is mapped; with one too few and the last page in need of a table, every page but the last, and it says
   newsz all the same; otherwise none, and it says 0. At most one frame is lost.
   */
  ghost predicate AllocDone(free0: seq<nat>, tab0: Tabs, page0: map<nat, seq<byte>>, free: seq<nat>, tab: Tabs,
                            page: map<nat, seq<byte>>, d: nat, lo: nat, hi: nat, newsz: nat, sz: nat,
                            lost: Option<nat>) {
    && Space(free, tab, d) && Lost(free0, tab0, free, tab, d, lost) && (lost.Some? <==> Leaks(tab0, d, lo, hi, |free0|))
    && if |free0| >= Need(tab0, d, lo, hi) then
         sz == newsz && GrownPages(free0, tab0, page0, tab, page, d, lo, hi)
       else if OneShort(tab0, d, lo, hi, |free0|) then
         sz == newsz && GrownPages(free0, tab0, page0, tab, page, d, lo, hi - 1)
       else
         sz == 0 && SamePtes(tab0, tab, d)
  }

  lemma BelowSize(a: nat, sz: nat)
    ensures a * PGSIZE < sz <==> a < RoundUp(sz)
    ensures sz < USER * PGSIZE ==> RoundUp(sz) <= USER
  {
  }

  /** The state of allocuvm's loop at page a. */
  ghost predicate InLoop(free0: seq<nat>, tab0: Tabs, page0: map<nat, seq<byte>>, free: seq<nat>, tab: Tabs,
                         page: map<nat, seq<byte>>, d: nat, lo: nat, a: nat, lost: Option<nat>) {
    if lost.None? then Growing(free0, tab0, page0, free, tab, page, d, lo, a)
    else lo < a && Stuck(free0, tab0, page0, free, tab, page, d, lo, a - 1, lost)
  }

  lemma LoopDone(free0: seq<nat>, tab0: Tabs, page0: map<nat, seq<byte>>, free: seq<nat>, tab: Tabs,
                 page: map<nat, seq<byte>>, d: nat, lo: nat, hi: nat, newsz: nat, lost: Option<nat>)
    requires InLoop(free0, tab0, page0, free, tab, page, d, lo, hi, lost) && lo <= hi
    ensures AllocDone(free0, tab0, page0, free, tab, page, d, lo, hi, newsz, newsz, lost)
  {
    Outcome(tab0, d, lo, hi, |free0|, if lost.None? then hi else hi - 1, lost.Some?);
  }

  lemma NoneDone(free0: seq<nat>, tab0: Tabs, page0: map<nat, seq<byte>>, free: seq<nat>, tab: Tabs,
                 page: map<nat, seq<byte>>, d: nat, lo: nat, hi: nat, newsz: nat, lost: Option<nat>, v: nat)
    requires Space(free, tab, d) && Lost(free0, tab0, free, tab, d, lost) && SamePtes(tab0, tab, d) && lo <= v < hi
    requires if lost.Some? then v + 1 < hi && NeedsTable(tab0, d, lo, v) && |free0| == Need(tab0, d, lo, v) + 1
             else |free0| == Need(tab0, d, lo, v)
    ensures AllocDone(free0, tab0, page0, free, tab, page, d, lo, hi, newsz, 0, lost)
  {
    Outcome(tab0, d, lo, hi, |free0|, v, lost.Some?);
  }

  // ---- The size of a process -------------------------------------------------------------------

  /** A process has its size: every page below is mapped, and none above. */
  ghost predicate Sized(tab: Tabs, d: nat, sz: nat) {
    (forall w :: 0 <= w < RoundUp(sz) ==> Pte(tab, d, w).To?) && NothingMapped(tab, d, RoundUp(sz), USER)
  }

  /** Shrinking a process that has its size leaves no page behind, and it has its size again. */
  lemma ShrunkSized(tab0: Tabs, tab: Tabs, d: nat, oldsz: nat, newsz: nat)
    requires Sized(tab0, d, oldsz) && newsz < oldsz <= USER * PGSIZE
    requires Swept(tab0, tab, d, RoundUp(newsz), RoundUp(oldsz))
    ensures Sized(tab, d, newsz)
  {
    var lo, hi := RoundUp(newsz), RoundUp(oldsz);
    forall w | 0 <= w < USER ensures if w < lo then Pte(tab, d, w).To? else Pte(tab, d, w).Absent? {
      if lo <= w < hi {
        FirstMapped(tab0, d, lo, w);
      }
    }
  }

  /** What growproc (proc.c:108-123) makes of the size sz, None for -1; `room` says that it gets its frames. */
  function NewSize(sz: nat, n: int, room: bool): Option<nat> {
    if n > 0 then
      if sz + n >= KERNBASE || !room then None else Some(sz + n)
    else if n < 0 then
      var newsz := (sz + n) % UINT_LIMIT;
      var left := if newsz >= sz then sz else newsz;
      if left == 0 then None else Some(left)
    else Some(sz)
  }

  /** There is a frame for every page, or for all but the last. */
  predicate CanGrow(tab: Tabs, d: nat, oldsz: nat, newsz: nat, frames: nat) {
    var lo, hi := RoundUp(oldsz), RoundUp(newsz);
    frames >= Need(tab, d, lo, hi) || OneShort(tab, d, lo, hi, frames)
  }

  /** Growing it gives it its new size exactly if the last page is not the one that is missing. */
  lemma GrownSized(free0: seq<nat>, tab0: Tabs, page0: map<nat, seq<byte>>, free: seq<nat>, tab: Tabs,
                   page: map<nat, seq<byte>>, d: nat, oldsz: nat, newsz: nat, sz: nat, lost: Option<nat>)
    requires Sized(tab0, d, oldsz) && oldsz <= newsz < USER * PGSIZE && 0 < newsz
    requires AllocDone(free0, tab0, page0, free, tab, page, d, RoundUp(oldsz), RoundUp(newsz), newsz, sz, lost)
    ensures sz == if CanGrow(tab0, d, oldsz, newsz, |free0|) then newsz else 0
    ensures sz == 0 ==> Sized(tab, d, oldsz) && !OneShort(tab0, d, RoundUp(oldsz), RoundUp(newsz), |free0|)
    ensures sz != 0 ==>
      (Sized(tab, d, newsz) <==> !OneShort(tab0, d, RoundUp(oldsz), RoundUp(newsz), |free0|))
  {
    var lo, hi := RoundUp(oldsz), RoundUp(newsz);
    if |free0| >= Need(tab0, d, lo, hi) {
      NotShort(tab0, d, lo, hi, |free0|);
      assert forall w :: 0 <= w < VPAGES && lo <= w < hi ==> Pte(tab, d, w).To?;
    } else if OneShort(tab0, d, lo, hi, |free0|) {
      assert Pte(tab, d, hi - 1) == Pte(tab0, d, hi - 1);
      assert Pte(tab0, d, hi - 1).Absent?;
    }
  }

  /** What growproc makes of allocuvm's result. */
  lemma GrowDone(free0: seq<nat>, tab0: Tabs, page0: map<nat, seq<byte>>, free: seq<nat>, tab: Tabs,
                 page: map<nat, seq<byte>>, d: nat, sz: nat, n: nat, newsz: nat, lost: Option<nat>)
    requires Space(free0, tab0, d) && Sized(tab0, d, sz) && 0 < n
    requires sz + n >= USER * PGSIZE ==> newsz == 0 && free == free0 && tab == tab0
    requires sz + n < USER * PGSIZE ==>
      AllocDone(free0, tab0, page0, free, tab, page, d, RoundUp(sz), RoundUp(sz + n), sz + n, newsz, lost)
    ensures Space(free, tab, d)
    ensures newsz == if sz + n < USER * PGSIZE && CanGrow(tab0, d, sz, sz + n, |free0|) then sz + n else 0
    ensures Sized(tab, d, if newsz != 0 then newsz else sz) <==> !BreaksSize(tab0, d, sz, n, |free0|)
  {
    if sz + n < USER * PGSIZE {
      GrownSized(free0, tab0, page0, free, tab, page, d, sz, sz + n, newsz, lost);
    }
  }

  lemma NotShort(tab: Tabs, d: nat, lo: nat, hi: nat, n: nat)
    requires n >= Need(tab, d, lo, hi)
    ensures !OneShort(tab, d, lo, hi, n)
  {
    if lo < hi && NeedsTable(tab, d, lo, hi - 1) {
      NeedGrows(tab, d, lo, hi - 1, hi);
    }
  }

  /** growproc(n) takes a process of size sz out of its size: the last new page is missing, or everything has been freed
      and the size has stayed (proc.c:114, proc.c:117). */
  predicate BreaksSize(tab: Tabs, d: nat, sz: nat, n: int, frames: nat) {
    || (n > 0 && sz + n < USER * PGSIZE && OneShort(tab, d, RoundUp(sz), RoundUp(sz + n), frames))
    || (n < 0 && sz + n == 0)
  }

  /** Shrinking to nothing is refused after the pages have been freed; for example the only page. */
  lemma ShrunkAway(tab: Tabs, d: nat, frames: nat, room: bool)
    ensures BreaksSize(tab, d, 4096, -4096, frames) && NewSize(4096, -4096, room).None?
  {
  }

  /** One frame left, and a page in a table that is missing: that happens at any page. */
  lemma ShortAnywhere(tab: Tabs, d: nat, v: nat)
    requires At(tab, d, v / NPT).Absent?
    ensures OneShort(tab, d, v, v + 1, 1)
  {
    assert Need(tab, d, v, v) == 0;
  }

  /** A process grown through table 1 like that has pages behind it and none in it; shrinking it to page 1030 leaves
      page 2049 mapped. */
  lemma LeftBehind(tab: Tabs, tab': Tabs, d: nat)
    requires At(tab, d, 1).Absent? && Pte(tab, d, 2049).To? && Swept(tab, tab', d, 1030, 2051)
    ensures Pte(tab', d, 2049).To?
  {
    assert Missed(tab, d, 1030, 2049);
  }

  // ---- Writing to user memory -----------------------------------------------------------------

  /** Every mapped user page has PGSIZE bytes. */
  ghost predicate PagesOk(tab: Tabs, page: map<nat, seq<byte>>, d: nat) {
    forall v {:trigger Pte(tab, d, v)} :: 0 <= v < USER && Pte(tab, d, v).To? ==>
        |FrameBytes(page, Pte(tab, d, v).frame)| == PGSIZE
  }

  /** The byte at user address x, if its page is mapped. */
  function UserByte(tab: Tabs, page: map<nat, seq<byte>>, d: nat, x: nat): Option<byte> {
    var e := Pte(tab, d, x / PGSIZE);
    if e.To? && x % PGSIZE < |FrameBytes(page, e.frame)| then Some(FrameBytes(page, e.frame)[x % PGSIZE]) else None
  }

  /** The first k bytes of src have been written at va; every other user byte is as it was. */
  ghost predicate WrittenOut(tab: Tabs, page0: map<nat, seq<byte>>, page: map<nat, seq<byte>>, d: nat, va: nat,
                             src: seq<byte>, k: nat)
    requires k <= |src|
  {
    forall x :: 0 <= x < USER * PGSIZE ==>
      UserByte(tab, page, d, x) == if va <= x < va + k then Some(src[x - va]) else UserByte(tab, page0, d, x)
  }

  function Patched(p: seq<byte>, off: nat, chunk: seq<byte>): seq<byte>
    requires off + |chunk| <= |p|
  {
    p[..off] + chunk + p[off + |chunk|..]
  }

  /** Writing into one page changes the bytes there and no others, since no frame is mapped twice. */
  lemma PatchPage(tab: Tabs, page: map<nat, seq<byte>>, d: nat, v: nat, off: nat, chunk: seq<byte>, x: nat)
    requires LeavesOk(tab, d) && PagesOk(tab, page, d) && v < USER && Pte(tab, d, v).To? && off + |chunk| <= PGSIZE &&
      x < USER * PGSIZE
    ensures var f := Pte(tab, d, v).frame;
      var page' := page[f := Patched(FrameBytes(page, f), off, chunk)];
      && PagesOk(tab, page', d)
      && UserByte(tab, page', d, x) == if v * PGSIZE + off <= x < v * PGSIZE + off + |chunk|
        then Some(chunk[x - v * PGSIZE - off]) else UserByte(tab, page, d, x)
  {
    assert x / PGSIZE != v ==> !SameLeaf(tab, d, v, x / PGSIZE);
    assert x == x / PGSIZE * PGSIZE + x % PGSIZE;
  }

  lemma PatchMore(tab: Tabs, page0: map<nat, seq<byte>>, page: map<nat, seq<byte>>, d: nat, va: nat, src: seq<byte>,
                  k: nat, n: nat, v: nat, off: nat)
    requires LeavesOk(tab, d) && PagesOk(tab, page, d) && v < USER && Pte(tab, d, v).To? && off + n <= PGSIZE
    requires k + n <= |src| && va + k == v * PGSIZE + off && WrittenOut(tab, page0, page, d, va, src, k)
    ensures var f := Pte(tab, d, v).frame;
      var page' := page[f := Patched(FrameBytes(page, f), off, src[k .. k + n])];
      PagesOk(tab, page', d) && WrittenOut(tab, page0, page', d, va, src, k + n)
  {
    var chunk := src[k .. k + n];
    var page' := page[Pte(tab, d, v).frame := Patched(FrameBytes(page, Pte(tab, d, v).frame), off, chunk)];
    PatchPage(tab, page, d, v, off, chunk, 0);
    forall x | 0 <= x < USER * PGSIZE
      ensures UserByte(tab, page', d, x) == if va <= x < va + (k + n) then Some(src[x - va])
        else UserByte(tab, page0, d, x)
    {
      PatchPage(tab, page, d, v, off, chunk, x);
    }
  }

  /** copyout succeeds, meets a page that is not mapped for users, or has no page table to look it up in. */
  datatype OutResult = Copied | Unmapped | NoTable

  datatype Made = Made(dir: nat) | Refused | Panicked

  datatype MapResult = Mapped | NoMemory | Remap

  class Memory {
    var free: seq<nat>               // kmem.freelist
    var tab: Tabs
    var page: map<nat, seq<byte>>    // the contents of the other frames
    ghost var dry: nat               // how often kalloc has found nothing

    method Kalloc() returns (r: Option<nat>)
      modifies this`free, this`dry
      ensures dry == old(dry) + if r.None? then 1 else 0
      ensures r.None? <==> old(free) == []
      ensures r.None? ==> free == old(free)
      ensures r.Some? ==> r.value == old(free)[0] && free == old(free)[1..]
    {
      if free == [] {
        dry := dry + 1;
        return None;
      }
      r := Some(free[0]);
      free := free[1..];
    }

    /** False: the panic "kfree". */
    method Kfree(f: nat) returns (ok: bool)
      modifies this`free
      ensures ok == Usable(f) && free == if ok then [f] + old(free) else old(free)
    {
      if !(LOW <= f < HIGH) {
        return false;
      }
      free := [f] + free;
      return true;
    }

    /** Make sure page v has a table (vm.c:45-65 with alloc set). */
    method Walk(d: nat, v: nat) returns (ok: bool)
      requires Space(free, tab, d) && v < VPAGES
      modifies this`free, this`tab, this`dry
      ensures Space(free, tab, d) && SamePtes(old(tab), tab, d) && SameFrames(old(free), old(tab), free, tab, d)
      ensures Local(old(free), old(tab), free, tab, d)
      ensures ok ==> Walked(old(free), old(tab), free, tab, d, v)
      ensures !ok ==> NoWalk(old(free), old(tab), free, tab, d, v)
      ensures dry == old(dry) + if ok then 0 else 1
    {
      if At(tab, d, v / NPT).Absent? {
        var t := Kalloc();
        if t.None? {
          return false;
        }
        NewTableSpace(old(free), tab, d, v / NPT);
        assert t.value in old(free);
        forall w | 0 <= w < VPAGES ensures Pte(NewTable(tab, d, v / NPT, t.value), d, w) == Pte(tab, d, w) {
          NewTablePte(tab, d, v / NPT, t.value, w);
        }
        forall f ensures Has(free, NewTable(tab, d, v / NPT, t.value), d, f) == Has(old(free), tab, d, f) {
          NewTableHas(old(free), tab, d, v / NPT, f);
        }
        forall u ensures IsTable(NewTable(tab, d, v / NPT, t.value), d, u) <==> IsTable(tab, d, u) || u == t.value {
          NewTableOwns(tab, d, v / NPT, t.value, u);
        }
        forall r | 0 <= r < NPT
          ensures At(NewTable(tab, d, v / NPT, t.value), d, r) == if r == v / NPT then To(t.value) else At(tab, d, r)
        {
          NewTableAt(tab, d, v / NPT, t.value, d, r);
        }
        tab := tab[t.value := EmptyTable()];
        tab := tab[d := tab[d][v / NPT := To(t.value)]];
      }
      return true;
    }

    /** *pte = e, for a page that has a table. */
    method StorePte(d: nat, v: nat, e: Entry)
      requires Shaped(tab, d) && v < VPAGES && At(tab, d, v / NPT).To?
      modifies this`tab
      ensures tab == SetPte(old(tab), d, v, e)
    {
      assert TableOk(tab, d, v / NPT);
      var t := At(tab, d, v / NPT).frame;
      tab := tab[t := tab[t][v % NPT := e]];
    }

    /** Map page v to frame f: one turn of mappages' loop (vm.c:79-83). */
    method MapPage(d: nat, v: nat, f: nat) returns (r: MapResult)
      requires Space(free, tab, d) && v < VPAGES && (v < USER ==> !Has(free, tab, d, f) && Usable(f))
      modifies this`free, this`tab, this`dry
      ensures Space(free, tab, d) && Local(old(free), old(tab), free, tab, d)
      ensures !r.Mapped? ==> SamePtes(old(tab), tab, d) && SameFrames(old(free), old(tab), free, tab, d)
      ensures r.NoMemory? ==> NoWalk(old(free), old(tab), free, tab, d, v)
      ensures r.Mapped? ==> Walked(old(free), old(tab), free, tab, d, v)
      ensures r.Remap? ==> Pte(old(tab), d, v).To?
      ensures r.Mapped? ==> Pte(old(tab), d, v).Absent? && PteSet(old(tab), tab, d, v, To(f))
      ensures r.Mapped? ==> GainsFrame(old(free), old(tab), free, tab, d, v < USER, f)
      ensures dry == old(dry) + if r.NoMemory? then 1 else 0
    {
      var ok := Walk(d, v);
      if !ok {
        return NoMemory;
      }
      if Pte(tab, d, v).To? {
        return Remap;
      }
      ghost var free1, tab1 := free, tab;
      StorePte(d, v, To(f));
      MapStep(old(free), old(tab), free1, tab1, tab, d, v, f);
      WalkedThenSet(old(free), old(tab), free1, tab1, d, v, To(f));
      return Mapped;
    }

    /** One turn of mappages' loop. */
    method MapNext(d: nat, v: nat, f: nat, ghost free0: seq<nat>, ghost tab0: Tabs, ghost a: nat, ghost p: nat,
                   ghost k: nat, ghost k1: nat, ghost n: nat)
      returns (r: MapResult)
      requires a < VPAGES && p < VPAGES && k1 == k + 1 <= n <= VPAGES && v == Up(a, k) && f == Up(p, k)
      requires RangeDone(free0, tab0, free, tab, d, a, p, k) && FreshRange(free0, tab0, d, a, p, n)
      modifies this`free, this`tab, this`dry
      ensures Space(free, tab, d) && (r.NoMemory? ==> RanOut(free0, tab0, free, tab, d, a, p, n))
      ensures r.Remap? ==> AlreadyMapped(tab0, d, a, n)
      ensures r.Mapped? ==> RangeDone(free0, tab0, free, tab, d, a, p, k1)
      ensures dry == old(dry) + if r.NoMemory? then 1 else 0
    {
      UserFrameMore(a, p, k, f);
      FreshMore(a, p, k, n, f);
      assert v < USER ==> !Has(free, tab, d, f) && Usable(f) by {
        assert Has(free, tab, d, f) <==> Has(free0, tab0, d, f) || UserFrame(a, p, k, f);
      }
      ghost var free1, tab1 := free, tab;
      r := MapPage(d, v, f);
      if r.Mapped? {
        RangeStep(free0, tab0, free1, tab1, free, tab, d, a, p, k);
      } else if r.Remap? {
        UpBack(a, k, v);
        assert Back(a, v) == k && Pte(tab0, d, v).To?;
      } else {
        RanOutAt(free0, tab0, tab, d, a, p, k, n);
      }
    }

    /**
     Map the pages of va .. va + size - 1 to the frames from pa on (vm.c:71-90). Every path ends, also when the
     range runs up to 2^32 or, for size 0, all the way around.
     */
    method Mappages(d: nat, va: nat, size: nat, pa: nat) returns (r: MapResult)
      requires Space(free, tab, d) && va < UINT_LIMIT && size < UINT_LIMIT && pa < VPAGES
      requires FreshRange(free, tab, d, va / PGSIZE, pa, PageCount(va, size))
      modifies this`free, this`tab, this`dry
      ensures Space(free, tab, d)
      ensures r.NoMemory? ==> RanOut(old(free), old(tab), free, tab, d, va / PGSIZE, pa, PageCount(va, size))
      ensures r.Remap? ==> AlreadyMapped(old(tab), d, va / PGSIZE, PageCount(va, size))
      ensures r.Mapped? ==> RangeDone(old(free), old(tab), free, tab, d, va / PGSIZE, pa, PageCount(va, size))
      ensures dry == old(dry) + if r.NoMemory? then 1 else 0
    {
      ghost var free0, tab0, a0, n := free, tab, va / PGSIZE, PageCount(va, size);
      var a, last, p := va / PGSIZE, LastPage(va, size), pa;
      ghost var k: nat := 0;
      RangeEmpty(free, tab, d, a0, pa);
      UpBack(a0, 0, a0);
      UpBack(pa, 0, pa);
      while true
        invariant k < n && a == Up(a0, k) && p == Up(pa, k)
        invariant RangeDone(free0, tab0, free, tab, d, a0, pa, k) == true && dry == old(dry)
        decreases n - k
      {
        ghost var k1 := k + 1;
        CursorMore(a0, pa, k, n, last);
        r := MapNext(d, a, p, free0, tab0, a0, pa, k, k1, n);
        if !r.Mapped? || a == last {
          return;
        }
        a, p := (a + 1) % VPAGES, (p + 1) % VPAGES;
        k := k1;
      }
    }

    /** Free the page at v, if there is one (vm.c:263-270). False: the panic "kfree". */
    method FreePage(d: nat, v: nat) returns (ok: bool)
      requires Space(free, tab, d) && v < USER && At(tab, d, v / NPT).To?
      modifies this`free, this`tab
      ensures ok && Space(free, tab, d) && PteSet(old(tab), tab, d, v, Absent) &&
        SameFrames(old(free), old(tab), free, tab, d)
      ensures SameDir(old(tab), tab, d)
    {
      var e := Pte(tab, d, v);
      if e.To? {
        assert IsLeaf(tab, d, e.frame) && Owns(tab, d, e.frame);
        ghost var free0, tab0 := free, tab;
        ok := Kfree(e.frame);
        StorePte(d, v, Absent);
        UnmapStep(free0, tab0, free, tab, d, v, e.frame);
      }
      return true;
    }

    /** The state of deallocuvm's loop at page a, on its way from lo to hi. */
    ghost predicate Sweeping(free0: seq<nat>, tab0: Tabs, d: nat, lo: nat, hi: nat, a: nat)
      reads this
    {
      && Space(free, tab, d) && SameFrames(free0, tab0, free, tab, d) && SameDir(tab0, tab, d)
      && lo <= a && Swept(tab0, tab, d, lo, if a < hi then a else hi) && OnTrack(tab0, d, lo, a)
    }

    /** One turn: skip a missing table, or free one page (vm.c:260-271). */
    method DeallocNext(d: nat, a: nat, ghost free0: seq<nat>, ghost tab0: Tabs, ghost lo: nat, ghost hi: nat)
        returns (x: nat)
      requires Sweeping(free0, tab0, d, lo, hi, a) && a < hi <= USER
      modifies this`free, this`tab
      ensures a < x && Sweeping(free0, tab0, d, lo, hi, x)
    {
      assert At(tab, d, a / NPT) == At(tab0, d, a / NPT);
      if At(tab, d, a / NPT).Absent? {
        x := a + (NPT - 1) + 1;
        SkipTable(tab0, tab, d, lo, a, if x < hi then x else hi);
        return;
      }
      ghost var free1, tab1 := free, tab;
      var ok := FreePage(d, a);
      SweepPage(tab0, tab1, tab, d, lo, a);
      SameFramesTrans(free0, tab0, free1, tab1, free, tab, d);
      return a + 1;
    }

    /** Free the user pages from newsz up to oldsz, in bytes (vm.c:249-273). */
    method Deallocuvm(d: nat, oldsz: nat, newsz: nat) returns (sz: nat)
      requires Space(free, tab, d) && oldsz <= USER * PGSIZE
      modifies this`free, this`tab
      ensures Space(free, tab, d) && SameFrames(old(free), old(tab), free, tab, d) && SameDir(old(tab), tab, d)
      ensures newsz >= oldsz ==> sz == oldsz && free == old(free) && tab == old(tab)
      ensures newsz < oldsz ==> sz == newsz && Swept(old(tab), tab, d, RoundUp(newsz), RoundUp(oldsz))
    {
      if newsz >= oldsz {
        return oldsz;
      }
      ghost var free0, tab0, lo, hi := free, tab, RoundUp(newsz), RoundUp(oldsz);
      var a := RoundUp(newsz);
      while a * PGSIZE < oldsz
        invariant Sweeping(free0, tab0, d, lo, hi, a)
        decreases hi - a
      {
        a := DeallocNext(d, a, free0, tab0, lo, hi);
      }
      return newsz;
    }

    /** Free every user page, every table and the directory (vm.c:278-292). Each frame comes back exactly once. */
    method Freevm(d: nat) returns (ok: bool)
      requires Space(free, tab, d)
      modifies this`free, this`tab
      ensures ok && NoDup(free)
      ensures forall f :: f in free <==> Has(old(free), old(tab), d, f)
    {
      ghost var free0, tab0 := free, tab;
      var sz := Deallocuvm(d, USER * PGSIZE, 0);
      NoPagesLeft(free0, tab0, free, tab, d);
      ghost var free1, tab1 := free, tab;
      var i := 0;
      while i < NPT
        invariant 0 <= i <= NPT && tab == tab1 && Freeing(free1, free, tab, d, i)
      {
        var e := At(tab, d, i);
        FreeingMore(free1, free, tab, d, i);
        if e.To? {
          ok := Kfree(e.frame);
        }
        i := i + 1;
      }
      FreedAll(free1, free, tab, d);
      ghost var free2 := free;
      ok := Kfree(d);
      forall f ensures f in free <==> Has(free0, tab0, d, f) {
        assert f in free <==> f == d || f in free2;
        assert Left(free1, tab, d, f) == Has(free0, tab0, d, f);
      }
    }

    /** A directory with the kernel's mappings and no user pages (vm.c:128-144); no panic unless a page is mapped
        twice. */
    method Setupkvm(kmap: seq<Kmap>) returns (r: Made)
      requires FreeList(free) && forall k :: 0 <= k < |kmap| ==> kmap[k].Kernel()
      modifies this`free, this`tab, this`dry
      ensures r.Made? ==> KernelSpace(old(free), old(tab), free, tab, r.dir, kmap, |kmap|)
      ensures r.Made? ==> |old(free)| == |free| + 1 + |KernelTables(kmap)|
      // what it has taken is lost
      ensures r.Refused? ==> |old(free)| < 1 + |KernelTables(kmap)| && free == []
      ensures Apart(kmap) ==> !r.Panicked?
      ensures dry == old(dry) + if r.Refused? then 1 else 0
    {
      ghost var free0, tab0 := free, tab;
      var dir := Kalloc();
      if dir.None? {
        return Refused;
      }
      var d := dir.value;
      KernelSpaceStart(free0, tab0, kmap);
      tab := tab[d := EmptyTable()];
      var k := 0;
      while k < |kmap|
        invariant 0 <= k <= |kmap| && KernelSpace(free0, tab0, free, tab, d, kmap, k) == true && dry == old(dry)
      {
        ghost var k1 := k + 1;
        var m := MapKernel(d, kmap, k, free0, tab0, k1);
        if !m.Mapped? {
          return if m.NoMemory? then Refused else Panicked;
        }
        k := k + 1;
      }
      KernelSpaceDone(free0, tab0, free, tab, d, kmap);
      return Made(d);
    }

    method MapKernel(d: nat, kmap: seq<Kmap>, i: nat, ghost free0: seq<nat>, ghost tab0: Tabs, ghost i1: nat)
      returns (m: MapResult)
      requires i < |kmap| && kmap[i].Kernel() && i1 == i + 1 && NoDup(free0)
      requires KernelSpace(free0, tab0, free, tab, d, kmap, i)
      modifies this`free, this`tab, this`dry
      ensures m.Mapped? ==> KernelSpace(free0, tab0, free, tab, d, kmap, i1)
      ensures m.NoMemory? ==> |free0| < 1 + |KernelTables(kmap)| && free == []
      ensures Apart(kmap) ==> !m.Remap?
      ensures dry == old(dry) + if m.NoMemory? then 1 else 0
    {
      var k := kmap[i];
      ghost var free1, tab1, a, p, n := free, tab, k.virt / PGSIZE, k.start / PGSIZE, PageCount(k.virt, k.Size());
      forall x ensures !UserFrame(a, p, n, x) {
      }
      m := Mappages(d, k.virt, k.Size(), k.start / PGSIZE);
      if m.Mapped? {
        NewSpaceKernel(free0, tab0, free1, tab1, free, tab, d, a, p, n);
        RangeInKernel(tab1, tab, d, kmap, i, a, n);
      } else if m.NoMemory? {
        StuckInKernel(free0, tab0, free1, tab1, tab, d, kmap, i, a, p, n);
      } else if Apart(kmap) {
        NotYetMapped(tab1, d, kmap, i);
      }
    }

    /** mappages for one user page. */
    method MapUser(d: nat, v: nat, f: nat) returns (r: MapResult)
      requires Space(free, tab, d) && v < USER && !Has(free, tab, d, f) && Usable(f) && Pte(tab, d, v).Absent?
      modifies this`free, this`tab, this`dry
      ensures !r.Remap? && Space(free, tab, d)
      ensures r.Mapped? ==> PteSet(old(tab), tab, d, v, To(f)) && Local(old(free), old(tab), free, tab, d)
      ensures r.Mapped? ==> GainsFrame(old(free), old(tab), free, tab, d, true, f)
      ensures r.Mapped? ==> Walked(old(free), old(tab), free, tab, d, v)
      ensures r.NoMemory? ==> NoWalk(old(free), old(tab), free, tab, d, v)
      ensures dry == old(dry) + if r.NoMemory? then 1 else 0
    {
      OnePage(v, f);
      assert !AlreadyMapped(tab, d, v, 1);
      r := Mappages(d, v * PGSIZE, PGSIZE, f);
    }

    /** The state of copyuvm's loop after n pages. */
    ghost predicate CopyingPages(free0: seq<nat>, tab0: Tabs, page0: map<nat, seq<byte>>, s: nat, d: nat, n: nat)
      reads this
    {
      && NewSpace(free0, tab0, free, tab, d) && CopiedPages(free0, tab0, page0, tab, page, s, d, n)
      && forall u :: u !in free0 ==> FrameBytes(page, u) == FrameBytes(page0, u)
    }

    /** One page: allocate, copy, map (vm.c:320-329). */
    method CopyPage(s: nat, d: nat, v: nat, ghost free0: seq<nat>, ghost tab0: Tabs, ghost page0: map<nat, seq<byte>>,
                    ghost n: nat, ghost v1: nat) returns (r: Made, ghost lost: Option<nat>)
      requires Space(free0, tab0, s) && CopyingPages(free0, tab0, page0, s, d, v) && v < USER && v1 == v + 1
      requires CopyCounted(free, tab, d, n, v)
      modifies this
      ensures r.Panicked? ==> Pte(tab0, s, v).Absent?
      ensures r.Made? ==> r.dir == d && CopyingPages(free0, tab0, page0, s, d, v1) && CopyCounted(free, tab, d, n, v1)
      ensures r.Refused? ==> CopyStuck(free0, free, tab, d, n, v, lost)
      ensures dry == old(dry) + if r.Refused? then 1 else 0
    {
      SourceSame(free0, tab0, tab, s, v);
      if At(tab, s, v / NPT).Absent? || Pte(tab, s, v).Absent? {
        return Panicked, None;
      }
      var pa := Pte(tab, s, v).frame;
      assert IsLeaf(tab0, s, pa) && Owns(tab0, s, pa) && pa !in free0;
      ghost var free1, tab1, page1 := free, tab, page;
      var mem := Kalloc();
      if mem.None? {
        return Refused, None;
      }
      var f := mem.value;
      TakeFrame(free0, tab0, free1, tab, d);
      page := page[f := FrameBytes(page, pa)];
      forall w | 0 <= w < v ensures Pte(tab1, d, w) != To(f) {
        assert f in free1;
        if Pte(tab1, d, w) == To(f) {
          assert IsLeaf(tab1, d, f);
        }
      }
      ghost var free2 := free;
      var m := MapUser(d, v, f);
      if !m.Mapped? {
        CountStuck(free1, tab1, d, n, v);
        return Refused, Some(f);
      }
      CountMore(free1, tab1, free2, free, tab, d, n, v);
      GiveFrame(free0, tab0, free2, tab1, free, tab, d, f);
      CopiedMore(free0, tab0, page0, tab1, page1, tab, page, s, d, v, f);
      return Made(d), None;
    }

    /**
     Copy a space of sz bytes for a child (vm.c:309-336). A copy is made of frames that were free, has the same bytes
     below sz and nothing above, and leaves the parent alone. Whether it is made, and what is lost if not, depends on
     the number of free frames: without enough for the kernel's tables all of them are lost, else at most one is.
     */
    method Copyuvm(kmap: seq<Kmap>, s: nat, sz: nat) returns (r: Made, ghost lost: Option<nat>)
      requires Space(free, tab, s) && sz <= USER * PGSIZE && forall k :: 0 <= k < |kmap| ==> kmap[k].Kernel()
      modifies this
      ensures r.Made? ==> NewSpace(old(free), old(tab), free, tab, r.dir)
      ensures r.Made? ==> CopiedPages(old(free), old(tab), old(page), tab, page, s, r.dir, RoundUp(sz))
      ensures r.Made? ==> forall u :: u !in old(free) ==> FrameBytes(page, u) == FrameBytes(old(page), u)
      // it panics only if a kernel page is mapped twice or a page below the size is missing
      ensures Apart(kmap) && Sized(old(tab), s, sz) ==> !r.Panicked?
      // it is refused exactly when kalloc finds nothing
      ensures dry == old(dry) + if r.Refused? then 1 else 0
      ensures var kernel, pages := 1 + |KernelTables(kmap)|, PageFrames(RoundUp(sz));
        && (r.Made? ==> |old(free)| >= kernel + pages) && (r.Refused? ==> |old(free)| < kernel + pages)
        && (r.Refused? && |old(free)| < kernel ==> free == [])
        && (r.Refused? && |old(free)| >= kernel ==>
              && (forall f :: f in free <==> f in old(free) && lost != Some(f))
              && (lost.Some? ==> lost.value in old(free))
              && (lost.Some? <==> LosesOne(|old(free)| - kernel, RoundUp(sz))))
    {
      ghost var free0, tab0, page0 := free, tab, page;
      lost := None;
      r := Setupkvm(kmap);
      if !r.Made? {
        return;
      }
      r, lost := CopyAll(s, r.dir, sz, kmap, free0, tab0, page0);
    }

    /** The loop of copyuvm (vm.c:319-335). */
    method CopyAll(s: nat, d: nat, sz: nat, ghost kmap: seq<Kmap>, ghost free0: seq<nat>, ghost tab0: Tabs,
                   ghost page0: map<nat, seq<byte>>) returns (r: Made, ghost lost: Option<nat>)
      requires Space(free0, tab0, s) && sz <= USER * PGSIZE && forall k :: 0 <= k < |kmap| ==> kmap[k].Kernel()
      requires KernelSpace(free0, tab0, free, tab, d, kmap, |kmap|) && page == page0
      modifies this
      ensures r.Made? ==> CopyingPages(free0, tab0, page0, s, r.dir, RoundUp(sz))
      ensures r.Panicked? ==> !Sized(tab0, s, sz)
      ensures r.Made? ==> |old(free)| >= PageFrames(RoundUp(sz))
      ensures r.Refused? ==> |old(free)| < PageFrames(RoundUp(sz)) && (lost.Some? ==> lost.value in free0)
      ensures r.Refused? ==> forall f :: f in free <==> f in free0 && lost != Some(f)
      ensures r.Refused? ==> (lost.Some? <==> LosesOne(|old(free)|, RoundUp(sz)))
      ensures dry == old(dry) + if r.Refused? then 1 else 0
    {
      ghost var n, pages := |free|, RoundUp(sz);
      CountStart(free, tab, d, kmap);
      lost := None;
      var i := 0;
      while i * PGSIZE < sz
        invariant i <= pages && CopyingPages(free0, tab0, page0, s, d, i) && dry == old(dry)
        invariant CopyCounted(free, tab, d, n, i)
      {
        ghost var i1 := i + 1;
        r, lost := CopyPage(s, d, i, free0, tab0, page0, n, i1);
        if r.Refused? {
          StuckTold(n, i, pages, lost.Some?);
          var ok := Freevm(d);
          return;
        }
        if r.Panicked? {
          return;
        }
        i := i + 1;
      }
      return Made(d), None;
    }

    /** Zero a frame and map it at page a (vm.c:239-240). The result of mappages is not looked at. */
    method MapZeroed(d: nat, a: nat, f: nat, ghost free0: seq<nat>, ghost tab0: Tabs, ghost page0: map<nat, seq<byte>>,
                     ghost free1: seq<nat>, ghost lo: nat, ghost lost0: Option<nat>, ghost a1: nat)
      returns (ghost lost: Option<nat>)
      requires InLoop(free0, tab0, page0, free1, tab, page, d, lo, a, lost0) && lo <= a < USER && a1 == a + 1
      requires Pte(tab0, d, a).Absent? && free1 != [] && f == free1[0] && free == free1[1..]
      modifies this
      ensures InLoop(free0, tab0, page0, free, tab, page, d, lo, a1, lost)
    {
      ghost var tab1, page1, free2 := tab, page, free;
      assert f in free0 && f in free1;
      FrameTaken(free1, tab1, d);
      page := page[f := Zeros()];
      var m := MapUser(d, a, f);
      if m.Mapped? {
        FrameBack(free0, tab0, free1, tab1, free2, free, tab, d, f);
        GrownMore(free0, tab0, page0, tab1, page1, tab, d, lo, a, f);
        TablesMore(tab0, free2, tab1, free, tab, d, lo, a);
        ListShorter(tab0, free0, free1, tab1, free, tab, d, lo, a);
        lost := None;
      } else {
        TableMissing(tab0, tab1, d, lo, a);
        FrameLost(free0, tab0, free1, tab1, free2, d, f);
        lost := Some(f);
      }
    }

    /** One turn of allocuvm's loop (vm.c:233-241). False: there is no frame. */
    method GrowNext(d: nat, a: nat, ghost free0: seq<nat>, ghost tab0: Tabs, ghost page0: map<nat, seq<byte>>,
                    ghost lo: nat, ghost hi: nat, ghost lost0: Option<nat>, ghost a1: nat)
      returns (ok: bool, ghost lost: Option<nat>)
      requires InLoop(free0, tab0, page0, free, tab, page, d, lo, a, lost0) && lo <= a < hi <= USER && a1 == a + 1
      requires NothingMapped(tab0, d, lo, hi)
      modifies this
      ensures ok ==> InLoop(free0, tab0, page0, free, tab, page, d, lo, a1, lost)
      ensures !ok ==> free == [] && lost == lost0 && InLoop(free0, tab0, page0, free, tab, page, d, lo, a, lost)
    {
      ghost var free1 := free;
      var mem := Kalloc();
      if mem.None? {
        return false, lost0;
      }
      lost := MapZeroed(d, a, mem.value, free0, tab0, page0, free1, lo, lost0, a1);
      ok := true;
    }

    /** allocuvm runs out of frames: what it has mapped is freed again (vm.c:236). */
    method GiveUp(d: nat, oldsz: nat, newsz: nat, ghost free0: seq<nat>, ghost tab0: Tabs,
                  ghost page0: map<nat, seq<byte>>, ghost lo: nat, ghost hi: nat, ghost a: nat, ghost lost: Option<nat>)
      requires lo == RoundUp(oldsz) <= a < hi == RoundUp(newsz) && oldsz < newsz < USER * PGSIZE && free == []
      requires InLoop(free0, tab0, page0, free, tab, page, d, lo, a, lost) && NothingMapped(tab0, d, lo, hi)
      modifies this`free, this`tab
      ensures AllocDone(free0, tab0, page0, free, tab, page, d, lo, hi, newsz, 0, lost)
    {
      ghost var free1, tab1, v := free, tab, if lost.None? then a else a - 1;
      var sz := Deallocuvm(d, newsz, oldsz);
      GaveUp(free0, tab0, page0, tab1, page, tab, d, lo, v, hi);
      StillLost(free0, tab0, free1, tab1, free, tab, d, lost);
      NoneDone(free0, tab0, page0, free, tab, page, d, lo, hi, newsz, lost, v);
    }

    /** The loop of allocuvm (vm.c:231-242). */
    method GrowLoop(d: nat, oldsz: nat, newsz: nat) returns (sz: nat, ghost lost: Option<nat>)
      requires Space(free, tab, d) && oldsz <= newsz < USER * PGSIZE
      requires NothingMapped(tab, d, RoundUp(oldsz), RoundUp(newsz))
      modifies this
      ensures AllocDone(old(free), old(tab), old(page), free, tab, page, d, RoundUp(oldsz), RoundUp(newsz), newsz, sz,
                        lost)
    {
      ghost var free0, tab0, page0, lo, hi := free, tab, page, RoundUp(oldsz), RoundUp(newsz);
      lost := None;
      var a := RoundUp(oldsz);
      while a * PGSIZE < newsz
        invariant lo <= a <= hi && InLoop(free0, tab0, page0, free, tab, page, d, lo, a, lost) == true
      {
        ghost var a1 := a + 1;
        BelowSize(a, newsz);
        var ok;
        ok, lost := GrowNext(d, a, free0, tab0, page0, lo, hi, lost, a1);
        if !ok {
          GiveUp(d, oldsz, newsz, free0, tab0, page0, lo, hi, a, lost);
          return 0, lost;
        }
        a := a + 1;
      }
      BelowSize(a, newsz);
      LoopDone(free0, tab0, page0, free, tab, page, d, lo, a, newsz, lost);
      return newsz, lost;
    }

    /** Grow a space from oldsz to newsz bytes (vm.c:218-243). */
    method Allocuvm(d: nat, oldsz: nat, newsz: nat) returns (sz: nat, ghost lost: Option<nat>)
      requires Space(free, tab, d) && NothingMapped(tab, d, RoundUp(oldsz), RoundUp(newsz))
      modifies this
      ensures newsz >= USER * PGSIZE ==> sz == 0
      ensures newsz < USER * PGSIZE && newsz < oldsz ==> sz == oldsz
      ensures newsz >= USER * PGSIZE || newsz < oldsz ==> free == old(free) && tab == old(tab) && page == old(page)
      ensures oldsz <= newsz < USER * PGSIZE ==>
        AllocDone(old(free), old(tab), old(page), free, tab, page, d, RoundUp(oldsz), RoundUp(newsz), newsz, sz, lost)
    {
      if newsz >= USER * PGSIZE {
        return 0, None;
      }
      if newsz < oldsz {
        return oldsz, None;
      }
      sz, lost := GrowLoop(d, oldsz, newsz);
    }

    /**
     growproc (proc.c:107-123) for a process of size sz; the result is its new size, None for -1. A process that has its
     size keeps it unless growproc breaks it, which can be told before.
     */
    method Growproc(d: nat, sz: nat, n: int) returns (r: Option<nat>)
      requires Space(free, tab, d) && sz <= USER * PGSIZE && -0x8000_0000 <= n < 0x8000_0000 && Sized(tab, d, sz)
      modifies this
      ensures Space(free, tab, d)
      ensures var sz' := if r.Some? then r.value else sz;
        Sized(tab, d, sz') <==> !BreaksSize(old(tab), d, sz, n, |old(free)|)
      ensures r == NewSize(sz, n, n > 0 && CanGrow(old(tab), d, sz, sz + n, |old(free)|))
      ensures n > 0 ==>
        r == if sz + n < USER * PGSIZE && CanGrow(old(tab), d, sz, sz + n, |old(free)|) then Some(sz + n) else None
      ensures n == 0 || sz + n < 0 < sz ==> r == Some(sz)
      ensures n < 0 < sz + n ==> r == Some(sz + n)
      ensures n < 0 && (sz + n == 0 || sz == 0) ==> r.None?
    {
      if n > 0 {
        r := GrowBy(d, sz, n);
      } else if n < 0 {
        r := ShrinkBy(d, sz, (sz + n) % UINT_LIMIT);
      } else {
        r := Some(sz);
      }
    }

    method GrowBy(d: nat, sz: nat, n: nat) returns (r: Option<nat>)
      requires Space(free, tab, d) && sz <= USER * PGSIZE && 0 < n < 0x8000_0000 && Sized(tab, d, sz)
      modifies this
      ensures Space(free, tab, d)
      ensures r == NewSize(sz, n, CanGrow(old(tab), d, sz, sz + n, |old(free)|))
      ensures Sized(tab, d, if r.Some? then r.value else sz) <==> !BreaksSize(old(tab), d, sz, n, |old(free)|)
    {
      ghost var free0, tab0, page0 := free, tab, page;
      var newsz, lost := Allocuvm(d, sz, sz + n);
      GrowDone(free0, tab0, page0, free, tab, page, d, sz, n, newsz, lost);
      return if newsz == 0 then None else Some(newsz);
    }

    method ShrinkBy(d: nat, sz: nat, newsz: nat) returns (r: Option<nat>)
      requires Space(free, tab, d) && sz <= USER * PGSIZE && Sized(tab, d, sz)
      modifies this`free, this`tab
      ensures Space(free, tab, d)
      ensures r == var left := if newsz >= sz then sz else newsz; if left == 0 then None else Some(left)
      ensures Sized(tab, d, if r.Some? then r.value else sz) <==> !(newsz == 0 < sz)
    {
      ghost var tab0 := tab;
      var left := Deallocuvm(d, sz, newsz);
      if newsz < sz {
        ShrunkSized(tab0, tab, d, sz, newsz);
        if newsz == 0 {
          assert Pte(tab, d, 0).Absent?;
        }
      }
      return if left == 0 then None else Some(left);
    }

    /** Copy src to user address va, page by page (vm.c:356-377); k tells how far it came. */
    method Copyout(d: nat, va: nat, src: seq<byte>) returns (r: OutResult, k: nat)
      requires Shaped(tab, d) && LeavesOk(tab, d) && PagesOk(tab, page, d) && va < UINT_LIMIT
      modifies this`page
      ensures k <= |src| && WrittenOut(tab, old(page), page, d, va, src, k) && PagesOk(tab, page, d)
      ensures r.Copied? ==> k == |src|
      ensures !r.Copied? ==> k < |src| && (va + k < USER * PGSIZE ==> Pte(tab, d, (va + k) / PGSIZE).Absent?)
    {
      k := 0;
      var a := va;
      while k < |src|
        invariant k <= |src| && a == va + k <= UINT_LIMIT && (k > 0 ==> a <= USER * PGSIZE)
        invariant WrittenOut(tab, old(page), page, d, va, src, k) && PagesOk(tab, page, d)
        decreases |src| - k
      {
        var v, off := a / PGSIZE, a % PGSIZE;
        if At(tab, d, v / NPT).Absent? {
          return NoTable, k;
        }
        if Pte(tab, d, v).Absent? || v >= USER {
          return Unmapped, k;
        }
        var n := if PGSIZE - off > |src| - k then |src| - k else PGSIZE - off;
        PatchMore(tab, old(page), page, d, va, src, k, n, v, off);
        var f := Pte(tab, d, v).frame;
        page := page[f := Patched(FrameBytes(page, f), off, src[k .. k + n])];
        k := k + n;
        a := a + n;
      }
      return Copied, k;
    }
  }

  lemma OnePage(v: nat, f: nat)
    requires v < USER && Usable(f)
    ensures v * PGSIZE < UINT_LIMIT && v * PGSIZE / PGSIZE == v && PageCount(v * PGSIZE, PGSIZE) == 1
    ensures forall x :: UserFrame(v, f, 1, x) <==> x == f
    ensures forall w :: 0 <= w < VPAGES ==> (Back(v, w) < 1 <==> w == v)
    ensures Up(f, 0) == f
  {
    assert (v * PGSIZE + PGSIZE - 1) / PGSIZE == v;
    assert Back(v, v) == 0;
    forall x ensures UserFrame(v, f, 1, x) <==> x == f {
      assert x == f ==> Back(v, v) < 1 && x == Up(f, Back(v, v));
    }
  }

  ghost predicate NoUserPages(tab: Tabs, d: nat) {
    forall w :: 0 <= w < USER ==> Pte(tab, d, w).Absent?
  }

  ghost predicate AlreadyMapped(tab: Tabs, d: nat, a: nat, n: nat)
    requires a < VPAGES
  {
    exists w :: 0 <= w < VPAGES && Back(a, w) < n && Pte(tab, d, w).To?
  }

  /** How many pages mappages visits. */
  function PageCount(va: nat, size: nat): (n: nat)
    requires va < UINT_LIMIT
    ensures 0 < n <= VPAGES
  {
    Back(va / PGSIZE, LastPage(va, size)) + 1
  }

  /** Where mappages is after k pages, and whether it has reached the last. */
  lemma CursorMore(a: nat, p: nat, k: nat, n: nat, last: nat)
    requires a < VPAGES && p < VPAGES && k < n && last < VPAGES && n == Back(a, last) + 1
    ensures Up(a, k) == last <==> k + 1 == n
    ensures (Up(a, k) + 1) % VPAGES == Up(a, k + 1) && (Up(p, k) + 1) % VPAGES == Up(p, k + 1)
  {
    AtLast(a, k, n, last);
    UpNext(a, k);
    UpNext(p, k);
  }

  lemma AtLast(a: nat, k: nat, n: nat, last: nat)
    requires a < VPAGES && k < n && last < VPAGES && n == Back(a, last) + 1
    ensures Up(a, k) == last <==> k + 1 == n
  {
    UpBack(a, k, last);
  }

  lemma UpNext(a: nat, k: nat)
    requires a < VPAGES && k < VPAGES
    ensures (Up(a, k) + 1) % VPAGES == Up(a, k + 1)
  {
  }

  lemma RangeEmpty(free: seq<nat>, tab: Tabs, d: nat, a: nat, p: nat)
    requires a < VPAGES && Space(free, tab, d)
    ensures RangeDone(free, tab, free, tab, d, a, p, 0)
  {
  }

  function LastPage(va: nat, size: nat): (v: nat)
    ensures v < VPAGES
  {
    (va + size - 1) % UINT_LIMIT / PGSIZE
  }

  lemma FreshMore(a: nat, p: nat, k: nat, n: nat, x: nat)
    requires a < VPAGES && p < VPAGES && k < n <= VPAGES && x == Up(p, k)
    ensures Up(a, k) < USER ==> UserFrame(a, p, n, x)
  {
    UpBack(a, k, Up(a, k));
  }
}
