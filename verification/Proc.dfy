/**
 The process table of proc.c as a machine of steps, each taken with ptable.lock held
 (or, in fork, by the one process that owns an EMBRYO slot). Between steps any other process may run.
 */
module Proc {
  import opened Wrappers

  datatype State = UNUSED | EMBRYO | SLEEPING | RUNNABLE | RUNNING | ZOMBIE

  /** A sleep channel: the address of a process slot, as wait uses, or any other kernel address. */
  datatype Chan = NoChan | Slot(i: nat) | Other(addr: nat)

  /** What a process is in the middle of when it does not hold the lock. */
  datatype Mode = Outside | InWait | Allocated(child: nat) | Parented(child: nat)

  datatype Proc = Proc(state: State, pid: nat, parent: Option<nat>, chan: Chan, killed: bool, mode: Mode)

  const NPROC: nat := 64

  type Table = seq<Proc>

  predicate Alive(p: Proc) {
    p.state.SLEEPING? || p.state.RUNNABLE? || p.state.RUNNING?
  }

  predicate IsChild(t: Table, c: nat, p: nat) {
    c < |t| && t[c].parent == Some(p)
  }

  predicate HasChild(t: Table, p: nat) {
    exists c :: 0 <= c < |t| && IsChild(t, c, p)
  }

  predicate NoZombieChild(t: Table, p: nat) {
    forall c :: 0 <= c < |t| && IsChild(t, c, p) ==> !t[c].state.ZOMBIE?
  }

  /** Asleep in wait: on its own address. */
  predicate AsleepInWait(t: Table, p: nat) {
    p < |t| && t[p].state.SLEEPING? && t[p].chan == Slot(p)
  }

  /** No wakeup is lost: whoever sleeps in wait has a child to wait for, and none has exited. */
  predicate NoLostWakeup(t: Table) {
    forall p :: 0 <= p < |t| && AsleepInWait(t, p) ==> HasChild(t, p) && NoZombieChild(t, p)
  }

  predicate ParentOk(t: Table, init: nat, c: nat)
    requires c < |t|
  {
    match t[c].parent
    case Some(q) => q < |t| && q != c && Alive(t[q]) && !t[c].state.UNUSED?
    case None => c == init || t[c].state.UNUSED? || t[c].state.EMBRYO?
  }

  /** Every process but init has a parent that is alive, from the moment it is given one until it is reaped. */
  predicate Parents(t: Table, init: nat) {
    init < |t| && Alive(t[init]) && t[init].parent.None? && forall c :: 0 <= c < |t| ==> ParentOk(t, init, c)
  }

  /** A slot's address is slept on only by its own process, in wait. */
  predicate Channels(t: Table) {
    forall p :: 0 <= p < |t| && t[p].state.SLEEPING? && t[p].chan.Slot? ==> t[p].chan == Slot(p) && t[p].mode.InWait?
  }

  /** The EMBRYO slot that p is forking, if it is forking. */
  predicate ForkOk(t: Table, p: nat)
    requires p < |t|
  {
    match t[p].mode
    case Outside => true
    case InWait => Alive(t[p])
    case Allocated(c) => Alive(t[p]) && c < |t| && t[c].state.EMBRYO? && t[c].parent.None?
    case Parented(c) => Alive(t[p]) && c < |t| && t[c].state.EMBRYO? && t[c].parent == Some(p)
  }

  predicate SameChild(t: Table, p: nat, q: nat) {
    p < |t| && q < |t| && t[p].mode.Allocated? && t[q].mode.Allocated? && t[p].mode.child == t[q].mode.child
  }

  /** An EMBRYO slot with a parent is the one its parent is forking. */
  predicate EmbryoOk(t: Table, c: nat)
    requires c < |t|
  {
    t[c].state.EMBRYO? && t[c].parent.Some? ==> t[c].parent.value < |t| && t[t[c].parent.value].mode == Parented(c)
  }

  /** An EMBRYO slot belongs to the one process that is forking it. */
  predicate Forks(t: Table) {
    && (forall p :: 0 <= p < |t| ==> ForkOk(t, p))
    && (forall p, q :: 0 <= p < |t| && 0 <= q < |t| && SameChild(t, p, q) ==> p == q)
    && (forall c :: 0 <= c < |t| ==> EmbryoOk(t, c))
  }

  predicate Inv(t: Table, init: nat) {
    |t| == NPROC && NoLostWakeup(t) && Parents(t, init) && Channels(t) && Forks(t)
  }

  // ---- Steps that only move processes between SLEEPING, RUNNABLE and RUNNING ------

  predicate CalmOne(p: Proc, q: Proc) {
    && q.parent == p.parent && q.mode == p.mode && Alive(q) == Alive(p) && (!Alive(p) ==> q.state == p.state)
    && (q.state.SLEEPING? && q.chan.Slot? ==> p.state.SLEEPING? && p.chan == q.chan)
  }

  predicate Calm(t: Table, t': Table) {
    |t'| == |t| && forall i :: 0 <= i < |t| ==> CalmOne(t[i], t'[i])
  }

  lemma CalmForks(t: Table, t': Table)
    requires Forks(t) && Calm(t, t')
    ensures Forks(t')
  {
    forall p | 0 <= p < |t'| ensures ForkOk(t', p) && EmbryoOk(t', p) {
      assert ForkOk(t, p) && EmbryoOk(t, p) && CalmOne(t[p], t'[p]);
      if t[p].mode.Allocated? || t[p].mode.Parented? {
        assert CalmOne(t[t[p].mode.child], t'[t[p].mode.child]);
      }
      if t[p].state.EMBRYO? && t[p].parent.Some? {
        assert CalmOne(t[t[p].parent.value], t'[t[p].parent.value]);
      }
    }
    forall p, q | 0 <= p < |t'| && 0 <= q < |t'| && SameChild(t', p, q) ensures p == q {
      assert CalmOne(t[p], t'[p]) && CalmOne(t[q], t'[q]);
      assert SameChild(t, p, q);
    }
  }

  lemma CalmNoLostWakeup(t: Table, t': Table)
    requires NoLostWakeup(t) && Calm(t, t') && Channels(t)
    ensures NoLostWakeup(t')
  {
    forall p | 0 <= p < |t'| && AsleepInWait(t', p) ensures HasChild(t', p) && NoZombieChild(t', p) {
      assert CalmOne(t[p], t'[p]);
      assert AsleepInWait(t, p);
      var c :| 0 <= c < |t| && IsChild(t, c, p);
      assert CalmOne(t[c], t'[c]) && IsChild(t', c, p);
      forall d | 0 <= d < |t'| && IsChild(t', d, p) ensures !t'[d].state.ZOMBIE? {
        assert CalmOne(t[d], t'[d]) && IsChild(t, d, p);
      }
    }
  }

  lemma CalmParents(t: Table, t': Table, init: nat)
    requires Parents(t, init) && Calm(t, t')
    ensures Parents(t', init)
  {
    assert CalmOne(t[init], t'[init]);
    forall c | 0 <= c < |t'| ensures ParentOk(t', init, c) {
      assert CalmOne(t[c], t'[c]) && ParentOk(t, init, c);
      if t[c].parent.Some? {
        assert CalmOne(t[t[c].parent.value], t'[t[c].parent.value]);
      }
    }
  }

  lemma CalmKeeps(t: Table, t': Table, init: nat)
    requires Inv(t, init) && Calm(t, t')
    ensures Inv(t', init)
  {
    CalmForks(t, t');
    CalmNoLostWakeup(t, t');
    CalmParents(t, t', init);
    forall p | 0 <= p < |t'| && t'[p].state.SLEEPING? && t'[p].chan.Slot? ensures t'[p].chan == Slot(p) &&
        t'[p].mode.InWait? {
      assert CalmOne(t[p], t'[p]);
    }
  }

  // ---- exit -------------------------------------------------------------------

  predicate HasZombieChild(t: Table, p: nat) {
    exists c :: 0 <= c < |t| && IsChild(t, c, p) && t[c].state.ZOMBIE?
  }

  /** Woken by exit: the parent of p if it waits, and init if it inherits a zombie. */
  predicate WokenByExit(t: Table, p: nat, init: nat, i: nat)
    requires p < |t| && i < |t|
  {
    t[i].state.SLEEPING? && ((t[p].parent.Some? && t[i].chan == Slot(t[p].parent.value)) ||
                             (HasZombieChild(t, p) && t[i].chan == Slot(init)))
  }

  /** What exit of p makes of slot i (proc.c:186-201). */
  function ExitOne(t: Table, p: nat, init: nat, i: nat): Proc
    requires p < |t| && i < |t|
  {
    if i == p then t[p].(state := ZOMBIE)
    else t[i].(state := if WokenByExit(t, p, init, i) then RUNNABLE else t[i].state,
               parent := if t[i].parent == Some(p) then Some(init) else t[i].parent)
  }

  predicate Exited(t: Table, t': Table, p: nat, init: nat) {
    p < |t| == |t'| && forall i :: 0 <= i < |t| ==> t'[i] == ExitOne(t, p, init, i)
  }

  lemma ExitWakesUp(t: Table, t': Table, p: nat, init: nat, q: nat)
    requires Inv(t, init) && p < |t| && t[p].state.RUNNING? && p != init && Exited(t, t', p, init) && q < |t'| &&
      AsleepInWait(t', q)
    ensures HasChild(t', q) && NoZombieChild(t', q)
  {
    assert t'[q] == ExitOne(t, p, init, q) && AsleepInWait(t, q) && !WokenByExit(t, p, init, q);
    assert ParentOk(t, init, p);
    var c :| 0 <= c < |t| && IsChild(t, c, q);
    assert t'[c] == ExitOne(t, p, init, c) && IsChild(t', c, q);
    forall d | 0 <= d < |t'| && IsChild(t', d, q) ensures !t'[d].state.ZOMBIE? {
      assert t'[d] == ExitOne(t, p, init, d);
      if t'[d].state.ZOMBIE? {
        assert IsChild(t, d, p) && HasZombieChild(t, p);
        assert false;
      }
    }
  }

  lemma ExitParents(t: Table, t': Table, p: nat, init: nat)
    requires Parents(t, init) && p < |t| && p != init && t[p].state.RUNNING? && Exited(t, t', p, init)
    ensures Parents(t', init)
  {
    assert t'[init] == ExitOne(t, p, init, init);
    forall c | 0 <= c < |t'| ensures ParentOk(t', init, c) {
      assert t'[c] == ExitOne(t, p, init, c) && ParentOk(t, init, c);
      if t[c].parent.Some? {
        assert t'[t[c].parent.value] == ExitOne(t, p, init, t[c].parent.value);
      }
    }
  }

  lemma ExitForks(t: Table, t': Table, p: nat, init: nat)
    requires Forks(t) && p < |t| && t[p].mode.Outside? && t[p].state.RUNNING? && Exited(t, t', p, init)
    ensures Forks(t')
  {
    forall x | 0 <= x < |t'| ensures ForkOk(t', x) && EmbryoOk(t', x) {
      assert ForkOk(t, x) && EmbryoOk(t, x) && t'[x] == ExitOne(t, p, init, x);
      if t[x].mode.Allocated? || t[x].mode.Parented? {
        assert t'[t[x].mode.child] == ExitOne(t, p, init, t[x].mode.child);
      }
      if t[x].state.EMBRYO? && t[x].parent.Some? {
        assert t'[t[x].parent.value] == ExitOne(t, p, init, t[x].parent.value);
      }
    }
    forall x, y | 0 <= x < |t'| && 0 <= y < |t'| && SameChild(t', x, y) ensures x == y {
      assert t'[x] == ExitOne(t, p, init, x) && t'[y] == ExitOne(t, p, init, y);
      assert SameChild(t, x, y);
    }
  }

  lemma ExitKeeps(t: Table, t': Table, p: nat, init: nat)
    requires Inv(t, init) && p < |t| && p != init && t[p].state.RUNNING? && t[p].mode.Outside? && Exited(t, t', p, init)
    ensures Inv(t', init)
  {
    forall q | 0 <= q < |t'| && AsleepInWait(t', q) ensures HasChild(t', q) && NoZombieChild(t', q) {
      ExitWakesUp(t, t', p, init, q);
    }
    ExitParents(t, t', p, init);
    ExitForks(t, t', p, init);
    forall x | 0 <= x < |t'| && t'[x].state.SLEEPING? && t'[x].chan.Slot? ensures t'[x].chan == Slot(x) &&
        t'[x].mode.InWait? {
      assert t'[x] == ExitOne(t, p, init, x);
    }
  }

  // ---- One or two slots change ---------------------------------------------------

  /** wait reaps zombie c (proc.c:222-235). */
  function Reaped(t: Table, p: nat, c: nat): Table
    requires p < |t| && c < |t|
  {
    t[c := t[c].(state := UNUSED, pid := 0, parent := None, killed := false)][p := t[p].(mode := Outside)]
  }

  lemma ReapKeeps(t: Table, p: nat, c: nat, init: nat)
    requires Inv(t, init) && p < |t| && c < |t| && t[p].state.RUNNING? && IsChild(t, c, p) && t[c].state.ZOMBIE?
    requires t[p].mode.Outside? || t[p].mode.InWait?
    ensures Inv(Reaped(t, p, c), init)
  {
    var t' := Reaped(t, p, c);
    assert p != c;
    forall q | 0 <= q < |t'| && AsleepInWait(t', q) ensures HasChild(t', q) && NoZombieChild(t', q) {
      assert AsleepInWait(t, q);
      var d :| 0 <= d < |t| && IsChild(t, d, q);
      assert IsChild(t', d, q);
      forall e | 0 <= e < |t'| && IsChild(t', e, q) ensures !t'[e].state.ZOMBIE? {
        assert IsChild(t, e, q);
      }
    }
    forall x | 0 <= x < |t'| ensures ParentOk(t', init, x) && ForkOk(t', x) && EmbryoOk(t', x) {
      assert ParentOk(t, init, x) && ForkOk(t, x) && EmbryoOk(t, x);
    }
    forall x, y | 0 <= x < |t'| && 0 <= y < |t'| && SameChild(t', x, y) ensures x == y {
      assert SameChild(t, x, y);
    }
  }

  /** wait goes to sleep on its own address (proc.c:245). */
  function WaitAsleep(t: Table, p: nat): Table
    requires p < |t|
  {
    t[p := t[p].(state := SLEEPING, chan := Slot(p), mode := InWait)]
  }

  lemma WaitAsleepKeeps(t: Table, p: nat, init: nat)
    requires Inv(t, init) && p < |t| && t[p].state.RUNNING? && (t[p].mode.Outside? || t[p].mode.InWait?)
    requires HasChild(t, p) && NoZombieChild(t, p)
    ensures Inv(WaitAsleep(t, p), init)
  {
    var t' := WaitAsleep(t, p);
    forall q | 0 <= q < |t'| && AsleepInWait(t', q) ensures HasChild(t', q) && NoZombieChild(t', q) {
      assert q != p ==> AsleepInWait(t, q);
      var d :| 0 <= d < |t| && IsChild(t, d, q);
      assert IsChild(t', d, q);
      forall e | 0 <= e < |t'| && IsChild(t', e, q) ensures !t'[e].state.ZOMBIE? {
        assert IsChild(t, e, q);
      }
    }
    forall x | 0 <= x < |t'| ensures ParentOk(t', init, x) && ForkOk(t', x) && EmbryoOk(t', x) {
      assert ParentOk(t, init, x) && ForkOk(t, x) && EmbryoOk(t, x);
    }
    forall x, y | 0 <= x < |t'| && 0 <= y < |t'| && SameChild(t', x, y) ensures x == y {
      assert SameChild(t, x, y);
    }
  }

  /** The general case of a change that leaves parents, sleepers and zombies alone. */
  predicate Quiet(t: Table, t': Table) {
    && |t'| == |t|
    && (forall i :: 0 <= i < |t| ==> (Alive(t[i]) ==> Alive(t'[i])) && (t'[i].state.ZOMBIE? ==> t[i].state.ZOMBIE?))
    && (forall i :: 0 <= i < |t| ==>
        t'[i].state.SLEEPING? ==> t'[i].state == t[i].state && t'[i].chan == t[i].chan && t'[i].mode == t[i].mode)
    && (forall i :: 0 <= i < |t| ==> t[i].parent.Some? ==> t'[i].parent == t[i].parent)
    && (forall i :: 0 <= i < |t| ==> t[i].parent.None? && t'[i].parent.Some? ==>
      !t'[i].state.ZOMBIE? && t'[i].parent.value < |t| && t'[t'[i].parent.value].state.RUNNING?)
  }

  lemma QuietNoLostWakeup(t: Table, t': Table)
    requires NoLostWakeup(t) && Quiet(t, t')
    ensures NoLostWakeup(t')
  {
    forall q | 0 <= q < |t'| && AsleepInWait(t', q) ensures HasChild(t', q) && NoZombieChild(t', q) {
      assert AsleepInWait(t, q);
      var d :| 0 <= d < |t| && IsChild(t, d, q);
      assert IsChild(t', d, q);
      forall e | 0 <= e < |t'| && IsChild(t', e, q) ensures !t'[e].state.ZOMBIE? {
        assert IsChild(t, e, q);
      }
    }
  }

  /** wait returns without having reaped a child (proc.c:239-242). */
  function WaitLeft(t: Table, p: nat): Table
    requires p < |t|
  {
    t[p := t[p].(mode := Outside)]
  }

  lemma WaitLeftKeeps(t: Table, p: nat, init: nat)
    requires Inv(t, init) && p < |t| && t[p].state.RUNNING? && (t[p].mode.Outside? || t[p].mode.InWait?)
    ensures Inv(WaitLeft(t, p), init)
  {
    var t' := WaitLeft(t, p);
    QuietNoLostWakeup(t, t');
    forall x | 0 <= x < |t'| ensures ParentOk(t', init, x) && ForkOk(t', x) && EmbryoOk(t', x) {
      assert ParentOk(t, init, x) && ForkOk(t, x) && EmbryoOk(t, x);
    }
    forall x, y | 0 <= x < |t'| && 0 <= y < |t'| && SameChild(t', x, y) ensures x == y {
      assert SameChild(t, x, y);
    }
  }

  // ---- fork -------------------------------------------------------------------------

  /** allocproc: p takes the UNUSED slot c (proc.c:47-49). */
  function Taken(t: Table, p: nat, c: nat, pid: nat): Table
    requires p < |t| && c < |t|
  {
    t[c := t[c].(state := EMBRYO, pid := pid)][p := t[p].(mode := Allocated(c))]
  }

  lemma TakenKeeps(t: Table, p: nat, c: nat, pid: nat, init: nat)
    requires Inv(t, init) && p < |t| && c < |t| && t[p].state.RUNNING? && t[p].mode.Outside? && t[c].state.UNUSED?
    ensures Inv(Taken(t, p, c, pid), init)
  {
    var t' := Taken(t, p, c, pid);
    assert ParentOk(t, init, c) && ForkOk(t, c);
    QuietNoLostWakeup(t, t');
    forall x | 0 <= x < |t'| ensures ParentOk(t', init, x) && ForkOk(t', x) && EmbryoOk(t', x) {
      assert ParentOk(t, init, x) && ForkOk(t, x) && EmbryoOk(t, x);
    }
    forall x, y | 0 <= x < |t'| && 0 <= y < |t'| && SameChild(t', x, y) ensures x == y {
      assert ForkOk(t, x) && ForkOk(t, y);
      assert x != p && y != p ==> SameChild(t, x, y);
    }
  }

  /** The child cannot be built: its slot is given back (proc.c:53-56, proc.c:139-144). */
  function GivenBack(t: Table, p: nat): Table
    requires p < |t| && t[p].mode.Allocated? && t[p].mode.child < |t|
  {
    var c := t[p].mode.child;
    t[c := t[c].(state := UNUSED)][p := t[p].(mode := Outside)]
  }

  lemma GivenBackKeeps(t: Table, p: nat, init: nat)
    requires Inv(t, init) && p < |t| && t[p].state.RUNNING? && t[p].mode.Allocated?
    ensures t[p].mode.child < |t| && t[p].mode.child != p && Inv(GivenBack(t, p), init)
  {
    assert ForkOk(t, p);
    var t' := GivenBack(t, p);
    QuietNoLostWakeup(t, t');
    forall x | 0 <= x < |t'| ensures ParentOk(t', init, x) && ForkOk(t', x) && EmbryoOk(t', x) {
      assert ParentOk(t, init, x) && ForkOk(t, x) && EmbryoOk(t, x);
      assert x != p ==> !SameChild(t, x, p);
    }
    forall x, y | 0 <= x < |t'| && 0 <= y < |t'| && SameChild(t', x, y) ensures x == y {
      assert SameChild(t, x, y);
    }
  }

  /** np->parent = proc (proc.c:146), without the lock. */
  function Adopted(t: Table, p: nat): Table
    requires p < |t| && t[p].mode.Allocated? && t[p].mode.child < |t|
  {
    var c := t[p].mode.child;
    t[c := t[c].(parent := Some(p))][p := t[p].(mode := Parented(c))]
  }

  lemma AdoptedKeeps(t: Table, p: nat, init: nat)
    requires Inv(t, init) && p < |t| && t[p].state.RUNNING? && t[p].mode.Allocated?
    ensures t[p].mode.child < |t| && t[p].mode.child != p && Inv(Adopted(t, p), init)
  {
    assert ForkOk(t, p);
    var c := t[p].mode.child;
    var t' := Adopted(t, p);
    QuietNoLostWakeup(t, t');
    forall x | 0 <= x < |t'| ensures ParentOk(t', init, x) && ForkOk(t', x) && EmbryoOk(t', x) {
      assert ParentOk(t, init, x) && ForkOk(t, x) && EmbryoOk(t, x);
      assert x != p ==> !SameChild(t, x, p);
    }
    forall x, y | 0 <= x < |t'| && 0 <= y < |t'| && SameChild(t', x, y) ensures x == y {
      assert SameChild(t, x, y);
    }
  }

  /** np->state = RUNNABLE (proc.c:158), without the lock. */
  function Started(t: Table, p: nat): Table
    requires p < |t| && t[p].mode.Parented? && t[p].mode.child < |t|
  {
    var c := t[p].mode.child;
    t[c := t[c].(state := RUNNABLE)][p := t[p].(mode := Outside)]
  }

  lemma StartedKeeps(t: Table, p: nat, init: nat)
    requires Inv(t, init) && p < |t| && t[p].state.RUNNING? && t[p].mode.Parented?
    ensures t[p].mode.child < |t| && t[p].mode.child != p && Inv(Started(t, p), init)
  {
    assert ForkOk(t, p);
    var c := t[p].mode.child;
    var t' := Started(t, p);
    QuietNoLostWakeup(t, t');
    forall x | 0 <= x < |t'| ensures ParentOk(t', init, x) && ForkOk(t', x) && EmbryoOk(t', x) {
      assert ParentOk(t, init, x) && ForkOk(t, x) && EmbryoOk(t, x);
    }
    forall x, y | 0 <= x < |t'| && 0 <= y < |t'| && SameChild(t', x, y) ensures x == y {
      assert SameChild(t, x, y);
    }
  }

  // ---- The table ------------------------------------------------------------------

  /** What wakeup1 makes of one slot (proc.c:386-387). */
  function Woken(p: Proc, chan: Chan): Proc {
    if p.state.SLEEPING? && p.chan == chan then p.(state := RUNNABLE) else p
  }

  function WokenAll(t: Table, chan: Chan): Table {
    seq(|t|, i requires 0 <= i < |t| => Woken(t[i], chan))
  }

  /** Everyone asleep on chan can run; nobody else has changed; and so nobody is asleep there. */
  predicate NoneAsleepOn(t: Table, t': Table, chan: Chan) {
    && |t'| == |t|
    && (forall i :: 0 <= i < |t| ==> !(t'[i].state == SLEEPING && t'[i].chan == chan))
    && (forall i :: 0 <= i < |t| && t[i].state == SLEEPING && t[i].chan == chan ==> t'[i] == t[i].(state := RUNNABLE))
    && (forall i :: 0 <= i < |t| && !(t[i].state == SLEEPING && t[i].chan == chan) ==> t'[i] == t[i])
  }

  /** What kill makes of the slot it finds (proc.c:409-416). */
  function Killed(p: Proc): Proc {
    p.(killed := true, state := if p.state.SLEEPING? then RUNNABLE else p.state)
  }

  predicate FirstWithPid(t: Table, pid: nat, i: nat) {
    i < |t| && t[i].pid == pid && forall j :: 0 <= j < i ==> t[j].pid != pid
  }

  /** The slots below n have been passed to init, which is awake if a zombie was among them. */
  predicate PassedOn(t: Table, t': Table, p: nat, init: nat, n: nat) {
    && p < |t| == |t'|
    && forall j :: 0 <= j < |t| ==> t'[j] == PassedOne(t, p, init, n, j)
  }

  predicate ZombieBelow(t: Table, p: nat, n: nat) {
    exists c :: 0 <= c < n && c < |t| && IsChild(t, c, p) && t[c].state.ZOMBIE?
  }

  function PassedOne(t: Table, p: nat, init: nat, n: nat, j: nat): Proc
    requires j < |t|
  {
    var q := if j < n && t[j].parent == Some(p) then t[j].(parent := Some(init)) else t[j];
    if ZombieBelow(t, p, n) then Woken(q, Slot(init)) else q
  }

  lemma PassedMore(t: Table, t1: Table, t2: Table, p: nat, init: nat, n: nat)
    requires PassedOn(t, t1, p, init, n) && n < |t| == |t2|
    requires var u := if t1[n].parent == Some(p) then t1[n := t1[n].(parent := Some(init))] else t1;
      t2 == if t1[n].parent == Some(p) && t1[n].state.ZOMBIE? then WokenAll(u, Slot(init)) else u
    ensures PassedOn(t, t2, p, init, n + 1)
  {
    assert t1[n] == PassedOne(t, p, init, n, n);
    assert ZombieBelow(t, p, n + 1) <==> ZombieBelow(t, p, n) || (IsChild(t, n, p) && t[n].state.ZOMBIE?);
    forall j | 0 <= j < |t| ensures t2[j] == PassedOne(t, p, init, n + 1, j) {
      assert t1[j] == PassedOne(t, p, init, n, j);
    }
  }

  /** The steps of exit together (proc.c:186-201). */
  lemma ExitedInSteps(t: Table, t1: Table, t2: Table, p: nat, init: nat)
    requires p < |t| && p != init && t[p].state.RUNNING? && t[p].parent.Some? && t[p].parent.value != p
    requires t1 == WokenAll(t, Slot(t[p].parent.value)) && PassedOn(t1, t2, p, init, |t|)
    ensures Exited(t, t2[p := t2[p].(state := ZOMBIE)], p, init)
  {
    var t' := t2[p := t2[p].(state := ZOMBIE)];
    assert forall c :: 0 <= c < |t| ==>
        IsChild(t1, c, p) == IsChild(t, c, p) && t1[c].state.ZOMBIE? == t[c].state.ZOMBIE?;
    assert ZombieBelow(t1, p, |t|) <==> HasZombieChild(t, p);
    forall i | 0 <= i < |t| ensures t'[i] == ExitOne(t, p, init, i) {
      assert t2[i] == PassedOne(t1, p, init, |t|, i);
    }
  }

  predicate OthersKept(t: Table, t': Table, js: set<nat>) {
    |t'| == |t| && forall i :: 0 <= i < |t| && i !in js ==> t'[i] == t[i]
  }

  /** p has left: it is a zombie; its children are init's; its parent is not asleep in wait, nor is init if one of the
      children is a zombie; and nothing else has happened to anyone. */
  predicate Departed(t: Table, t': Table, p: nat, init: nat) {
    && p < |t| == |t'| && t[p].parent.Some? && t'[p] == t[p].(state := ZOMBIE)
    && (forall c :: 0 <= c < |t| && IsChild(t, c, p) ==> IsChild(t', c, init))
    && (forall c :: 0 <= c < |t| && !IsChild(t, c, p) ==> t'[c].parent == t[c].parent)
    && !AsleepInWait(t', t[p].parent.value) && (HasZombieChild(t, p) ==> !AsleepInWait(t', init))
    && (forall i :: 0 <= i < |t| && i != p ==> t'[i] == t[i].(state := t'[i].state, parent := t'[i].parent))
    && (forall i :: 0 <= i < |t| && i != p && t'[i].state != t[i].state ==>
          && AsleepInWait(t, i) && t'[i].state == RUNNABLE
          && (i == t[p].parent.value || (i == init && HasZombieChild(t, p))))
  }

  lemma ExitedDeparted(t: Table, t': Table, p: nat, init: nat)
    requires Inv(t, init) && p < |t| && p != init && t[p].state.RUNNING? && Exited(t, t', p, init)
    ensures Departed(t, t', p, init)
  {
    assert ParentOk(t, init, p);
    forall i | 0 <= i < |t| ensures t'[i] == ExitOne(t, p, init, i) {
    }
  }

  datatype WaitResult = Reap(pid: nat) | Fail | Sleeps

  const FREE := Proc(UNUSED, 0, None, NoChan, false, Outside)

  /** The table after userinit: init in slot 0 (proc.c:79-103). */
  function Initial(): Table {
    seq(NPROC, _ => FREE)[0 := FREE.(state := RUNNABLE, pid := 1)]
  }

  class Ptable {
    var t: Table
    var nextpid: nat
    const init: nat

    predicate Valid()
      reads this
    {
      Inv(t, init)
    }

    /** userinit on an empty table (proc.c:79-103). */
    constructor ()
      ensures Valid() && t == Initial() && nextpid == 2 && init == 0
    {
      t := Initial();
      nextpid := 2;
      init := 0;
    }

    /** Find an UNUSED slot for a child of p (proc.c:34-50). */
    method Allocproc(p: nat) returns (r: Option<nat>)
      requires Valid() && p < NPROC && t[p].state.RUNNING? && t[p].mode.Outside?
      modifies this
      ensures Valid()
      ensures r.None? ==> t == old(t) && forall i :: 0 <= i < NPROC ==> !t[i].state.UNUSED?
      ensures r.Some? ==>
        && r.value < NPROC && old(t)[r.value].state.UNUSED? && Next(old(t), Allocs(p, r.value, old(nextpid)), t, init)
        && t[r.value] == old(t)[r.value].(state := EMBRYO, pid := old(nextpid))
        && t[p] == old(t)[p].(mode := Allocated(r.value)) && OthersKept(old(t), t, {p, r.value})
      ensures r.Some? ==> (forall i :: 0 <= i < r.value ==> !old(t)[i].state.UNUSED?) && nextpid == old(nextpid) + 1
    {
      for i := 0 to NPROC
        invariant t == old(t) && nextpid == old(nextpid)
        invariant forall j :: 0 <= j < i ==> !t[j].state.UNUSED?
      {
        if t[i].state.UNUSED? {
          TakenKeeps(t, p, i, nextpid, init);
          t := t[i := t[i].(state := EMBRYO, pid := nextpid)];
          t := t[p := t[p].(mode := Allocated(i))];
          nextpid := nextpid + 1;
          return Some(i);
        }
      }
      return None;
    }

    /** Wake up all processes sleeping on chan (proc.c:380-388). */
    method Wakeup1(chan: Chan)
      modifies this`t
      ensures t == WokenAll(old(t), chan) && NoneAsleepOn(old(t), t, chan)
    {
      var i := 0;
      while i < |t|
        invariant 0 <= i <= |t| == |old(t)|
        invariant forall j :: 0 <= j < i ==> t[j] == Woken(old(t)[j], chan)
        invariant forall j :: i <= j < |t| ==> t[j] == old(t)[j]
      {
        if t[i].state.SLEEPING? && t[i].chan == chan {
          t := t[i := t[i].(state := RUNNABLE)];
        }
        i := i + 1;
      }
    }

    /** wakeup (proc.c:391-397), on an address that is not a slot's. */
    method Wakeup(addr: nat)
      requires Valid()
      modifies this`t
      ensures Valid() && Next(old(t), Wakes(addr), t, init) && NoneAsleepOn(old(t), t, Other(addr))
    {
      Wakeup1(Other(addr));
      CalmKeeps(old(t), t, init);
    }

    /** Go to sleep on an address that is not a slot's (proc.c:362-364). */
    method Sleep(p: nat, addr: nat)
      requires Valid() && p < NPROC && t[p].state.RUNNING? && t[p].mode.Outside?
      modifies this`t
      ensures Valid() && t == old(t)[p := old(t)[p].(state := SLEEPING, chan := Other(addr))]
      ensures Next(old(t), SleepsOn(p, addr), t, init)
    {
      t := t[p := t[p].(state := SLEEPING, chan := Other(addr))];
      CalmKeeps(old(t), t, init);
    }

    /** Give up the processor (proc.c:311-318). */
    method Yield(p: nat)
      requires Valid() && p < NPROC && t[p].state.RUNNING?
      modifies this`t
      ensures Valid() && t == old(t)[p := old(t)[p].(state := RUNNABLE)] && Next(old(t), Yields(p), t, init)
    {
      t := t[p := t[p].(state := RUNNABLE)];
      CalmKeeps(old(t), t, init);
    }

    /** One pass of the scheduler from slot `from` on: the next process that can run does (proc.c:267-277). */
    method Schedule(from: nat) returns (r: Option<nat>)
      requires Valid()
      modifies this`t
      ensures Valid()
      ensures r.None? ==> t == old(t) && forall i :: from <= i < NPROC ==> !t[i].state.RUNNABLE?
      ensures r.Some? ==> from <= r.value < NPROC && old(t)[r.value].state.RUNNABLE?
      ensures r.Some? ==> t == old(t)[r.value := old(t)[r.value].(state := RUNNING)]
      ensures r.Some? ==> (forall i :: from <= i < r.value ==> !old(t)[i].state.RUNNABLE?)
      ensures r.Some? ==> Next(old(t), Schedules(r.value), t, init)
    {
      var i := from;
      while i < NPROC
        invariant from <= i && t == old(t) && forall j :: from <= j < i && j < NPROC ==> !t[j].state.RUNNABLE?
      {
        if t[i].state.RUNNABLE? {
          t := t[i := t[i].(state := RUNNING)];
          CalmKeeps(old(t), t, init);
          return Some(i);
        }
        i := i + 1;
      }
      return None;
    }

    /** Mark the first process with this pid, and wake it (proc.c:402-420). */
    method Kill(pid: nat) returns (ok: bool)
      requires Valid()
      modifies this`t
      ensures Valid()
      ensures !ok ==> t == old(t) && forall i :: 0 <= i < NPROC ==> t[i].pid != pid
      ensures ok ==> exists i: nat ::
        && FirstWithPid(old(t), pid, i) && OthersKept(old(t), t, {i}) && Next(old(t), Kills(pid, i), t, init)
        && t[i].killed && (old(t)[i].state == SLEEPING ==> t[i] == old(t)[i].(killed := true, state := RUNNABLE))
        && (old(t)[i].state != SLEEPING ==> t[i] == old(t)[i].(killed := true))
    {
      for i := 0 to NPROC
        invariant t == old(t) && forall j :: 0 <= j < i ==> t[j].pid != pid
      {
        if t[i].pid == pid {
          t := t[i := t[i].(killed := true)];
          if t[i].state.SLEEPING? {
            t := t[i := t[i].(state := RUNNABLE)];
          }
          assert FirstWithPid(old(t), pid, i) && t == old(t)[i := Killed(old(t)[i])];
          CalmKeeps(old(t), t, init);
          return true;
        }
      }
      return false;
    }

    /** fork after a failed kalloc or copyuvm (proc.c:53-56, proc.c:139-144). */
    method ForkFail(p: nat)
      requires Valid() && p < NPROC && t[p].state.RUNNING? && t[p].mode.Allocated?
      modifies this`t
      ensures Valid() && old(t)[p].mode.child < NPROC && Next(old(t), Fails(p), t, init)
      ensures var c := old(t)[p].mode.child;
        t[c] == old(t)[c].(state := UNUSED) && t[p] == old(t)[p].(mode := Outside) && OthersKept(old(t), t, {p, c})
    {
      GivenBackKeeps(t, p, init);
      var c := t[p].mode.child;
      t := t[c := t[c].(state := UNUSED)];
      t := t[p := t[p].(mode := Outside)];
    }

    /** np->parent = proc (proc.c:146). */
    method ForkAdopt(p: nat)
      requires Valid() && p < NPROC && t[p].state.RUNNING? && t[p].mode.Allocated?
      modifies this`t
      ensures Valid() && old(t)[p].mode.child < NPROC && Next(old(t), Adopts(p), t, init)
      ensures var c := old(t)[p].mode.child;
        && t[c] == old(t)[c].(parent := Some(p)) && t[p] == old(t)[p].(mode := Parented(c))
        && OthersKept(old(t), t, {p, c})
    {
      AdoptedKeeps(t, p, init);
      var c := t[p].mode.child;
      t := t[c := t[c].(parent := Some(p))];
      t := t[p := t[p].(mode := Parented(c))];
    }

    /** np->state = RUNNABLE (proc.c:158); fork returns the child's pid. */
    method ForkStart(p: nat) returns (pid: nat)
      requires Valid() && p < NPROC && t[p].state.RUNNING? && t[p].mode.Parented?
      modifies this`t
      ensures Valid() && old(t)[p].mode.child < NPROC && Next(old(t), Starts(p), t, init)
      ensures pid == t[old(t)[p].mode.child].pid
      ensures var c := old(t)[p].mode.child;
        t[c] == old(t)[c].(state := RUNNABLE) && t[p] == old(t)[p].(mode := Outside) && OthersKept(old(t), t, {p, c})
    {
      StartedKeeps(t, p, init);
      var c := t[p].mode.child;
      pid := t[c].pid;
      t := t[c := t[c].(state := RUNNABLE)];
      t := t[p := t[p].(mode := Outside)];
    }

    /** Pass the children of p to init (proc.c:191-198). */
    method PassChildren(p: nat)
      requires p < |t|
      modifies this`t
      ensures PassedOn(old(t), t, p, init, |old(t)|)
    {
      var i := 0;
      while i < |t|
        invariant i <= |t| == |old(t)| && PassedOn(old(t), t, p, init, i)
      {
        ghost var t1 := t;
        if t[i].parent == Some(p) {
          t := t[i := t[i].(parent := Some(init))];
          if t[i].state.ZOMBIE? {
            Wakeup1(Slot(init));
          }
        }
        PassedMore(old(t), t1, t, p, init, i);
        i := i + 1;
      }
    }

    /** The locked part of exit (proc.c:186-201). */
    method Exit(p: nat)
      requires Valid() && p < NPROC && p != init && t[p].state.RUNNING? && t[p].mode.Outside?
      modifies this`t
      ensures Valid() && Next(old(t), Exits(p), t, init) && Departed(old(t), t, p, init)
    {
      assert ParentOk(t, init, p);
      Wakeup1(Slot(t[p].parent.value));
      ghost var t1 := t;
      PassChildren(p);
      ExitedInSteps(old(t), t1, t, p, init);
      t := t[p := t[p].(state := ZOMBIE)];
      ExitKeeps(old(t), t, p, init);
      ExitedDeparted(old(t), t, p, init);
    }

    /** One turn of wait's loop: reap a zombie child, give up, or sleep (proc.c:216-245). */
    method Wait(p: nat) returns (r: WaitResult)
      requires Valid() && p < NPROC && t[p].state.RUNNING? && (t[p].mode.Outside? || t[p].mode.InWait?)
      modifies this`t
      ensures Valid()
      ensures r.Reap? <==> HasZombieChild(old(t), p)
      ensures r.Reap? ==> exists c: nat :: ReapedChild(old(t), p, c, r.pid, t) && Next(old(t), Reaps(p, c), t, init)
      ensures r.Fail? ==> Next(old(t), WaitFails(p), t, init) && (!HasChild(t, p) || t[p].killed)
      ensures r.Fail? ==> t == old(t)[p := old(t)[p].(mode := Outside)]
      ensures r.Sleeps? ==> Next(old(t), WaitSleeps(p), t, init) && HasChild(t, p) && !t[p].killed
      ensures r.Sleeps? ==> t == old(t)[p := old(t)[p].(state := SLEEPING, chan := Slot(p), mode := InWait)]
    {
      var havekids := false;
      for i := 0 to NPROC
        invariant t == old(t) && havekids == ChildBelow(t, p, i) && !ZombieBelow(t, p, i)
      {
        if t[i].parent == Some(p) {
          assert IsChild(t, i, p);
          havekids := true;
          if t[i].state.ZOMBIE? {
            ReapKeeps(t, p, i, init);
            var pid := t[i].pid;
            t := t[i := t[i].(state := UNUSED, pid := 0, parent := None, killed := false)];
            t := t[p := t[p].(mode := Outside)];
            assert HasZombieChild(old(t), p) && ReapedChild(old(t), p, i, pid, t);
            return Reap(pid);
          }
        }
      }
      assert NoZombieChild(t, p) && havekids == HasChild(t, p);
      if !havekids || t[p].killed {
        WaitLeftKeeps(t, p, init);
        t := t[p := t[p].(mode := Outside)];
        assert HasChild(t, p) ==> HasChild(old(t), p) by {
          if c :| 0 <= c < |t| && IsChild(t, c, p) {
            assert IsChild(old(t), c, p);
          }
        }
        return Fail;
      }
      WaitAsleepKeeps(t, p, init);
      t := t[p := t[p].(state := SLEEPING, chan := Slot(p), mode := InWait)];
      assert AsleepInWait(t, p);
      return Sleeps;
    }
  }

  /** c was a zombie child of p with this pid, and wait has freed its slot. */
  predicate ReapedChild(t: Table, p: nat, c: nat, pid: nat, t': Table) {
    && p < |t| && IsChild(t, c, p) && t[c].state.ZOMBIE? && t[c].pid == pid && t' == Reaped(t, p, c)
    && !ZombieBelow(t, p, c) && t'[c] == t[c].(state := UNUSED, pid := 0, parent := None, killed := false)
    && t'[p] == t[p].(mode := Outside) && OthersKept(t, t', {p, c})
  }

  predicate ChildBelow(t: Table, p: nat, n: nat) {
    exists c :: 0 <= c < n && c < |t| && IsChild(t, c, p)
  }

  // ---- Whole runs -------------------------------------------------------------------

  datatype Step =
    | Schedules(p: nat) | Yields(p: nat) | SleepsOn(p: nat, addr: nat) | Wakes(addr: nat) | Kills(pid: nat, p: nat)
    | Allocs(p: nat, child: nat, pid: nat) | Fails(p: nat) | Adopts(p: nat) | Starts(p: nat)
    | Exits(p: nat) | Reaps(p: nat, child: nat) | WaitSleeps(p: nat) | WaitFails(p: nat)

  predicate Running(t: Table, p: nat) {
    p < |t| && t[p].state.RUNNING?
  }

  predicate Waiting(t: Table, p: nat) {
    Running(t, p) && (t[p].mode.Outside? || t[p].mode.InWait?)
  }

  predicate GivesUp(t: Table, p: nat) {
    p < |t| && (!HasChild(t, p) || t[p].killed)
  }

  /** One step of any process or processor. */
  predicate Next(t: Table, s: Step, t': Table, init: nat) {
    match s
    case Schedules(p) => p < |t| && t[p].state.RUNNABLE? && t' == t[p := t[p].(state := RUNNING)]
    case Yields(p) => Running(t, p) && t' == t[p := t[p].(state := RUNNABLE)]
    case SleepsOn(p, addr) => Running(t, p) && t[p].mode.Outside? &&
        t' == t[p := t[p].(state := SLEEPING, chan := Other(addr))]
    case Wakes(addr) => t' == WokenAll(t, Other(addr))
    case Kills(pid, p) => FirstWithPid(t, pid, p) && t' == t[p := Killed(t[p])]
    case Allocs(p, c, pid) => Running(t, p) && t[p].mode.Outside? && c < |t| && t[c].state.UNUSED? &&
        t' == Taken(t, p, c, pid)
    case Fails(p) => Running(t, p) && t[p].mode.Allocated? && t[p].mode.child < |t| && t' == GivenBack(t, p)
    case Adopts(p) => Running(t, p) && t[p].mode.Allocated? && t[p].mode.child < |t| && t' == Adopted(t, p)
    case Starts(p) => Running(t, p) && t[p].mode.Parented? && t[p].mode.child < |t| && t' == Started(t, p)
    case Exits(p) => Running(t, p) && t[p].mode.Outside? && p != init && Exited(t, t', p, init)
    case Reaps(p, c) => Waiting(t, p) && IsChild(t, c, p) && t[c].state.ZOMBIE? && t' == Reaped(t, p, c)
    case WaitSleeps(p) => Waiting(t, p) && HasChild(t, p) && NoZombieChild(t, p) && !t[p].killed &&
        t' == WaitAsleep(t, p)
    case WaitFails(p) => Waiting(t, p) && NoZombieChild(t, p) && GivesUp(t, p) && t' == WaitLeft(t, p)
  }

  lemma StepKeeps(t: Table, s: Step, t': Table, init: nat)
    requires Inv(t, init) && Next(t, s, t', init)
    ensures Inv(t', init)
  {
    match s
    case Schedules(_) => CalmKeeps(t, t', init);
    case Yields(_) => CalmKeeps(t, t', init);
    case SleepsOn(_, _) => CalmKeeps(t, t', init);
    case Wakes(_) => CalmKeeps(t, t', init);
    case Kills(_, _) => CalmKeeps(t, t', init);
    case Allocs(p, c, pid) => TakenKeeps(t, p, c, pid, init);
    case Fails(p) => GivenBackKeeps(t, p, init);
    case Adopts(p) => AdoptedKeeps(t, p, init);
    case Starts(p) => StartedKeeps(t, p, init);
    case Exits(p) => ExitKeeps(t, t', p, init);
    case Reaps(p, c) => ReapKeeps(t, p, c, init);
    case WaitSleeps(p) => WaitAsleepKeeps(t, p, init);
    case WaitFails(p) => WaitLeftKeeps(t, p, init);
  }

  /** In every state of every run, no wakeup is lost and every process has a live parent. */
  lemma {:induction false} RunKeeps(run: seq<Table>, steps: seq<Step>, k: nat)
    requires |run| == |steps| + 1 && run[0] == Initial() && k < |run|
    requires forall i :: 0 <= i < |steps| ==> Next(run[i], steps[i], run[i + 1], 0)
    ensures Inv(run[k], 0)
  {
    if k > 0 {
      RunKeeps(run, steps, k - 1);
      StepKeeps(run[k - 1], steps[k - 1], run[k], 0);
    }
  }

  // ---- Nobody who has been killed waits ------------------------------------------------------

  /** wait looks at the flag before it sleeps, and kill wakes whom it marks. */
  predicate NoKilledWaiter(t: Table) {
    forall p :: 0 <= p < |t| && AsleepInWait(t, p) ==> !t[p].killed
  }

  lemma StepNoKilledWaiter(t: Table, s: Step, t': Table, init: nat)
    requires Inv(t, init) && NoKilledWaiter(t) && Next(t, s, t', init)
    ensures NoKilledWaiter(t')
  {
    forall p | 0 <= p < |t'| && AsleepInWait(t', p) ensures !t'[p].killed {
      assert s != WaitSleeps(p) ==> AsleepInWait(t, p);
    }
  }

  /** In every state of every run, no process that has been killed is asleep in wait. */
  lemma {:induction false} RunNoKilledWaiter(run: seq<Table>, steps: seq<Step>, k: nat)
    requires |run| == |steps| + 1 && run[0] == Initial() && k < |run|
    requires forall i :: 0 <= i < |steps| ==> Next(run[i], steps[i], run[i + 1], 0)
    ensures NoKilledWaiter(run[k])
  {
    if k > 0 {
      RunNoKilledWaiter(run, steps, k - 1);
      RunKeeps(run, steps, k - 1);
      StepNoKilledWaiter(run[k - 1], steps[k - 1], run[k], 0);
    }
  }

  /** And nobody is asleep on an address right after it has been woken. */
  lemma StepWakes(t: Table, s: Step, t': Table, init: nat)
    requires s.Wakes? && Next(t, s, t', init)
    ensures NoneAsleepOn(t, t', Other(s.addr))
  {
  }

  // ---- The killed flag ------------------------------------------------------------------

  predicate Marks(s: Step, c: nat) {
    s.Kills? && s.p == c
  }

  predicate Clears(s: Step, c: nat) {
    s.Reaps? && s.child == c
  }

  /** A kill has hit slot c since it was last reaped, in the first k steps. */
  predicate HitSinceReaped(steps: seq<Step>, k: nat, c: nat)
    requires k <= |steps|
  {
    k > 0 && (Marks(steps[k - 1], c) || (!Clears(steps[k - 1], c) && HitSinceReaped(steps, k - 1, c)))
  }

  lemma StepFlag(t: Table, s: Step, t': Table, init: nat, c: nat)
    requires Inv(t, init) && Next(t, s, t', init) && c < |t|
    ensures |t'| == |t| && t'[c].killed == (Marks(s, c) || (!Clears(s, c) && t[c].killed))
  {
    assert forall i :: 0 <= i < |t| ==> ParentOk(t, init, i) && ForkOk(t, i);
  }

  /**
   In every state of every run, a slot, in use or not, is marked killed exactly if a kill has hit it since it was last
   reaped. Only reaping clears the flag (proc.c:232): neither allocproc nor fork does, so a child can inherit it.
   */
  lemma {:induction false} RunFlag(run: seq<Table>, steps: seq<Step>, k: nat, c: nat)
    requires |run| == |steps| + 1 && run[0] == Initial() && k < |run| && c < NPROC
    requires forall i :: 0 <= i < |steps| ==> Next(run[i], steps[i], run[i + 1], 0)
    ensures |run[k]| == NPROC && run[k][c].killed == HitSinceReaped(steps, k, c)
  {
    if k > 0 {
      RunFlag(run, steps, k - 1, c);
      RunKeeps(run, steps, k - 1);
      assert Next(run[k - 1], steps[k - 1], run[k], 0);
      StepFlag(run[k - 1], steps[k - 1], run[k], 0, c);
    }
  }

  /** A child can be born killed: kill(0) marks the first unused slot, whose pid is 0, and the next fork takes it. */
  lemma BornKilled()
    ensures exists t: Table, steps: seq<Step>, run: seq<Table> :: BornKilledRun(run, steps, t)
  {
    var t0 := Initial();
    var t1 := t0[1 := Killed(t0[1])];
    var t2 := t1[0 := t1[0].(state := RUNNING)];
    var t3 := Taken(t2, 0, 1, 2);
    var t4 := Adopted(t3, 0);
    var t5 := Started(t4, 0);
    var run := [t0, t1, t2, t3, t4, t5];
    var steps := [Kills(0, 1), Schedules(0), Allocs(0, 1, 2), Adopts(0), Starts(0)];
    assert BornKilledRun(run, steps, t5);
  }

  predicate BornKilledRun(run: seq<Table>, steps: seq<Step>, t: Table) {
    && |run| == |steps| + 1 && run[0] == Initial() && run[|steps|] == t && |t| == NPROC
    && (forall i :: 0 <= i < |steps| ==> Next(run[i], steps[i], run[i + 1], 0))
    && t[1].state.RUNNABLE? && t[1].killed && t[1].pid == 2
  }
}
