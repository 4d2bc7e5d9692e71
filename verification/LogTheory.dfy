/**
 The redo log of log.c as a function from disk images to disk images, and the
 crash-atomicity theorem. An image is the contents of every sector; a crash
 leaves the disk at one of the images that the sector writes pass through.
 */
module LogTheory {
  import opened Bytes

  const LOGSIZE: nat := 20           // param.h

  type Image = seq<Block>

  /** log.start and log.size: the header is sector start, slot i is sector start + 1 + i. */
  datatype Geometry = Geometry(start: nat, size: nat) {
    predicate Fits(img: Image) {
      1 <= size && start + size <= |img| && start < UINT_LIMIT
    }
    /** The largest number of sectors log_write accepts before it panics (log.c:170). */
    function Capacity(): nat {
      if size <= LOGSIZE then if size == 0 then 0 else size - 1 else LOGSIZE
    }
  }

  predicate Distinct(s: seq<nat>) {
    forall i, j :: 0 <= i < j < |s| ==> s[i] != s[j]
  }

  /** A list of home sectors the log can hold. */
  predicate Loggable(g: Geometry, secs: seq<nat>) {
    && |secs| <= g.Capacity()
    && (forall i :: 0 <= i < |secs| ==> secs[i] < g.start)
    && Distinct(secs)
  }

  // ---- The header block -------------------------------------------------

  /** The sectors listed by a header block whose count is at most LOGSIZE. */
  function HeadSectors(h: Block): (secs: seq<nat>)
    requires Word(h, 0) <= LOGSIZE
    ensures |secs| == Word(h, 0)
  {
    seq(Word(h, 0), i requires 0 <= i < Word(h, 0) => Word(h, i + 1))
  }

  /** Entries 0..k of the sector array stored into h. */
  function PutSectors(h: Block, secs: seq<nat>, k: nat): Block
    requires k <= |secs| <= LOGSIZE
    requires forall i :: 0 <= i < |secs| ==> secs[i] < UINT_LIMIT
  {
    if k == 0 then h else SetWord(PutSectors(h, secs, k - 1), k, secs[k - 1])
  }

  /** What write_head stores: the count and that many sectors; the other words of h stay. */
  function PutHead(h: Block, secs: seq<nat>): Block
    requires |secs| <= LOGSIZE
    requires forall i :: 0 <= i < |secs| ==> secs[i] < UINT_LIMIT
  {
    PutSectors(SetWord(h, 0, |secs|), secs, |secs|)
  }

  lemma {:induction false} PutSectorsWord(h: Block, secs: seq<nat>, k: nat, j: nat)
    requires k <= |secs| <= LOGSIZE && j < WORDS
    requires forall i :: 0 <= i < |secs| ==> secs[i] < UINT_LIMIT
    ensures Word(PutSectors(h, secs, k), j) == if 1 <= j <= k then secs[j - 1] else Word(h, j)
  {
    if k > 0 {
      PutSectorsWord(h, secs, k - 1, j);
      WordOfSetWord(PutSectors(h, secs, k - 1), k, secs[k - 1], j);
    }
  }

  /** read_head undoes write_head. */
  lemma HeadRoundTrip(h: Block, secs: seq<nat>)
    requires |secs| <= LOGSIZE
    requires forall i :: 0 <= i < |secs| ==> secs[i] < UINT_LIMIT
    ensures Word(PutHead(h, secs), 0) == |secs|
    ensures HeadSectors(PutHead(h, secs)) == secs
  {
    var h0 := SetWord(h, 0, |secs|);
    WordOfSetWord(h, 0, |secs|, 0);
    PutSectorsWord(h0, secs, |secs|, 0);
    var r := HeadSectors(PutHead(h, secs));
    forall i | 0 <= i < |secs| ensures r[i] == secs[i] {
      PutSectorsWord(h0, secs, |secs|, i + 1);
    }
  }

  // ---- Installing -------------------------------------------------------

  /** The image after install_trans has copied slots 0..k home. */
  function Installed(img: Image, g: Geometry, secs: seq<nat>, k: nat): (r: Image)
    requires g.Fits(img) && Loggable(g, secs) && k <= |secs|
    ensures |r| == |img|
  {
    if k == 0 then img else Installed(img, g, secs, k - 1)[secs[k - 1] := img[g.start + k]]
  }

  lemma {:induction false} InstalledHome(img: Image, g: Geometry, secs: seq<nat>, k: nat, i: nat)
    requires g.Fits(img) && Loggable(g, secs) && i < k <= |secs|
    ensures Installed(img, g, secs, k)[secs[i]] == img[g.start + 1 + i]
  {
    if i < k - 1 {
      InstalledHome(img, g, secs, k - 1, i);
      assert secs[i] != secs[k - 1];
    }
  }

  lemma {:induction false} InstalledElsewhere(img: Image, g: Geometry, secs: seq<nat>, k: nat, j: nat)
    requires g.Fits(img) && Loggable(g, secs) && k <= |secs| && j < |img|
    requires j !in secs[..k]
    ensures Installed(img, g, secs, k)[j] == img[j]
  {
    if k > 0 {
      assert secs[k - 1] in secs[..k];
      assert forall x :: x in secs[..k - 1] ==> x in secs[..k];
      InstalledElsewhere(img, g, secs, k - 1, j);
    }
  }

  /** The home sectors once everything in the log is installed. */
  function Pending(img: Image, g: Geometry, secs: seq<nat>): (home: Image)
    requires g.Fits(img) && Loggable(g, secs)
    ensures |home| == g.start
  {
    Installed(img, g, secs, |secs|)[..g.start]
  }

  /** Two images with the same log slots and the same unlogged home sectors are pending alike. */
  lemma PendingAgrees(a: Image, b: Image, g: Geometry, secs: seq<nat>)
    requires g.Fits(a) && g.Fits(b) && Loggable(g, secs)
    requires a[g.start + 1 .. g.start + 1 + |secs|] == b[g.start + 1 .. g.start + 1 + |secs|]
    requires forall j :: 0 <= j < g.start && j !in secs ==> a[j] == b[j]
    ensures Pending(a, g, secs) == Pending(b, g, secs)
  {
    assert secs[..|secs|] == secs;
    forall j | 0 <= j < g.start ensures Pending(a, g, secs)[j] == Pending(b, g, secs)[j] {
      if j in secs {
        var i :| 0 <= i < |secs| && secs[i] == j;
        InstalledHome(a, g, secs, |secs|, i);
        InstalledHome(b, g, secs, |secs|, i);
        assert a[g.start + 1 .. g.start + 1 + |secs|][i] == b[g.start + 1 .. g.start + 1 + |secs|][i];
      } else {
        InstalledElsewhere(a, g, secs, |secs|, j);
        InstalledElsewhere(b, g, secs, |secs|, j);
      }
    }
  }

  // ---- Recovery ---------------------------------------------------------

  /** The on-disk log header can be trusted: what every reachable image satisfies. */
  predicate Sound(img: Image, g: Geometry) {
    && g.Fits(img)
    && Word(img[g.start], 0) <= LOGSIZE
    && Loggable(g, HeadSectors(img[g.start]))
  }

  /** The home sectors a finished recovery from img leaves: the durable contents of the disk. */
  function Recovered(img: Image, g: Geometry): (home: Image)
    requires Sound(img, g)
    ensures |home| == g.start
  {
    Pending(img, g, HeadSectors(img[g.start]))
  }

  function WriteHead(img: Image, g: Geometry, secs: seq<nat>): (r: Image)
    requires g.Fits(img) && Loggable(g, secs)
    ensures |r| == |img|
  {
    img[g.start := PutHead(img[g.start], secs)]
  }

  lemma WriteHeadSound(img: Image, g: Geometry, secs: seq<nat>)
    requires g.Fits(img) && Loggable(g, secs)
    ensures Sound(WriteHead(img, g, secs), g)
    ensures HeadSectors(WriteHead(img, g, secs)[g.start]) == secs
    ensures Recovered(WriteHead(img, g, secs), g) == Pending(img, g, secs)
  {
    HeadRoundTrip(img[g.start], secs);
    PendingAgrees(img, WriteHead(img, g, secs), g, secs);
  }

  /** The images of install_trans: after 1, 2, ... of the listed sectors have been written. */
  function InstallImages(img: Image, g: Geometry, secs: seq<nat>, k: nat): (r: seq<Image>)
    requires g.Fits(img) && Loggable(g, secs) && k <= |secs|
    ensures |r| == k
    ensures forall i :: 0 <= i < k ==> r[i] == Installed(img, g, secs, i + 1)
  {
    if k == 0 then [] else InstallImages(img, g, secs, k - 1) + [Installed(img, g, secs, k)]
  }

  /** Every image that recover_from_log (log.c:116-122) writes, in order. */
  function RecoveryImages(img: Image, g: Geometry): (r: seq<Image>)
    requires Sound(img, g)
    ensures |r| == |HeadSectors(img[g.start])| + 1
  {
    var secs := HeadSectors(img[g.start]);
    InstallImages(img, g, secs, |secs|) + [WriteHead(Installed(img, g, secs, |secs|), g, [])]
  }

  /** Installing keeps the log itself, so a crash in the middle loses nothing. */
  lemma InstalledSound(img: Image, g: Geometry, k: nat)
    requires Sound(img, g) && k <= |HeadSectors(img[g.start])|
    ensures Sound(Installed(img, g, HeadSectors(img[g.start]), k), g)
    ensures Recovered(Installed(img, g, HeadSectors(img[g.start]), k), g) == Recovered(img, g)
  {
    var secs := HeadSectors(img[g.start]);
    var part := Installed(img, g, secs, k);
    forall j | g.start <= j < |img| ensures part[j] == img[j] {
      InstalledElsewhere(img, g, secs, k, j);
    }
    forall j | 0 <= j < g.start && j !in secs ensures part[j] == img[j] {
      assert forall x :: x in secs[..k] ==> x in secs;
      InstalledElsewhere(img, g, secs, k, j);
    }
    PendingAgrees(img, part, g, secs);
  }

  /** A crash after any number of recovery's writes leaves an image that recovers to the same contents. */
  lemma RecoveryCrashSafe(img: Image, g: Geometry, k: nat)
    requires Sound(img, g) && k < |RecoveryImages(img, g)|
    ensures Sound(RecoveryImages(img, g)[k], g)
    ensures Recovered(RecoveryImages(img, g)[k], g) == Recovered(img, g)
  {
    var secs := HeadSectors(img[g.start]);
    if k < |secs| {
      InstalledSound(img, g, k + 1);
    } else {
      var done := Installed(img, g, secs, |secs|);
      WriteHeadSound(done, g, []);
      assert Pending(done, g, []) == done[..g.start];
    }
  }

  /** The disk after recover_from_log has run to its end. */
  function AfterRecovery(img: Image, g: Geometry): Image
    requires Sound(img, g)
  {
    RecoveryImages(img, g)[|RecoveryImages(img, g)| - 1]
  }

  /** Quiescent: the header is empty, so the home sectors are the durable contents. */
  predicate Quiescent(img: Image, g: Geometry) {
    g.Fits(img) && Word(img[g.start], 0) == 0
  }

  lemma QuiescentRecovers(img: Image, g: Geometry)
    requires Quiescent(img, g)
    ensures Sound(img, g) && Recovered(img, g) == img[..g.start]
  {
    assert HeadSectors(img[g.start]) == [];
  }

  lemma RecoveryFinishes(img: Image, g: Geometry)
    requires Sound(img, g)
    ensures Quiescent(AfterRecovery(img, g), g)
    ensures AfterRecovery(img, g)[..g.start] == Recovered(img, g)
  {
    var secs := HeadSectors(img[g.start]);
    RecoveryCrashSafe(img, g, |secs|);
    HeadRoundTrip(Installed(img, g, secs, |secs|)[g.start], []);
    QuiescentRecovers(AfterRecovery(img, g), g);
  }

  /** A recovery interrupted after cuts[0] writes, restarted, interrupted after cuts[1] writes, ... */
  function Interrupted(img: Image, g: Geometry, cuts: seq<nat>): (r: Image)
    requires Sound(img, g)
    ensures Sound(r, g) && Recovered(r, g) == Recovered(img, g)
    decreases |cuts|
  {
    if cuts == [] then img
    else if cuts[0] == 0 || cuts[0] > |RecoveryImages(img, g)| then Interrupted(img, g, cuts[1..])
    else
      RecoveryCrashSafe(img, g, cuts[0] - 1);
      Interrupted(RecoveryImages(img, g)[cuts[0] - 1], g, cuts[1..])
  }

  // ---- Transactions -----------------------------------------------------

  /** One log_write: the home sector of the buffer and its data. */
  datatype LoggedWrite = LoggedWrite(sector: nat, data: Block)

  /** The first i with secs[i] == s, or |secs|: log_write's absorption scan (log.c:175-178). */
  function IndexOf(secs: seq<nat>, s: nat): (i: nat)
    ensures i <= |secs| && (i < |secs| ==> secs[i] == s)
    ensures forall j :: 0 <= j < i ==> secs[j] != s
  {
    if secs == [] || secs[0] == s then 0 else IndexOf(secs[1..], s) + 1
  }

  /** log_write's update of the header: a sector already logged keeps its slot (log.c:179-185). */
  function Absorb(secs: seq<nat>, s: nat): (r: seq<nat>)
    ensures s in r && forall x :: x in r <==> x in secs || x == s
  {
    var i := IndexOf(secs, s);
    if i == |secs| then secs + [s] else assert secs[i] == s; secs
  }

  /** The sectors logged by a list of writes, each once, in order of first use. */
  function SectorsOf(ops: seq<LoggedWrite>): seq<nat> {
    if ops == [] then [] else Absorb(SectorsOf(ops[..|ops| - 1]), ops[|ops| - 1].sector)
  }

  /** log_write's sector write: slot IndexOf of the log takes the data. */
  function LogWrite(img: Image, g: Geometry, secs: seq<nat>, op: LoggedWrite): (r: Image)
    requires g.Fits(img) && Loggable(g, Absorb(secs, op.sector))
    ensures |r| == |img|
  {
    img[g.start + 1 + IndexOf(secs, op.sector) := op.data]
  }

  /** What a list of writes means: each home sector takes its last logged data. */
  function Overlay(home: Image, ops: seq<LoggedWrite>): (r: Image)
    requires forall i :: 0 <= i < |ops| ==> ops[i].sector < |home|
    ensures |r| == |home|
  {
    if ops == [] then home
    else Overlay(home, ops[..|ops| - 1])[ops[|ops| - 1].sector := ops[|ops| - 1].data]
  }

  predicate Fitting(g: Geometry, ops: seq<LoggedWrite>) {
    Loggable(g, SectorsOf(ops))
  }

  /** No log_write of these meets "too big a transaction": the guard is tested before absorption (log.c:170-178). */
  predicate Passes(g: Geometry, ops: seq<LoggedWrite>) {
    forall k :: 0 <= k < |ops| ==> |SectorsOf(ops[..k])| < g.Capacity()
  }

  lemma {:induction false} FittingPrefix(g: Geometry, ops: seq<LoggedWrite>)
    requires Fitting(g, ops)
    ensures ops != [] ==> Fitting(g, ops[..|ops| - 1])
    ensures forall i :: 0 <= i < |ops| ==> ops[i].sector < g.start
  {
    if ops != [] {
      var init := ops[..|ops| - 1];
      var secs := SectorsOf(init);
      assert forall i :: 0 <= i < |secs| ==> secs[i] == SectorsOf(ops)[i];
      assert Loggable(g, secs);
      FittingPrefix(g, init);
      assert ops[|ops| - 1].sector in SectorsOf(ops);
    }
  }

  /** The image after the log_writes of an open transaction. */
  function Logged(img: Image, g: Geometry, ops: seq<LoggedWrite>): (r: Image)
    requires g.Fits(img) && Fitting(g, ops)
    ensures |r| == |img|
  {
    if ops == [] then img
    else
      FittingPrefix(g, ops);
      LogWrite(Logged(img, g, ops[..|ops| - 1]), g, SectorsOf(ops[..|ops| - 1]), ops[|ops| - 1])
  }

  /** One log_write changes what is pending by exactly that write: absorption keeps the last data. */
  lemma LogWritePending(img: Image, g: Geometry, secs: seq<nat>, op: LoggedWrite)
    requires g.Fits(img) && Loggable(g, secs) && Loggable(g, Absorb(secs, op.sector)) && op.sector < g.start
    ensures Pending(LogWrite(img, g, secs, op), g, Absorb(secs, op.sector))
         == Pending(img, g, secs)[op.sector := op.data]
  {
    var secs' := Absorb(secs, op.sector);
    forall j | 0 <= j < g.start
      ensures Pending(LogWrite(img, g, secs, op), g, secs')[j] == Pending(img, g, secs)[op.sector := op.data][j]
    {
      if j == op.sector {
        InstalledHome(LogWrite(img, g, secs, op), g, secs', |secs'|, IndexOf(secs, j));
      } else {
        LogWriteElsewhere(img, g, secs, op, j);
      }
    }
  }

  lemma LogWriteElsewhere(img: Image, g: Geometry, secs: seq<nat>, op: LoggedWrite, j: nat)
    requires g.Fits(img) && Loggable(g, secs) && Loggable(g, Absorb(secs, op.sector))
    requires j < g.start && j != op.sector
    ensures Pending(LogWrite(img, g, secs, op), g, Absorb(secs, op.sector))[j] == Pending(img, g, secs)[j]
  {
    var secs' := Absorb(secs, op.sector);
    var img' := LogWrite(img, g, secs, op);
    if j in secs {
      var m :| 0 <= m < |secs| && secs[m] == j;
      assert secs'[m] == j;
      InstalledHome(img', g, secs', |secs'|, m);
      InstalledHome(img, g, secs, |secs|, m);
    } else {
      assert secs[..|secs|] == secs && secs'[..|secs'|] == secs';
      InstalledElsewhere(img', g, secs', |secs'|, j);
      InstalledElsewhere(img, g, secs, |secs|, j);
    }
  }

  /** An open transaction leaves the header and the home sectors alone and collects its overlay in the log. */
  lemma {:induction false} LoggedPending(img: Image, g: Geometry, ops: seq<LoggedWrite>)
    requires g.Fits(img) && Fitting(g, ops)
    ensures forall j :: 0 <= j <= g.start ==> Logged(img, g, ops)[j] == img[j]
    ensures forall i :: 0 <= i < |ops| ==> ops[i].sector < g.start
    ensures Pending(Logged(img, g, ops), g, SectorsOf(ops)) == Overlay(img[..g.start], ops)
  {
    FittingPrefix(g, ops);
    if ops != [] {
      var init := ops[..|ops| - 1];
      LoggedPending(img, g, init);
      LogWritePending(Logged(img, g, init), g, SectorsOf(init), ops[|ops| - 1]);
    }
  }

  /** Every image commit_trans (log.c:141-155) writes for a non-empty header, in order. */
  function CommitImages(img: Image, g: Geometry, secs: seq<nat>): (r: seq<Image>)
    requires g.Fits(img) && Loggable(g, secs)
    ensures |r| == if secs == [] then 0 else |secs| + 2
  {
    if secs == [] then []
    else
      var committed := WriteHead(img, g, secs);
      [committed] + InstallImages(committed, g, secs, |secs|)
      + [WriteHead(Installed(committed, g, secs, |secs|), g, [])]
  }

  /** After its header write a commit does what recovery would do. */
  lemma CommitIsRecovery(img: Image, g: Geometry, secs: seq<nat>)
    requires g.Fits(img) && Loggable(g, secs) && secs != []
    ensures Sound(WriteHead(img, g, secs), g)
    ensures CommitImages(img, g, secs)
         == [WriteHead(img, g, secs)] + RecoveryImages(WriteHead(img, g, secs), g)
  {
    WriteHeadSound(img, g, secs);
  }

  /** Past the header write, every image of a commit recovers to the whole transaction. */
  lemma CommitCrashSafe(img: Image, g: Geometry, secs: seq<nat>, k: nat)
    requires g.Fits(img) && Loggable(g, secs) && k < |CommitImages(img, g, secs)|
    ensures Sound(CommitImages(img, g, secs)[k], g)
    ensures Recovered(CommitImages(img, g, secs)[k], g) == Pending(img, g, secs)
  {
    CommitIsRecovery(img, g, secs);
    WriteHeadSound(img, g, secs);
    if k > 0 {
      RecoveryCrashSafe(WriteHead(img, g, secs), g, k - 1);
    }
  }

  /** The images of the log_writes alone. */
  function LogImages(img: Image, g: Geometry, ops: seq<LoggedWrite>): (r: seq<Image>)
    requires g.Fits(img) && Fitting(g, ops)
    ensures |r| == |ops|
  {
    if ops == [] then []
    else
      FittingPrefix(g, ops);
      LogImages(img, g, ops[..|ops| - 1]) + [Logged(img, g, ops)]
  }

  /** Every image a whole transaction writes: its log_writes, then its commit. */
  function TransactionImages(img: Image, g: Geometry, ops: seq<LoggedWrite>): (r: seq<Image>)
    requires g.Fits(img) && Fitting(g, ops)
  {
    LogImages(img, g, ops) + CommitImages(Logged(img, g, ops), g, SectorsOf(ops))
  }

  lemma {:induction false} LogImagesCrashSafe(img: Image, g: Geometry, ops: seq<LoggedWrite>, k: nat)
    requires Quiescent(img, g) && Fitting(g, ops) && k < |ops|
    ensures Quiescent(LogImages(img, g, ops)[k], g)
    ensures LogImages(img, g, ops)[k][..g.start] == img[..g.start]
  {
    FittingPrefix(g, ops);
    if k == |ops| - 1 {
      LoggedPending(img, g, ops);
    } else {
      LogImagesCrashSafe(img, g, ops[..|ops| - 1], k);
    }
  }

  /** The disk a transaction leaves when the machine stops after k of its sector writes. */
  function CrashedAfter(img: Image, g: Geometry, ops: seq<LoggedWrite>, k: nat): Image
    requires g.Fits(img) && Fitting(g, ops) && k <= |TransactionImages(img, g, ops)|
  {
    if k == 0 then img else TransactionImages(img, g, ops)[k - 1]
  }

  lemma CrashRecovers(img: Image, g: Geometry, ops: seq<LoggedWrite>, k: nat)
    requires Quiescent(img, g) && Fitting(g, ops) && k <= |TransactionImages(img, g, ops)|
    ensures forall i :: 0 <= i < |ops| ==> ops[i].sector < g.start
    ensures Sound(CrashedAfter(img, g, ops, k), g)
    ensures Recovered(CrashedAfter(img, g, ops, k), g)
         == if k <= |ops| then img[..g.start] else Overlay(img[..g.start], ops)
  {
    FittingPrefix(g, ops);
    if k == 0 {
      QuiescentRecovers(img, g);
    } else if k <= |ops| {
      LogImagesCrashSafe(img, g, ops, k - 1);
      QuiescentRecovers(CrashedAfter(img, g, ops, k), g);
    } else {
      LoggedPending(img, g, ops);
      CommitCrashSafe(Logged(img, g, ops), g, SectorsOf(ops), k - 1 - |ops|);
    }
  }

  /**
   Crash atomicity. Start from a quiescent disk, run a transaction, stop after k
   sector writes, and let recovery itself be interrupted any number of times
   before it finishes. Then the home sectors hold the old contents when the stop
   came before the header write, and the whole transaction when it came after.
   */
  lemma CrashAtomicity(img: Image, g: Geometry, ops: seq<LoggedWrite>, k: nat, cuts: seq<nat>)
    requires Quiescent(img, g) && Fitting(g, ops) && k <= |TransactionImages(img, g, ops)|
    ensures forall i :: 0 <= i < |ops| ==> ops[i].sector < g.start
    ensures Sound(CrashedAfter(img, g, ops, k), g)
    ensures var final := AfterRecovery(Interrupted(CrashedAfter(img, g, ops, k), g, cuts), g);
      && Quiescent(final, g)
      && final[..g.start] == if k <= |ops| then img[..g.start] else Overlay(img[..g.start], ops)
  {
    CrashRecovers(img, g, ops, k);
    RecoveryFinishes(Interrupted(CrashedAfter(img, g, ops, k), g, cuts), g);
  }

  /** A transaction that returns from commit_trans has taken effect and left the log empty. */
  lemma CommitDurable(img: Image, g: Geometry, ops: seq<LoggedWrite>)
    requires Quiescent(img, g) && Fitting(g, ops)
    ensures forall i :: 0 <= i < |ops| ==> ops[i].sector < g.start
    ensures var last := CrashedAfter(img, g, ops, |TransactionImages(img, g, ops)|);
      Quiescent(last, g) && last[..g.start] == Overlay(img[..g.start], ops)
  {
    LoggedPending(img, g, ops);
    if ops != [] {
      var secs := SectorsOf(ops);
      var logged := Logged(img, g, ops);
      WriteHeadSound(logged, g, secs);
      RecoveryFinishes(WriteHead(logged, g, secs), g);
    }
  }

  // ---- Whole runs -------------------------------------------------------

  /** A transaction that completes, or one cut short after `after` writes and then recovered (through more crashes). */
  datatype Event =
    | Completes(ops: seq<LoggedWrite>)
    | Crashes(ops: seq<LoggedWrite>, after: nat, cuts: seq<nat>)

  predicate Possible(g: Geometry, e: Event) {
    Fitting(g, e.ops)
  }

  /** The transaction of e is durable: it completed, or the crash came after its header write. */
  predicate Durable(e: Event) {
    e.Completes? || e.after > |e.ops|
  }

  function Execute(img: Image, g: Geometry, e: Event): Image
    requires Quiescent(img, g) && Possible(g, e)
  {
    var writes := |TransactionImages(img, g, e.ops)|;
    if e.Completes? || e.after > writes then CrashedAfter(img, g, e.ops, writes)
    else
      CrashAtomicity(img, g, e.ops, e.after, e.cuts);
      AfterRecovery(Interrupted(CrashedAfter(img, g, e.ops, e.after), g, e.cuts), g)
  }

  lemma SectorsOfNonempty(ops: seq<LoggedWrite>)
    ensures SectorsOf(ops) == [] <==> ops == []
  {
  }

  lemma ExecuteAtomic(img: Image, g: Geometry, e: Event)
    requires Quiescent(img, g) && Possible(g, e)
    ensures forall i :: 0 <= i < |e.ops| ==> e.ops[i].sector < g.start
    ensures Quiescent(Execute(img, g, e), g)
    ensures Execute(img, g, e)[..g.start]
         == if Durable(e) then Overlay(img[..g.start], e.ops) else img[..g.start]
  {
    SectorsOfNonempty(e.ops);
    CommitDurable(img, g, e.ops);
    if e.Crashes? && e.after <= |TransactionImages(img, g, e.ops)| {
      CrashAtomicity(img, g, e.ops, e.after, e.cuts);
    }
  }

  function ExecuteAll(img: Image, g: Geometry, es: seq<Event>): (r: Image)
    requires Quiescent(img, g)
    requires forall i :: 0 <= i < |es| ==> Possible(g, es[i])
    ensures Quiescent(r, g)
    decreases |es|
  {
    if es == [] then img
    else
      var last := es[|es| - 1];
      var before := ExecuteAll(img, g, es[..|es| - 1]);
      ExecuteAtomic(before, g, last);
      Execute(before, g, last)
  }

  /** The writes of the durable transactions of a run, in order. */
  function DurableWrites(es: seq<Event>): seq<LoggedWrite> {
    if es == [] then []
    else DurableWrites(es[..|es| - 1]) + if Durable(es[|es| - 1]) then es[|es| - 1].ops else []
  }

  lemma {:induction false} OverlayConcat(home: Image, a: seq<LoggedWrite>, b: seq<LoggedWrite>)
    requires forall i :: 0 <= i < |a| ==> a[i].sector < |home|
    requires forall i :: 0 <= i < |b| ==> b[i].sector < |home|
    ensures forall i :: 0 <= i < |a + b| ==> (a + b)[i].sector < |home|
    ensures Overlay(home, a + b) == Overlay(Overlay(home, a), b)
  {
    if b == [] {
      assert a + b == a;
    } else {
      var init := b[..|b| - 1];
      assert (a + b)[..|a + b| - 1] == a + init;
      OverlayConcat(home, a, init);
    }
  }

  /**
   Safety over whole runs: after any sequence of completed and crashed transactions
   the home sectors are the initial ones overlaid with the durable transactions,
   each whole and in order, and with nothing else.
   */
  lemma {:induction false} RunsAreAtomic(img: Image, g: Geometry, es: seq<Event>)
    requires Quiescent(img, g)
    requires forall i :: 0 <= i < |es| ==> Possible(g, es[i])
    ensures forall i :: 0 <= i < |DurableWrites(es)| ==> DurableWrites(es)[i].sector < g.start
    ensures ExecuteAll(img, g, es)[..g.start] == Overlay(img[..g.start], DurableWrites(es))
  {
    if es != [] {
      var init := es[..|es| - 1];
      var last := es[|es| - 1];
      RunsAreAtomic(img, g, init);
      ExecuteAtomic(ExecuteAll(img, g, init), g, last);
      OverlayConcat(img[..g.start], DurableWrites(init), if Durable(last) then last.ops else []);
    }
  }
}
