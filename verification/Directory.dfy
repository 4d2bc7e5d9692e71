/**
 Directories (fs.c:767-829): a directory's content is an array of 16-byte entries that stands for a finite map
 from names, cut to DIRSIZ bytes, to inode numbers.
 */
module Directory {
  import opened Bytes
  import opened Blocks
  import opened Wrappers

  const DIRSIZ: nat := 14
  const DIRENT: nat := 16            // sizeof(struct dirent): a 16-bit inode number and the name

  // ---- Names -----------------------------------------------------------------

  /** A C string's characters. */
  predicate IsText(name: seq<byte>) {
    forall i :: 0 <= i < |name| ==> name[i] != 0
  }

  /** What a directory keeps of a name. */
  function Key(name: seq<byte>): seq<byte> {
    if |name| <= DIRSIZ then name else name[..DIRSIZ]
  }

  /** The characters of a name field, up to the first NUL. */
  function NameOf(field: seq<byte>): (n: seq<byte>)
    ensures n <= field && IsText(n) && (|n| < |field| ==> field[|n|] == 0)
  {
    if field == [] || field[0] == 0 then [] else
      var n := NameOf(field[1..]);
      assert field == [field[0]] + field[1..];
      [field[0]] + n
  }

  lemma NameOfIs(field: seq<byte>, n: seq<byte>)
    requires n <= field && IsText(n) && (|n| < |field| ==> field[|n|] == 0)
    ensures NameOf(field) == n
  {
    var m := NameOf(field);
    assert forall k :: 0 <= k < |n| ==> field[k] == n[k];
    assert forall k :: 0 <= k < |m| ==> field[k] == m[k];
    assert m == field[..|m|] && n == field[..|n|];
  }

  /** namecmp: strncmp up to DIRSIZ (fs.c:767-770, string.c:58-66). */
  method Namecmp(name: seq<byte>, field: seq<byte>) returns (same: bool)
    requires IsText(name) && |field| == DIRSIZ
    ensures same <==> Key(name) == NameOf(field)
  {
    var i := 0;
    while i < DIRSIZ && i < |name| && name[i] == field[i]
      invariant i <= DIRSIZ && i <= |name| && name[..i] == field[..i]
    {
      i := i + 1;
    }
    var p: byte := if i < |name| then name[i] else 0;
    same := i == DIRSIZ || p == field[i];
    if same {
      NameOfIs(field, Key(name));
    } else {
      Mismatch(name, field, i);
    }
  }

  lemma Mismatch(name: seq<byte>, field: seq<byte>, i: nat)
    requires IsText(name) && |field| == DIRSIZ && i < DIRSIZ && i <= |name| && name[..i] == field[..i]
    requires field[i] != if i < |name| then name[i] else 0
    ensures Key(name) != NameOf(field)
  {
    var key, n := Key(name), NameOf(field);
    assert forall k :: 0 <= k < |n| ==> n[k] == field[k];
    if i < |name| {
      assert key[i] == name[i];
    }
  }

  /** strncpy into a name field (string.c:68-79). */
  function Field(name: seq<byte>): (f: seq<byte>)
    ensures |f| == DIRSIZ
  {
    Key(name) + seq(DIRSIZ - |Key(name)|, _ => 0)
  }

  /** What is stored reads back as the name, cut. */
  lemma FieldName(name: seq<byte>)
    requires IsText(name)
    ensures NameOf(Field(name)) == Key(name)
  {
    NameOfIs(Field(name), Key(name));
  }

  // ---- Entries ------------------------------------------------------------------

  type Dirent = e: seq<byte> | |e| == DIRENT witness seq(DIRENT, _ => 0)

  function Inum(e: Dirent): nat {
    Value(e[0]) + 0x100 * Value(e[1])
  }

  function NameIn(e: Dirent): seq<byte> {
    NameOf(e[2..])
  }

  /** A directory's content: whole entries. */
  predicate IsDir(content: seq<byte>) {
    |content| % DIRENT == 0
  }

  function EntryAt(content: seq<byte>, k: nat): Dirent
    requires DIRENT * k + DIRENT <= |content|
  {
    content[DIRENT * k .. DIRENT * k + DIRENT]
  }

  function Entries(content: seq<byte>): (es: seq<Dirent>)
    requires IsDir(content)
    ensures |es| == |content| / DIRENT && forall k :: 0 <= k < |es| ==> es[k] == EntryAt(content, k)
  {
    seq(|content| / DIRENT, k requires 0 <= k < |content| / DIRENT => EntryAt(content, k))
  }

  predicate SameName(es: seq<Dirent>, j: nat, k: nat) {
    j < |es| && k < |es| && Inum(es[j]) != 0 && Inum(es[k]) != 0 && NameIn(es[j]) == NameIn(es[k])
  }

  /** No name is in use twice. */
  ghost predicate Unique(es: seq<Dirent>) {
    forall j, k {:trigger SameName(es, j, k)} :: 0 <= j < |es| && 0 <= k < |es| && SameName(es, j, k) ==> j == k
  }

  /** The map the entries in use stand for. */
  function AsMap(es: seq<Dirent>): map<seq<byte>, nat> {
    if es == [] then map[] else
      var m, e := AsMap(es[..|es| - 1]), es[|es| - 1];
      if Inum(e) == 0 then m else m[NameIn(e) := Inum(e)]
  }

  /** Slot k is in use for name x. */
  predicate Holds(es: seq<Dirent>, k: nat, x: seq<byte>) {
    k < |es| && Inum(es[k]) != 0 && NameIn(es[k]) == x
  }

  lemma {:induction false} MapHas(es: seq<Dirent>, x: seq<byte>)
    requires Unique(es)
    ensures x in AsMap(es) <==> exists k :: 0 <= k < |es| && Holds(es, k, x)
    ensures forall k :: 0 <= k < |es| && Holds(es, k, x) ==> x in AsMap(es) && AsMap(es)[x] == Inum(es[k])
    decreases |es|
  {
    if es != [] {
      var init, last := es[..|es| - 1], |es| - 1;
      forall j, k | 0 <= j < |init| && 0 <= k < |init| && SameName(init, j, k) ensures j == k {
        assert SameName(es, j, k);
      }
      MapHas(init, x);
      forall k | 0 <= k < last ensures Holds(es, k, x) == Holds(init, k, x) {
      }
      forall k | 0 <= k < last ensures !(Holds(es, k, x) && Holds(es, last, x)) {
        assert SameName(es, k, last) ==> k == last;
      }
      assert (exists k :: 0 <= k < |es| && Holds(es, k, x)) <==>
          (exists k :: 0 <= k < |init| && Holds(init, k, x)) || Holds(es, last, x);
    }
  }

  /** A free slot is filled with a new name. */
  lemma FillSlot(es: seq<Dirent>, k: nat, e: Dirent)
    requires Unique(es) && k < |es| && Inum(es[k]) == 0 && Inum(e) != 0 && NameIn(e) !in AsMap(es)
    ensures Unique(es[k := e]) && AsMap(es[k := e]) == AsMap(es)[NameIn(e) := Inum(e)]
  {
    var es' := es[k := e];
    MapHas(es, NameIn(e));
    assert forall i :: 0 <= i < |es| ==> !Holds(es, i, NameIn(e));
    forall i, j | 0 <= i < |es'| && 0 <= j < |es'| && SameName(es', i, j) ensures i == j {
      if i != k && j != k {
        assert SameName(es, i, j);
      }
    }
    forall x ensures x in AsMap(es') <==> x in AsMap(es)[NameIn(e) := Inum(e)] {
      FillHolds(es, k, e, x);
    }
    forall x | x in AsMap(es') ensures AsMap(es')[x] == AsMap(es)[NameIn(e) := Inum(e)][x] {
      FillHolds(es, k, e, x);
    }
  }

  lemma FillHolds(es: seq<Dirent>, k: nat, e: Dirent, x: seq<byte>)
    requires Unique(es) && k < |es| && Inum(es[k]) == 0 && Inum(e) != 0 && NameIn(e) !in AsMap(es) && Unique(es[k := e])
    ensures x in AsMap(es[k := e]) <==> x in AsMap(es) || x == NameIn(e)
    ensures x in AsMap(es[k := e]) ==> AsMap(es[k := e])[x] == if x == NameIn(e) then Inum(e) else AsMap(es)[x]
  {
    var es' := es[k := e];
    MapHas(es, x);
    MapHas(es', x);
    assert Holds(es', k, NameIn(e));
    forall i | 0 <= i < |es| && i != k ensures Holds(es', i, x) == Holds(es, i, x) {
    }
    assert !Holds(es, k, x);
  }

  /** A slot in use is cleared. */
  lemma ClearSlot(es: seq<Dirent>, k: nat, e: Dirent)
    requires Unique(es) && k < |es| && Inum(es[k]) != 0 && Inum(e) == 0
    ensures Unique(es[k := e]) && AsMap(es[k := e]) == AsMap(es) - {NameIn(es[k])}
  {
    var es' := es[k := e];
    forall i, j | 0 <= i < |es'| && 0 <= j < |es'| && SameName(es', i, j) ensures i == j {
      assert SameName(es, i, j);
    }
    forall x ensures x in AsMap(es') <==> x in AsMap(es) - {NameIn(es[k])} {
      ClearHolds(es, k, e, x);
    }
    forall x | x in AsMap(es') ensures AsMap(es')[x] == (AsMap(es) - {NameIn(es[k])})[x] {
      ClearHolds(es, k, e, x);
    }
  }

  lemma ClearHolds(es: seq<Dirent>, k: nat, e: Dirent, x: seq<byte>)
    requires Unique(es) && k < |es| && Inum(es[k]) != 0 && Inum(e) == 0 && Unique(es[k := e])
    ensures x in AsMap(es[k := e]) <==> x in AsMap(es) && x != NameIn(es[k])
    ensures x in AsMap(es[k := e]) ==> AsMap(es[k := e])[x] == AsMap(es)[x]
  {
    var es' := es[k := e];
    MapHas(es, x);
    MapHas(es', x);
    forall i | 0 <= i < |es| && i != k ensures Holds(es', i, x) == Holds(es, i, x) &&
        !(Holds(es, i, x) && x == NameIn(es[k])) {
      assert SameName(es, i, k) ==> i == k;
    }
    assert !Holds(es', k, x);
  }

  /** An entry is put behind the others. */
  lemma AppendSlot(es: seq<Dirent>, e: Dirent)
    requires Unique(es) && Inum(e) != 0 && NameIn(e) !in AsMap(es)
    ensures Unique(es + [e]) && AsMap(es + [e]) == AsMap(es)[NameIn(e) := Inum(e)]
  {
    var es' := es + [e];
    MapHas(es, NameIn(e));
    assert forall i :: 0 <= i < |es| ==> !Holds(es, i, NameIn(e));
    forall i, j | 0 <= i < |es'| && 0 <= j < |es'| && SameName(es', i, j) ensures i == j {
      if i < |es| && j < |es| {
        assert SameName(es, i, j);
      }
    }
    assert es'[..|es'| - 1] == es;
  }

  // ---- The directory operations --------------------------------------------------------

  /** Writing a whole entry over slot k, or behind the last. */
  lemma WriteEntry(content: seq<byte>, k: nat, e: Dirent)
    requires IsDir(content) && k <= |content| / DIRENT
    ensures DIRENT * k <= |content| && IsDir(Overwritten(content, DIRENT * k, e))
    ensures Entries(Overwritten(content, DIRENT * k, e)) == if k < |Entries(content)| then Entries(content)[k := e]
      else Entries(content) + [e]
  {
    var n := |content| / DIRENT;
    assert |content| == DIRENT * n;
    var c := Overwritten(content, DIRENT * k, e);
    assert |c| == if k < n then DIRENT * n else DIRENT * (n + 1);
    forall j | 0 <= j < |c| / DIRENT ensures EntryAt(c, j) == if j == k then e else EntryAt(content, j) {
      EntryAfterWrite(content, k, e, n, j);
    }
  }

  lemma EntryAfterWrite(content: seq<byte>, k: nat, e: Dirent, n: nat, j: nat)
    requires |content| == DIRENT * n && k <= n && (j < n || j == k)
    ensures var c := Overwritten(content, DIRENT * k, e);
      DIRENT * j + DIRENT <= |c| && EntryAt(c, j) == if j == k then e else EntryAt(content, j)
  {
    var c := Overwritten(content, DIRENT * k, e);
    if j < k {
      assert DIRENT * j + DIRENT <= DIRENT * k;
    } else if j > k {
      assert DIRENT * k + DIRENT <= DIRENT * j;
    }
  }

  const DOT: seq<byte> := [0x2E]
  const DOTDOT: seq<byte> := [0x2E, 0x2E]

  function NewEntry(name: seq<byte>, inum: nat): (e: seq<byte>)
    requires inum < 0x10000
    ensures |e| == DIRENT
  {
    [Byte(inum % 0x100), Byte(inum / 0x100)] + Field(name)
  }

  lemma NewEntryOk(name: seq<byte>, inum: nat)
    requires IsText(name) && inum < 0x10000
    ensures Inum(NewEntry(name, inum)) == inum && NameIn(NewEntry(name, inum)) == Key(name)
  {
    FieldName(name);
    assert NewEntry(name, inum)[2..] == Field(name);
  }

  /** What a directory's content must be for lookups to mean anything. */
  ghost predicate DirOk(content: seq<byte>) {
    IsDir(content) && Unique(Entries(content))
  }

  datatype Found = Found(inum: nat, off: nat)

  /** Look for a name; None is 0, else the inode number and the entry's offset (fs.c:773-799). */
  method Dirlookup(content: seq<byte>, name: seq<byte>) returns (r: Option<Found>)
    requires DirOk(content) && IsText(name)
    ensures r.None? <==> Key(name) !in AsMap(Entries(content))
    ensures r.Some? ==> AsMap(Entries(content))[Key(name)] == r.value.inum != 0
    ensures r.Some? ==> r.value.off % DIRENT == 0 && Holds(Entries(content), r.value.off / DIRENT, Key(name))
  {
    ghost var es := Entries(content);
    MapHas(es, Key(name));
    var off := 0;
    ghost var k := 0;
    while off < |content|
      invariant off == DIRENT * k && k <= |es| && off <= |content| && forall j :: 0 <= j < k ==>
        !Holds(es, j, Key(name))
    {
      assert off + DIRENT <= |content|;
      var de := content[off .. off + DIRENT];
      assert es[k] == de;
      var inum := Inum(de);
      if inum != 0 {
        var same := Namecmp(name, de[2..]);
        if same {
          assert Holds(es, k, Key(name)) && off / DIRENT == k;
          return Some(Found(inum, off));
        }
      }
      assert !Holds(es, k, Key(name));
      off, k := off + DIRENT, k + 1;
    }
    return None;
  }

  /** The offset of the first free entry, or of the end (fs.c:815-821). */
  method FreeSlot(content: seq<byte>) returns (off: nat, ghost k: nat)
    requires IsDir(content)
    ensures off == DIRENT * k && k <= |Entries(content)| && (k < |Entries(content)| ==> Inum(Entries(content)[k]) == 0)
    ensures forall j :: 0 <= j < k ==> Inum(Entries(content)[j]) != 0
  {
    ghost var es := Entries(content);
    off, k := 0, 0;
    while off < |content|
      invariant off == DIRENT * k && k <= |es| && off <= |content| && forall j :: 0 <= j < k ==> Inum(es[j]) != 0
    {
      assert off + DIRENT <= |content|;
      var de := content[off .. off + DIRENT];
      assert es[k] == de;
      if Inum(de) == 0 {
        return;
      }
      off, k := off + DIRENT, k + 1;
    }
  }

  predicate HasFreeSlot(es: seq<Dirent>) {
    exists k :: 0 <= k < |es| && Inum(es[k]) == 0
  }

  /** No entry is in use from the third on (sysfile.c:172-184). */
  method Isdirempty(content: seq<byte>) returns (empty: bool)
    requires IsDir(content)
    ensures empty <==> OnlyFirstTwo(Entries(content))
  {
    ghost var es := Entries(content);
    var off := 2 * DIRENT;
    ghost var k := 2;
    while off < |content|
      invariant off == DIRENT * k && k >= 2 && forall j :: 2 <= j < k && j < |es| ==> Inum(es[j]) == 0
    {
      assert off + DIRENT <= |content|;
      var de := content[off .. off + DIRENT];
      assert es[k] == de;
      if Inum(de) != 0 {
        return false;
      }
      off, k := off + DIRENT, k + 1;
    }
    return true;
  }

  predicate OnlyFirstTwo(es: seq<Dirent>) {
    forall j :: 2 <= j < |es| ==> Inum(es[j]) == 0
  }

  /** The two entries every directory is made with (sysfile.c:296-302). */
  predicate HasDots(es: seq<Dirent>) {
    |es| >= 2 && Holds(es, 0, DOT) && Holds(es, 1, DOTDOT)
  }

  /** Skipping the first two entries is right: nothing else is in use exactly when the map has just the dots. */
  lemma EmptyMeans(es: seq<Dirent>)
    requires Unique(es) && HasDots(es)
    ensures OnlyFirstTwo(es) <==> AsMap(es).Keys == {DOT, DOTDOT}
  {
    MapHas(es, DOT);
    MapHas(es, DOTDOT);
    if OnlyFirstTwo(es) {
      forall x ensures x in AsMap(es) <==> x in {DOT, DOTDOT} {
        MapHas(es, x);
      }
    } else {
      var j :| 2 <= j < |es| && Inum(es[j]) != 0;
      var x := NameIn(es[j]);
      MapHas(es, x);
      assert Holds(es, j, x);
      assert !SameName(es, 0, j) && !SameName(es, 1, j);
    }
  }

  datatype LinkResult = Linked | Exists | DirectoryFull

  class Directory {
    var content: seq<byte>           // what readi and writei see

    ghost predicate Valid()
      reads this
    {
      DirOk(content) && |content| <= MAXBYTES
    }

    ghost function Map(): map<seq<byte>, nat>
      reads this
      requires Valid()
    {
      AsMap(Entries(content))
    }

    constructor ()
      ensures Valid() && Map() == map[]
    {
      content := [];
      new;
      assert Entries(content) == [];
    }

    /** Write a new entry; a name that is there already is refused and nothing changes (fs.c:801-829). */
    method Dirlink(name: seq<byte>, inum: nat) returns (r: LinkResult)
      requires Valid() && IsText(name) && 0 < inum < 0x10000
      modifies this
      ensures Valid()
      ensures r.Exists? <==> Key(name) in old(Map())
      ensures r.Exists? || r.DirectoryFull? ==> content == old(content)
      ensures r.Linked? ==> Map() == old(Map())[Key(name) := inum]
      // a cleared slot is used again before the directory grows
      ensures r.Linked? ==> |content| == |old(content)| + if HasFreeSlot(Entries(old(content))) then 0 else DIRENT
      ensures r.DirectoryFull? ==>
        |content| + DIRENT > MAXBYTES && forall k :: 0 <= k < |Entries(content)| ==> Inum(Entries(content)[k]) != 0
    {
      var ip := Dirlookup(content, name);
      if ip.Some? {
        return Exists;
      }
      var off; ghost var k;
      off, k := FreeSlot(content);
      if off + DIRENT > MAXBYTES {
        return DirectoryFull;
      }
      var de: Dirent := NewEntry(name, inum);
      NewEntryOk(name, inum);
      WriteEntry(content, k, de);
      ghost var es := Entries(content);
      if k < |es| {
        FillSlot(es, k, de);
      } else {
        AppendSlot(es, de);
      }
      content := Overwritten(content, off, de);
      return Linked;
    }

    /** The part of sys_unlink that clears the entry (sysfile.c:208-229). The parameter is the content of the inode
        with that name, if it is a directory. False: a directory with entries of its own, "." or "..",
            or no such name. */
    method Unlink(name: seq<byte>, target: Option<seq<byte>>) returns (ok: bool)
      requires Valid() && IsText(name) && (target.Some? ==> IsDir(target.value))
      modifies this
      ensures Valid()
      ensures ok <==>
        && Key(name) in old(Map()) && Key(name) != DOT && Key(name) != DOTDOT
        && (target.Some? ==> OnlyFirstTwo(Entries(target.value)))
      ensures Map() == if ok then old(Map()) - {Key(name)} else old(Map())
      ensures |content| == |old(content)|
    {
      if Key(name) == DOT || Key(name) == DOTDOT {
        return false;
      }
      var r := Dirlookup(content, name);
      if r.None? {
        return false;
      }
      if target.Some? {
        var empty := Isdirempty(target.value);
        if !empty {
          return false;
        }
      }
      var de: Dirent := seq(DIRENT, _ => 0);
      ghost var es, k := Entries(content), r.value.off / DIRENT;
      assert r.value.off == DIRENT * k;
      WriteEntry(content, k, de);
      ClearSlot(es, k, de);
      content := Overwritten(content, r.value.off, de);
      return true;
    }
  }
}
