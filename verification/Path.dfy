/**
 Path names (fs.c:834-915): skipelem takes a path apart, namex follows it through the directories.
 */
module Path {
  import opened Bytes
  import opened Directory
  import opened Wrappers

  const SLASH: byte := 0x2F

  predicate Slashes(s: seq<byte>) {
    forall i :: 0 <= i < |s| ==> s[i] == SLASH
  }

  predicate Plain(s: seq<byte>) {
    forall i :: 0 <= i < |s| ==> s[i] != SLASH
  }

  // ---- What a path means ------------------------------------------------------------

  /** The maximal runs of characters other than the slash, read one character at a time. */
  function Elements(path: seq<byte>): (es: seq<seq<byte>>)
    ensures path != [] && path[0] != SLASH ==> es != []
  {
    if path == [] then [] else
      var es := Elements(path[1..]);
      if path[0] == SLASH then es
      else if |path| == 1 || path[1] == SLASH then [[path[0]]] + es
      else [[path[0]] + es[0]] + es[1..]
  }

  lemma {:induction false} LeadingSlashes(s: seq<byte>, path: seq<byte>)
    requires Slashes(s)
    ensures Elements(s + path) == Elements(path)
    decreases |s|
  {
    if s == [] {
      assert s + path == path;
    } else {
      assert (s + path)[1..] == s[1..] + path;
      LeadingSlashes(s[1..], path);
    }
  }

  lemma {:induction false} FirstElement(elem: seq<byte>, rest: seq<byte>)
    requires elem != [] && Plain(elem) && (rest != [] ==> rest[0] == SLASH)
    ensures Elements(elem + rest) == [elem] + Elements(rest)
    decreases |elem|
  {
    var path := elem + rest;
    if |elem| == 1 {
      assert path[1..] == rest;
      assert elem == [path[0]];
    } else {
      assert path[1..] == elem[1..] + rest;
      FirstElement(elem[1..], rest);
      assert [path[0]] + elem[1..] == elem;
    }
  }

  /** A way to spell a list of names. */
  function Joined(names: seq<seq<byte>>): seq<byte> {
    if names == [] then [] else [SLASH] + names[0] + Joined(names[1..])
  }

  /** Every list of names has a path that reads back as it. */
  lemma {:induction false} ElementsOfJoined(names: seq<seq<byte>>)
    requires forall i :: 0 <= i < |names| ==> names[i] != [] && Plain(names[i])
    ensures Elements(Joined(names)) == names
    decreases |names|
  {
    if names != [] {
      var rest := Joined(names[1..]);
      ElementsOfJoined(names[1..]);
      assert names == [names[0]] + names[1..];
      FirstElement(names[0], rest);
      LeadingSlashes([SLASH], names[0] + rest);
      assert Joined(names) == [SLASH] + (names[0] + rest);
    }
  }

  // ---- skipelem ------------------------------------------------------------------------

  /** Slashes, an element, slashes, the rest. */
  ghost predicate Cut(path: seq<byte>, n: nat, e: nat, m: nat) {
    n < e <= m <= |path| && Slashes(path[..n]) && Plain(path[n..e]) && Slashes(path[e..m]) &&
    (e < |path| ==> path[e] == SLASH) && (m < |path| ==> path[m] != SLASH)
  }

  lemma CutElements(path: seq<byte>, n: nat, e: nat, m: nat)
    requires Cut(path, n, e, m)
    ensures Elements(path) == [path[n..e]] + Elements(path[m..])
    ensures path[m..] == [] <==> Elements(path[m..]) == []
  {
    assert Elements(path) == Elements(path[n..]) by {
      assert path == path[..n] + path[n..];
      LeadingSlashes(path[..n], path[n..]);
    }
    assert Elements(path[n..]) == [path[n..e]] + Elements(path[e..]) by {
      assert path[n..] == path[n..e] + path[e..];
      FirstElement(path[n..e], path[e..]);
    }
    assert Elements(path[e..]) == Elements(path[m..]) by {
      assert path[e..] == path[e..m] + path[m..];
      LeadingSlashes(path[e..m], path[m..]);
    }
  }

  lemma AllSlashes(path: seq<byte>)
    requires Slashes(path)
    ensures Elements(path) == []
  {
    LeadingSlashes(path, []);
    assert path + [] == path;
  }

  method SkipFrom(path: seq<byte>, from: nat, slashes: bool) returns (n: nat)
    requires from <= |path|
    ensures from <= n <= |path| && (if slashes then Slashes(path[from..n]) else Plain(path[from..n]))
    ensures n < |path| ==> (path[n] == SLASH) != slashes
  {
    n := from;
    while n < |path| && (path[n] == SLASH) == slashes
      invariant from <= n <= |path| && (if slashes then Slashes(path[from..n]) else Plain(path[from..n]))
    {
      assert path[from .. n + 1] == path[from..n] + [path[n]];
      n := n + 1;
    }
  }

  datatype Element = Element(name: seq<byte>, rest: seq<byte>)

  /** The next path element, cut to DIRSIZ, and the path behind it; None is a null pointer (fs.c:846-869). */
  method Skipelem(path: seq<byte>) returns (r: Option<Element>)
    requires IsText(path)
    ensures r.None? <==> Elements(path) == []
    ensures r.Some? ==> r.value.name == Key(Elements(path)[0]) && Elements(r.value.rest) == Elements(path)[1..]
    ensures r.Some? ==> IsText(r.value.name) && IsText(r.value.rest) && |r.value.rest| < |path|
    ensures r.Some? ==> (r.value.rest == [] <==> |Elements(path)| == 1)
  {
    var n := SkipFrom(path, 0, true);
    assert path[0..n] == path[..n];
    if n == |path| {
      assert path[..n] == path;
      AllSlashes(path);
      return None;
    }
    var e := SkipFrom(path, n, false);
    var m := SkipFrom(path, e, true);
    CutElements(path, n, e, m);
    var name := if e - n >= DIRSIZ then path[n .. n + DIRSIZ] else path[n..e];
    assert Key(path[n..e]) == name;
    return Some(Element(name, path[m..]));
  }

  // ---- namex -----------------------------------------------------------------------------

  type Table = map<nat, map<seq<byte>, nat>>

  /** The content of every directory that locks without an error, by inode number. */
  ghost predicate DirsOk(dirs: map<nat, seq<byte>>) {
    forall i :: i in dirs ==> DirOk(dirs[i])
  }

  ghost function Tables(dirs: map<nat, seq<byte>>): Table
    requires DirsOk(dirs)
  {
    map i | i in dirs :: AsMap(Entries(dirs[i]))
  }

  ghost predicate Leads(t: Table, ip: nat, name: seq<byte>) {
    ip in t && Key(name) in t[ip]
  }

  /** Where a list of names leads. */
  ghost function Follow(t: Table, ip: nat, names: seq<seq<byte>>): Option<nat>
    decreases |names|
  {
    if names == [] then Some(ip)
    else if !Leads(t, ip, names[0]) then None
    else Follow(t, t[ip][Key(names[0])], names[1..])
  }

  datatype Last = Last(dir: nat, name: seq<byte>)

  /** The directory of the last name, and that name. */
  ghost function FollowParent(t: Table, ip: nat, names: seq<seq<byte>>): Option<Last> {
    if names == [] then None else
      var p := Follow(t, ip, names[..|names| - 1]);
      if p.Some? && p.value in t then Some(Last(p.value, Key(names[|names| - 1]))) else None
  }

  lemma ParentStep(t: Table, ip: nat, names: seq<seq<byte>>)
    requires |names| > 1
    ensures FollowParent(t, ip, names) == if Leads(t, ip, names[0]) then FollowParent(t, t[ip][Key(names[0])],
      names[1..]) else None
  {
    var init := names[..|names| - 1];
    assert init[1..] == names[1..][..|names| - 2];
  }

  /** namei (fs.c:874-913 with nameiparent 0): the path is followed to its end. */
  method Namei(dirs: map<nat, seq<byte>>, root: nat, cwd: nat, path: seq<byte>) returns (r: Option<nat>)
    requires DirsOk(dirs) && IsText(path)
    ensures r == Follow(Tables(dirs), if path != [] && path[0] == SLASH then root else cwd, Elements(path))
  {
    var ip: nat := if path != [] && path[0] == SLASH then root else cwd;
    var rest := path;
    ghost var t := Tables(dirs);
    ghost var goal := Follow(t, ip, Elements(path));
    while true
      invariant IsText(rest) && Follow(t, ip, Elements(rest)) == goal
      decreases |rest|
    {
      var e := Skipelem(rest);
      if e.None? {
        return Some(ip);
      }
      if ip !in dirs {
        return None;
      }
      var next := Dirlookup(dirs[ip], e.value.name);
      if next.None? {
        return None;
      }
      ip, rest := next.value.inum, e.value.rest;
    }
  }

  /** nameiparent (fs.c:874-913 with nameiparent set): one level early, with the last name. */
  method Nameiparent(dirs: map<nat, seq<byte>>, root: nat, cwd: nat, path: seq<byte>) returns (r: Option<Last>)
    requires DirsOk(dirs) && IsText(path)
    ensures r == FollowParent(Tables(dirs), if path != [] && path[0] == SLASH then root else cwd, Elements(path))
  {
    var ip: nat := if path != [] && path[0] == SLASH then root else cwd;
    var rest := path;
    ghost var t := Tables(dirs);
    ghost var goal := FollowParent(t, ip, Elements(path));
    while true
      invariant IsText(rest) && FollowParent(t, ip, Elements(rest)) == goal
      decreases |rest|
    {
      var e := Skipelem(rest);
      if e.None? {
        return None;
      }
      ghost var names := Elements(rest);
      if ip !in dirs {
        if |names| > 1 {
          ParentStep(t, ip, names);
        }
        return None;
      }
      if e.value.rest == [] {
        return Some(Last(ip, e.value.name));
      }
      ParentStep(t, ip, names);
      var next := Dirlookup(dirs[ip], e.value.name);
      if next.None? {
        return None;
      }
      ip, rest := next.value.inum, e.value.rest;
    }
  }
}
