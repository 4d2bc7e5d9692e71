/** Sequences without repetition, and the order of last occurrence in a history. */
module Recency {
  ghost predicate NoDup<T>(s: seq<T>) {
    forall i, j :: 0 <= i < j < |s| ==> s[i] != s[j]
  }

  function Without<T>(s: seq<T>, k: nat): (r: seq<T>)
    requires k < |s|
  {
    s[..k] + s[k + 1..]
  }

  function Remove<T(==)>(s: seq<T>, x: T): (r: seq<T>) {
    if s == [] then [] else if s[0] == x then Remove(s[1..], x) else [s[0]] + Remove(s[1..], x)
  }

  /** The members of a history, the one that occurred last first. */
  function ByRecency<T(==)>(history: seq<T>): (r: seq<T>) {
    if history == [] then []
    else
      var last := history[|history| - 1];
      [last] + Remove(ByRecency(history[..|history| - 1]), last)
  }

  /** The position of the last occurrence. */
  function LastIndex<T(==)>(history: seq<T>, x: T): (i: nat)
    requires x in history
    ensures i < |history| && history[i] == x && x !in history[i + 1..]
  {
    if history[|history| - 1] == x then |history| - 1
    else
      var init := history[..|history| - 1];
      assert history == init + [history[|history| - 1]];
      var i := LastIndex(init, x);
      assert history[i + 1..] == init[i + 1..] + [history[|history| - 1]];
      i
  }

  /** x comes somewhere before y. */
  ghost predicate Before<T>(s: seq<T>, x: T, y: T) {
    exists p, q :: 0 <= p < q < |s| && s[p] == x && s[q] == y
  }

  lemma BeforeTail<T>(s: seq<T>, x: T, y: T)
    requires s != [] && Before(s[1..], x, y)
    ensures Before(s, x, y)
  {
    var p, q :| 0 <= p < q < |s[1..]| && s[1..][p] == x && s[1..][q] == y;
    assert s[p + 1] == x && s[q + 1] == y;
  }

  lemma {:induction false} RemoveAbsent<T>(s: seq<T>, x: T)
    requires x !in s
    ensures Remove(s, x) == s
  {
    if s != [] {
      RemoveAbsent(s[1..], x);
    }
  }

  lemma {:induction false} RemoveIsWithout<T>(s: seq<T>, k: nat)
    requires NoDup(s) && k < |s|
    ensures Remove(s, s[k]) == Without(s, k)
  {
    if k == 0 {
      RemoveAbsent(s[1..], s[0]);
    } else {
      RemoveIsWithout(s[1..], k - 1);
      assert Without(s, k) == [s[0]] + Without(s[1..], k - 1);
    }
  }

  lemma {:induction false} RemoveMembers<T>(s: seq<T>, x: T, y: T)
    ensures y in Remove(s, x) <==> y in s && y != x
  {
    if s != [] {
      RemoveMembers(s[1..], x, y);
    }
  }

  lemma {:induction false} RemoveKeepsOrder<T>(s: seq<T>, x: T, i: nat, j: nat)
    requires i < j < |Remove(s, x)|
    ensures Before(s, Remove(s, x)[i], Remove(s, x)[j])
  {
    if s[0] == x {
      RemoveKeepsOrder(s[1..], x, i, j);
      BeforeTail(s, Remove(s, x)[i], Remove(s, x)[j]);
    } else if i > 0 {
      RemoveKeepsOrder(s[1..], x, i - 1, j - 1);
      BeforeTail(s, Remove(s, x)[i], Remove(s, x)[j]);
    } else {
      var y := Remove(s[1..], x)[j - 1];
      RemoveMembers(s[1..], x, y);
      assert y in Remove(s[1..], x);
      var q :| 0 <= q < |s[1..]| && s[1..][q] == y;
      assert s[0] == Remove(s, x)[0] && s[q + 1] == y;
    }
  }

  lemma {:induction false} ByRecencyMembers<T>(history: seq<T>, x: T)
    ensures x in ByRecency(history) <==> x in history
  {
    if history != [] {
      var init, last := history[..|history| - 1], history[|history| - 1];
      assert history == init + [last];
      ByRecencyMembers(init, x);
      RemoveMembers(ByRecency(init), last, x);
    }
  }

  /** ByRecency lists the members of the history in decreasing order of their last occurrence. */
  lemma {:induction false} ByRecencyOrdered<T>(history: seq<T>, x: T, y: T)
    requires Before(ByRecency(history), x, y)
    ensures x in history && y in history && LastIndex(history, y) < LastIndex(history, x)
  {
    var r := ByRecency(history);
    var p, q :| 0 <= p < q < |r| && r[p] == x && r[q] == y;
    ByRecencyMembers(history, x);
    ByRecencyMembers(history, y);
    var init, last := history[..|history| - 1], history[|history| - 1];
    var older := Remove(ByRecency(init), last);
    assert r == [last] + older && y == older[q - 1];
    RemoveMembers(ByRecency(init), last, y);
    if p > 0 {
      assert x == older[p - 1];
      RemoveMembers(ByRecency(init), last, x);
      RemoveKeepsOrder(ByRecency(init), last, p - 1, q - 1);
      ByRecencyOrdered(init, x, y);
    }
  }
}
