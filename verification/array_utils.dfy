/** `arrayUtils.unique` (src/core/utils/arrayUtils.ts): order-preserving
    deduplication, written in the original as `[...new Set(array)]`. */
module ArrayUtils {

  /** No element occurs twice in `s`. */
  predicate NoDuplicates<T(==)>(s: seq<T>) {
    forall i, j :: 0 <= i < j < |s| ==> s[i] != s[j]
  }

  /** Position of the first occurrence of `x` in `s`. */
  function FirstIndex<T(==)>(s: seq<T>, x: T): (i: nat)
    requires x in s
    ensures i < |s| && s[i] == x
    ensures forall j :: 0 <= j < i ==> s[j] != x
  {
    if s[0] == x then 0 else 1 + FirstIndex(s[1..], x)
  }

  /** Dropping the last element does not move the first occurrence of an
      element that is still present. */
  lemma FirstIndexInPrefix<T>(s: seq<T>, x: T)
    requires |s| > 0 && x in s[..|s| - 1]
    ensures FirstIndex(s, x) == FirstIndex(s[..|s| - 1], x)
  {
    var p := s[..|s| - 1];
    var b := FirstIndex(p, x);
    assert s[b] == x;
    assert forall j :: 0 <= j < b ==> s[j] == p[j];
  }

  /** The set of elements of `s`. */
  function Elements<T>(s: seq<T>): set<T> {
    set i | 0 <= i < |s| :: s[i]
  }

  /** Membership in `Elements(s)` is membership in `s`. */
  lemma InElements<T>(s: seq<T>, x: T)
    ensures x in Elements(s) <==> x in s
  {
    if x in s {
      var i :| 0 <= i < |s| && s[i] == x;
    }
  }

  /** A non-empty sequence is its prefix followed by its last element. */
  lemma SplitLast<T>(s: seq<T>)
    requires |s| > 0
    ensures s[..|s| - 1] + [s[|s| - 1]] == s
  {
  }

  /** Appending one element adds exactly that element to the element set. */
  lemma ElementsSnoc<T>(a: seq<T>, x: T)
    ensures Elements(a + [x]) == Elements(a) + {x}
  {
    var b := a + [x];
    forall y | y in Elements(b)
      ensures y in Elements(a) + {x}
    {
      var i :| 0 <= i < |b| && b[i] == y;
      if i < |a| { assert a[i] == y; }
    }
    forall y | y in Elements(a) + {x}
      ensures y in Elements(b)
    {
      if y != x {
        var i :| 0 <= i < |a| && a[i] == y;
        assert b[i] == y;
      } else {
        assert b[|a|] == y;
      }
    }
  }

  /** The element set of a non-empty sequence is its head plus the element
      set of its tail. */
  lemma ElementsCons<T>(s: seq<T>)
    requires |s| > 0
    ensures Elements(s) == {s[0]} + Elements(s[1..])
  {
    assert [s[0]] + s[1..] == s;
    forall y | y in Elements(s)
      ensures y in {s[0]} + Elements(s[1..])
    {
      var i :| 0 <= i < |s| && s[i] == y;
      if i > 0 { assert s[1..][i - 1] == y; }
    }
    forall y | y in Elements(s[1..])
      ensures y in Elements(s)
    {
      var i :| 0 <= i < |s[1..]| && s[1..][i] == y;
      assert s[i + 1] == y;
    }
  }

  /** Every element of `r` occurs in `s`. */
  predicate Within<T(==)>(r: seq<T>, s: seq<T>) {
    forall i :: 0 <= i < |r| ==> r[i] in s
  }

  /** The elements of `r` appear in the order of their first occurrence in `s`. */
  predicate InFirstOccurrenceOrder<T(==)>(r: seq<T>, s: seq<T>)
    requires Within(r, s)
  {
    forall i, j :: 0 <= i < j < |r| ==> FirstIndex(s, r[i]) < FirstIndex(s, r[j])
  }

  /** The distinct elements of `s`, each at the place it first occurs: the
      result has no duplicates, holds exactly the elements of `s`, and lists
      them in order of first occurrence in `s`. */
  function Unique<T(==)>(s: seq<T>): (r: seq<T>)
    ensures NoDuplicates(r)
    ensures Elements(r) == Elements(s)
    ensures Within(r, s)
    ensures InFirstOccurrenceOrder(r, s)
    ensures |r| <= |s|
    ensures |s| > 0 ==> |r| > 0
  {
    if |s| == 0 then []
    else
      var p := Unique(s[..|s| - 1]);
      var pre, last := s[..|s| - 1], s[|s| - 1];
      assert pre + [last] == s;
      UniqueStep(pre, last, p);
      if last in p then p else p + [last]
  }

  /** The inductive step of `Unique`: from the deduplication `p` of `pre`,
      keeping `p` or appending `last` gives the deduplication of `pre + [last]`. */
  lemma UniqueStep<T>(pre: seq<T>, last: T, p: seq<T>)
    requires NoDuplicates(p) && Elements(p) == Elements(pre) && |p| <= |pre|
    requires Within(p, pre) && InFirstOccurrenceOrder(p, pre)
    ensures var s := pre + [last];
      var r := if last in p then p else p + [last];
      && NoDuplicates(r) && Elements(r) == Elements(s) && Within(r, s)
      && InFirstOccurrenceOrder(r, s) && |r| <= |s| && |r| > 0
  {
    var s := pre + [last];
    assert s[..|s| - 1] == pre;
    forall i | 0 <= i < |p|
      ensures FirstIndex(s, p[i]) == FirstIndex(pre, p[i]) < |pre|
    {
      FirstIndexInPrefix(s, p[i]);
    }
    InElements(p, last);
    InElements(pre, last);
    ElementsSnoc(pre, last);
    if last in p {
      UniqueStepKeep(pre, last, p);
    } else {
      UniqueStepAppend(pre, last, p);
    }
  }

  /** `UniqueStep` when `last` was already seen. */
  lemma UniqueStepKeep<T>(pre: seq<T>, last: T, p: seq<T>)
    requires Elements(p) == Elements(pre) && |p| <= |pre| && last in p
    requires Within(p, pre)
    requires Elements(pre + [last]) == Elements(pre) + {last}
    ensures Elements(p) == Elements(pre + [last]) && Within(p, pre + [last]) && |p| > 0
  {
  }

  /** `UniqueStep` when `last` is new: it goes to the end, after every earlier first occurrence. */
  lemma UniqueStepAppend<T>(pre: seq<T>, last: T, p: seq<T>)
    requires NoDuplicates(p) && Elements(p) == Elements(pre) && |p| <= |pre|
    requires Within(p, pre) && last !in p && last !in pre
    requires Elements(pre + [last]) == Elements(pre) + {last}
    requires forall i :: 0 <= i < |p| ==> FirstIndex(pre + [last], p[i]) < |pre|
    requires InFirstOccurrenceOrder(p, pre)
    requires forall i :: 0 <= i < |p| ==> FirstIndex(pre + [last], p[i]) == FirstIndex(pre, p[i])
    ensures var s, r := pre + [last], p + [last];
      && NoDuplicates(r) && Elements(r) == Elements(s) && Within(r, s)
      && InFirstOccurrenceOrder(r, s)
  {
    var s, r := pre + [last], p + [last];
    ElementsSnoc(p, last);
    AppendKeepsDistinct(p, last);
    assert Within(r, s) by {
      forall i | 0 <= i < |r|
        ensures r[i] in s
      {
        if i < |p| { assert r[i] == p[i]; } else { assert r[i] == s[|pre|]; }
      }
    }
    AppendKeepsOrder(pre, last, p);
  }

  /** Appending an element not yet present keeps a sequence duplicate-free. */
  lemma AppendKeepsDistinct<T>(p: seq<T>, last: T)
    requires NoDuplicates(p) && last !in p
    ensures NoDuplicates(p + [last])
  {
    var r := p + [last];
    forall i, j | 0 <= i < j < |r|
      ensures r[i] != r[j]
    {
      assert r[i] == p[i];
      if j < |p| { assert r[j] == p[j]; }
    }
  }

  /** Appending a new element to both sides keeps the first-occurrence order. */
  lemma AppendKeepsOrder<T>(pre: seq<T>, last: T, p: seq<T>)
    requires Within(p, pre) && Within(p + [last], pre + [last]) && last !in pre
    requires InFirstOccurrenceOrder(p, pre)
    requires forall i :: 0 <= i < |p| ==> FirstIndex(pre + [last], p[i]) == FirstIndex(pre, p[i])
    ensures InFirstOccurrenceOrder(p + [last], pre + [last])
  {
    var s, r := pre + [last], p + [last];
    assert FirstIndex(s, last) == |pre|;
    forall i, j | 0 <= i < j < |r|
      ensures FirstIndex(s, r[i]) < FirstIndex(s, r[j])
    {
      assert r[i] == p[i];
      if j < |p| {
        assert r[j] == p[j];
        assert FirstIndex(pre, p[i]) < FirstIndex(pre, p[j]);
      } else {
        assert r[j] == last;
        assert FirstIndex(pre, p[i]) < |pre|;
      }
    }
  }

  /** A duplicate-free sequence is its own deduplication. */
  lemma {:induction false} UniqueOfDistinct<T>(s: seq<T>)
    requires NoDuplicates(s)
    ensures Unique(s) == s
  {
    if |s| > 0 {
      var pre, last := s[..|s| - 1], s[|s| - 1];
      assert pre + [last] == s;
      assert NoDuplicates(pre);
      UniqueOfDistinct(pre);
      assert last !in pre by {
        assert forall k :: 0 <= k < |pre| ==> pre[k] == s[k] && s[k] != last;
      }
    }
  }

  /** Deduplicating twice is deduplicating once. */
  lemma UniqueIdempotent<T>(s: seq<T>)
    ensures Unique(Unique(s)) == Unique(s)
  {
    UniqueOfDistinct(Unique(s));
  }

  /** A repeated element collapses to one: `unique([x, x]) == [x]`. */
  lemma UniqueOfRepeat<T>(x: T)
    ensures Unique([x, x]) == [x]
  {
    assert [x, x][..1] == [x];
    assert [x][..0] == [];
  }

  /** The way the original computes it: walk the array, adding each element
      to a set the first time it is seen, then list the set in insertion order. */
  method UniqueBySet<T(==)>(s: seq<T>) returns (r: seq<T>)
    ensures r == Unique(s)
  {
    var seen: set<T> := {};
    r := [];
    var i := 0;
    while i < |s|
      invariant 0 <= i <= |s|
      invariant r == Unique(s[..i])
      invariant seen == set k | 0 <= k < |r| :: r[k]
    {
      assert s[..i + 1][..i] == s[..i];
      if s[i] !in seen {
        seen := seen + {s[i]};
        r := r + [s[i]];
      }
      i := i + 1;
    }
    assert s[..i] == s;
  }
}
