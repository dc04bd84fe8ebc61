/** `arrayUtils.unique` (src/core/utils/arrayUtils.ts) applied to the
    values of a request body. `new Set` compares strings, numbers, booleans
    and `null` by value, but arrays and objects by reference, and every
    array or object the body parser builds is a separate reference: such
    elements are never merged, however alike they look. */
module ValueSet {
  import opened JsValue
  import opened ArrayUtils

  /** A value `Set` compares by value. */
  predicate IsPrimitive(v: Json) {
    !v.JArr? && !v.JObj?
  }

  /** How many elements of `s` are arrays or objects. */
  function CompositeCount(s: seq<Json>): nat {
    if |s| == 0 then 0
    else CompositeCount(s[..|s| - 1]) + (if IsPrimitive(s[|s| - 1]) then 0 else 1)
  }

  /** No primitive value occurs twice in `r`. */
  predicate PrimitivesOnce(r: seq<Json>) {
    forall i, j :: 0 <= i < j < |r| && IsPrimitive(r[i]) ==> r[i] != r[j]
  }

  /** Whether `new Set` keeps the element at position `i`: an array or an
      object always, a primitive only where it first occurs. */
  predicate KeptAt(s: seq<Json>, i: int)
    requires 0 <= i < |s|
  {
    !IsPrimitive(s[i]) || s[i] !in s[..i]
  }

  /** The positions below `n` whose elements `new Set` keeps, in increasing
      order. */
  function KeptPositions(s: seq<Json>, n: nat): (ks: seq<nat>)
    requires n <= |s|
    ensures forall j :: 0 <= j < |ks| ==> ks[j] < n && KeptAt(s, ks[j])
    ensures forall j, l :: 0 <= j < l < |ks| ==> ks[j] < ks[l]
    ensures forall i :: 0 <= i < n && KeptAt(s, i) ==> i in ks
  {
    if n == 0 then [] else KeptPositions(s, n - 1) + (if KeptAt(s, n - 1) then [n - 1] else [])
  }

  /** `[...new Set(s)]` on body values: repeated primitives are dropped after
      their first occurrence, arrays and objects are all kept. */
  function UniqueValues(s: seq<Json>): (r: seq<Json>)
    ensures Elements(r) == Elements(s)
    ensures Within(r, s)
    ensures PrimitivesOnce(r)
    ensures CompositeCount(r) == CompositeCount(s)
    ensures |r| <= |s|
  {
    if |s| == 0 then []
    else
      var pre, last := s[..|s| - 1], s[|s| - 1];
      var p := UniqueValues(pre);
      assert pre + [last] == s;
      UniqueValuesStep(pre, last, p);
      if IsPrimitive(last) && last in p then p else p + [last]
  }

  /** `UniqueValues` is the subsequence of its input at exactly the kept
      positions: every array and object, and each primitive where it first
      occurs, in their original order. */
  lemma {:induction false} UniqueValuesOrder(s: seq<Json>)
    ensures var r, ks := UniqueValues(s), KeptPositions(s, |s|);
      |r| == |ks| && forall j :: 0 <= j < |r| ==> r[j] == s[ks[j]]
  {
    if |s| > 0 {
      var pre, last := s[..|s| - 1], s[|s| - 1];
      assert pre + [last] == s;
      UniqueValuesOrder(pre);
      UniqueValuesSnoc(pre, last);
      KeptPositionsStep(pre, last, UniqueValues(pre));
    }
  }

  /** Positions below `n` are kept alike in two sequences that agree up to `n`. */
  lemma {:induction false} KeptPositionsPrefix(s: seq<Json>, t: seq<Json>, n: nat)
    requires n <= |s| && n <= |t| && s[..n] == t[..n]
    ensures KeptPositions(s, n) == KeptPositions(t, n)
  {
    if n > 0 {
      assert s[..n - 1] == s[..n][..n - 1] == t[..n][..n - 1] == t[..n - 1];
      assert s[n - 1] == s[..n][n - 1];
      assert t[n - 1] == t[..n][n - 1];
      KeptPositionsPrefix(s, t, n - 1);
    }
  }

  /** The position half of the inductive step of `UniqueValues`: the last
      element is kept exactly when it is not a primitive already kept. */
  lemma KeptPositionsStep(pre: seq<Json>, last: Json, p: seq<Json>)
    requires Elements(p) == Elements(pre)
    requires var ks := KeptPositions(pre, |pre|);
      |p| == |ks| && forall j :: 0 <= j < |p| ==> p[j] == pre[ks[j]]
    ensures var s := pre + [last];
      var r := if IsPrimitive(last) && last in p then p else p + [last];
      var ks := KeptPositions(s, |s|);
      |r| == |ks| && forall j :: 0 <= j < |r| ==> r[j] == s[ks[j]]
  {
    var s := pre + [last];
    var kp := KeptPositions(pre, |pre|);
    KeptPositionsSnoc(pre, last);
    KeptAtLast(pre, last, p);
    forall j | 0 <= j < |p|
      ensures p[j] == s[kp[j]]
    {
      assert kp[j] < |pre|;
    }
  }

  /** The kept positions of `pre + [last]`: those of `pre`, then possibly the
      last one. */
  lemma KeptPositionsSnoc(pre: seq<Json>, last: Json)
    ensures var s := pre + [last];
      KeptPositions(s, |s|) ==
        KeptPositions(pre, |pre|) + (if KeptAt(s, |pre|) then [|pre|] else [])
  {
    var s := pre + [last];
    assert s[..|pre|] == pre == pre[..|pre|];
    KeptPositionsPrefix(s, pre, |pre|);
  }

  /** The last element is kept exactly when it is not a primitive already in
      a deduplication of what precedes it. */
  lemma KeptAtLast(pre: seq<Json>, last: Json, p: seq<Json>)
    requires Elements(p) == Elements(pre)
    ensures KeptAt(pre + [last], |pre|) <==> !(IsPrimitive(last) && last in p)
  {
    InElements(p, last);
    InElements(pre, last);
    assert (pre + [last])[..|pre|] == pre;
  }

  /** `UniqueValues` one element further: the element is dropped exactly when
      it is a primitive already kept. */
  lemma UniqueValuesSnoc(pre: seq<Json>, last: Json)
    ensures UniqueValues(pre + [last]) ==
      if IsPrimitive(last) && last in UniqueValues(pre) then UniqueValues(pre)
      else UniqueValues(pre) + [last]
  {
    assert (pre + [last])[..|pre|] == pre;
  }

  /** Appending one element adds its own share to the composite count. */
  lemma CompositeCountSnoc(a: seq<Json>, x: Json)
    ensures CompositeCount(a + [x]) == CompositeCount(a) + (if IsPrimitive(x) then 0 else 1)
  {
    assert (a + [x])[..|a|] == a;
  }

  /** The inductive step of `UniqueValues`. */
  lemma UniqueValuesStep(pre: seq<Json>, last: Json, p: seq<Json>)
    requires Elements(p) == Elements(pre) && Within(p, pre) && PrimitivesOnce(p)
    requires CompositeCount(p) == CompositeCount(pre) && |p| <= |pre|
    ensures var s := pre + [last];
      var r := if IsPrimitive(last) && last in p then p else p + [last];
      && Elements(r) == Elements(s) && Within(r, s) && PrimitivesOnce(r)
      && CompositeCount(r) == CompositeCount(s) && |r| <= |s|
  {
    var s := pre + [last];
    ElementsSnoc(pre, last);
    CompositeCountSnoc(pre, last);
    forall i | 0 <= i < |p|
      ensures p[i] in s
    {
      var k :| 0 <= k < |pre| && pre[k] == p[i];
      assert s[k] == p[i];
    }
    if IsPrimitive(last) && last in p {
      InElements(p, last);
    } else {
      var r := p + [last];
      ElementsSnoc(p, last);
      CompositeCountSnoc(p, last);
      assert r[|p|] == s[|pre|];
      forall i, j | 0 <= i < j < |r| && IsPrimitive(r[i])
        ensures r[i] != r[j]
      {
        if j < |p| {
          assert r[i] == p[i] && r[j] == p[j];
        } else {
          assert r[i] == p[i] && r[j] == last;
        }
      }
    }
  }

  /** The composite count is positive exactly when some element is an array
      or an object. */
  lemma {:induction false} CompositeCountPositive(s: seq<Json>)
    ensures CompositeCount(s) > 0 <==> exists i :: 0 <= i < |s| && !IsPrimitive(s[i])
  {
    if |s| > 0 {
      var pre := s[..|s| - 1];
      CompositeCountPositive(pre);
      if exists i :: 0 <= i < |pre| && !IsPrimitive(pre[i]) {
        var i :| 0 <= i < |pre| && !IsPrimitive(pre[i]);
        assert s[i] == pre[i];
      }
      if exists i :: 0 <= i < |s| && !IsPrimitive(s[i]) {
        var i :| 0 <= i < |s| && !IsPrimitive(s[i]);
        if i < |pre| { assert pre[i] == s[i]; }
      }
    }
  }

  /** Without arrays or objects, `new Set` is plain deduplication. */
  lemma {:induction false} UniqueValuesOfPrimitives(s: seq<Json>)
    requires forall i :: 0 <= i < |s| ==> IsPrimitive(s[i])
    ensures UniqueValues(s) == Unique(s)
  {
    if |s| > 0 {
      UniqueValuesOfPrimitives(s[..|s| - 1]);
    }
  }

  /** Values with no primitive repeated come back unchanged, in their
      order. */
  lemma {:induction false} UniqueValuesOfDistinct(s: seq<Json>)
    requires PrimitivesOnce(s)
    ensures UniqueValues(s) == s
  {
    if |s| > 0 {
      var pre, last := s[..|s| - 1], s[|s| - 1];
      assert pre + [last] == s;
      assert PrimitivesOnce(pre) by {
        forall i, j | 0 <= i < j < |pre| && IsPrimitive(pre[i])
          ensures pre[i] != pre[j]
        {
          assert s[i] == pre[i] && s[j] == pre[j];
        }
      }
      UniqueValuesOfDistinct(pre);
      UniqueValuesSnoc(pre, last);
    }
  }

  /** Two arrays alike in content both survive. */
  lemma ArraysAreNotMerged()
    ensures UniqueValues([JArr([]), JArr([])]) == [JArr([]), JArr([])]
  {
    var a := JArr([]);
    UniqueValuesSnoc([], a);
    assert [] + [a] == [a];
    UniqueValuesSnoc([a], a);
  }

  /** Two equal strings are merged. */
  lemma StringsAreMerged()
    ensures UniqueValues([JStr("P720"), JStr("P720")]) == [JStr("P720")]
  {
    var t := JStr("P720");
    UniqueValuesSnoc([], t);
    assert [] + [t] == [t];
    UniqueValuesSnoc([t], t);
  }
}
