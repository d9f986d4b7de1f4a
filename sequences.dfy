/** Two searches over a sequence that the scraper performs again and again:
    the early-return loop "first element satisfying P" and the overwrite-on-match
    loop whose outcome is "last element satisfying P". */
module Sequences {
  import opened Wrappers

  /** `s[i]` is the first element of `s` satisfying `p`. */
  predicate FirstAt<T>(s: seq<T>, p: T -> bool, i: int) {
    0 <= i < |s| && p(s[i]) && forall j :: 0 <= j < i ==> !p(s[j])
  }

  /** Index of the first element satisfying `p`, or `|s|` when there is none. */
  function FirstIndex<T>(s: seq<T>, p: T -> bool): (k: nat)
    ensures k <= |s|
    ensures k < |s| ==> p(s[k])
    ensures forall j :: 0 <= j < k ==> !p(s[j])
    decreases |s|
  {
    if s == [] then 0
    else if p(s[0]) then 0
    else 1 + FirstIndex(s[1..], p)
  }

  /** The last element satisfying `p`, if any. */
  function LastWhere<T>(s: seq<T>, p: T -> bool): Option<T>
    decreases |s|
  {
    if s == [] then None
    else if p(s[|s| - 1]) then Some(s[|s| - 1])
    else LastWhere(s[..|s| - 1], p)
  }

  /** `LastWhere` finds nothing exactly when nothing qualifies, and otherwise
      an element that qualifies with nothing after it that does. */
  lemma {:induction false} LastWhereIsLast<T>(s: seq<T>, p: T -> bool)
    ensures LastWhere(s, p).None? <==> forall i :: 0 <= i < |s| ==> !p(s[i])
    ensures LastWhere(s, p).Some? ==>
      exists i :: 0 <= i < |s| && s[i] == LastWhere(s, p).value && p(s[i]) &&
        forall j :: i < j < |s| ==> !p(s[j])
    decreases |s|
  {
    if s != [] && !p(s[|s| - 1]) {
      var init := s[..|s| - 1];
      LastWhereIsLast(init, p);
      if LastWhere(init, p).Some? {
        var i :| 0 <= i < |init| && init[i] == LastWhere(init, p).value && p(init[i]) &&
          forall j :: i < j < |init| ==> !p(init[j]);
        assert s[i] == init[i];
      }
    } else if s != [] {
      assert p(s[|s| - 1]);
    }
  }

  /** An element that qualifies with nothing after it that does is what
      `LastWhere` returns. */
  lemma {:induction false} LastWhereAt<T>(s: seq<T>, p: T -> bool, i: int)
    requires 0 <= i < |s| && p(s[i])
    requires forall j :: i < j < |s| ==> !p(s[j])
    ensures LastWhere(s, p) == Some(s[i])
    decreases |s|
  {
    if i < |s| - 1 {
      var init := s[..|s| - 1];
      assert init[i] == s[i];
      LastWhereAt(init, p, i);
    }
  }

  /** Appending one element: it wins if it qualifies, otherwise nothing changes. */
  lemma LastWhereSnoc<T>(s: seq<T>, x: T, p: T -> bool)
    ensures LastWhere(s + [x], p) == if p(x) then Some(x) else LastWhere(s, p)
  {
    assert (s + [x])[..|s|] == s;
  }

  /** An element that does not qualify can be inserted anywhere without
      changing which element is the last qualifying one. */
  lemma {:induction false} LastWhereIgnoresInsert<T>(a: seq<T>, x: T, b: seq<T>, p: T -> bool)
    requires !p(x)
    ensures LastWhere(a + [x] + b, p) == LastWhere(a + b, p)
    decreases |b|
  {
    if b == [] {
      assert a + [x] + b == a + [x];
      assert a + b == a;
      LastWhereSnoc(a, x, p);
    } else {
      var b' := b[..|b| - 1];
      var y := b[|b| - 1];
      assert b == b' + [y];
      assert a + [x] + b == (a + [x] + b') + [y];
      assert a + b == (a + b') + [y];
      LastWhereSnoc(a + [x] + b', y, p);
      LastWhereSnoc(a + b', y, p);
      LastWhereIgnoresInsert(a, x, b', p);
    }
  }

  /** The elements satisfying `p`, in their original order. */
  function Filter<T>(s: seq<T>, p: T -> bool): (r: seq<T>)
    ensures |r| <= |s|
    ensures forall k :: 0 <= k < |r| ==> p(r[k])
    decreases |s|
  {
    if s == [] then []
    else Filter(s[..|s| - 1], p) + (if p(s[|s| - 1]) then [s[|s| - 1]] else [])
  }

  /** How many elements satisfy `p`. */
  function CountWhere<T>(s: seq<T>, p: T -> bool): nat
    decreases |s|
  {
    if s == [] then 0
    else CountWhere(s[..|s| - 1], p) + (if p(s[|s| - 1]) then 1 else 0)
  }

  lemma FilterSnoc<T>(s: seq<T>, x: T, p: T -> bool)
    ensures Filter(s + [x], p) == Filter(s, p) + (if p(x) then [x] else [])
  {
    assert (s + [x])[..|s|] == s;
  }

  /** The filter keeps one element per qualifying element. */
  lemma {:induction false} FilterLength<T>(s: seq<T>, p: T -> bool)
    ensures |Filter(s, p)| == CountWhere(s, p)
    decreases |s|
  {
    if s != [] {
      FilterLength(s[..|s| - 1], p);
    }
  }

  /** Order is kept and nothing is lost: a qualifying element preceded by `t`
      qualifying elements is element `t` of the filter. */
  lemma {:induction false} FilterAtRank<T>(s: seq<T>, p: T -> bool, i: int)
    requires 0 <= i < |s| && p(s[i])
    ensures CountWhere(s[..i], p) < |Filter(s, p)|
    ensures Filter(s, p)[CountWhere(s[..i], p)] == s[i]
    decreases |s|
  {
    var init := s[..|s| - 1];
    if i == |s| - 1 {
      assert s[..i] == init;
      FilterLength(init, p);
    } else {
      assert init[..i] == s[..i];
      assert init[i] == s[i];
      FilterAtRank(init, p, i);
    }
  }
}
