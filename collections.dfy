// Small facts about finite collections shared by the model.
module Collections {
  import opened Wrappers

  /** An element of a non-empty set, named so that a later `:|` has its witness. */
  lemma Pick<T>(s: set<T>) returns (x: T)
    requires s != {}
    ensures x in s
  {
    if forall y :: y !in s {
      assert false;
    }
    x :| x in s;
  }

  /** No value occurs twice. */
  predicate Distinct<T(==)>(s: seq<T>)
  {
    forall i, j :: 0 <= i < j < |s| ==> s[i] != s[j]
  }

  /** A proper subset of a finite set is smaller. */
  lemma {:induction false} SmallerSubset<T>(a: set<T>, b: set<T>, x: T)
    requires a <= b && x in b && x !in a
    ensures |a| < |b|
  {
    assert a <= b - {x};
    SubsetCard(a, b - {x});
  }

  lemma {:induction false} SubsetCard<T>(a: set<T>, b: set<T>)
    requires a <= b
    ensures |a| <= |b|
    decreases |b|
  {
    if a != {} {
      var y := Pick(a);
      SubsetCard(a - {y}, b - {y});
    }
  }

  /** Marking one more element of u leaves fewer of u unmarked. */
  lemma FewerLeft<T>(u: set<T>, marked: set<T>, marked': set<T>, x: T)
    requires marked <= marked' && x in u && x in marked' && x !in marked
    ensures |u - marked'| < |u - marked|
  {
    SmallerSubset(u - marked', u - marked, x);
  }

  /** The position of the first element satisfying p (a find-first loop with a break), if any. */
  function FirstWhere<T>(s: seq<T>, p: T -> bool): (r: Option<nat>)
    ensures r.Some? ==> r.value < |s| && p(s[r.value]) && forall j :: 0 <= j < r.value ==> !p(s[j])
    ensures r.None? ==> forall j :: 0 <= j < |s| ==> !p(s[j])
    decreases |s|
  {
    if s == [] then None
    else if p(s[0]) then Some(0)
    else
      match FirstWhere(s[1..], p)
      case None => None
      case Some(k) => Some(k + 1)
  }

  /** The position of the last element satisfying p (a loop that overwrites its answer on every match), if any. */
  function LastWhere<T>(s: seq<T>, p: T -> bool): (r: Option<nat>)
    ensures r.Some? ==> r.value < |s| && p(s[r.value]) && forall j :: r.value < j < |s| ==> !p(s[j])
    ensures r.None? ==> forall j :: 0 <= j < |s| ==> !p(s[j])
    decreases |s|
  {
    if s == [] then None
    else
      match LastWhere(s[1..], p)
      case Some(k) => Some(k + 1)
      case None => if p(s[0]) then Some(0) else None
  }

  /** Appending an element moves the last match to it exactly when it satisfies p. */
  lemma {:induction false} LastWhereSnoc<T>(s: seq<T>, x: T, p: T -> bool)
    ensures LastWhere(s + [x], p) == if p(x) then Some(|s|) else LastWhere(s, p)
    decreases |s|
  {
    if s == [] {
      assert [] + [x] == [x];
    } else {
      assert (s + [x])[1..] == s[1..] + [x];
      LastWhereSnoc(s[1..], x, p);
    }
  }
}
