/** Shared value types and the sequence operations the handlers are built from:
    JavaScript's `filter`, `findIndex` and `splice(i, 1)` on plain lists. */
module Common {

  datatype Option<+T> = None | Some(value: T) {
    function GetOr(default: T): T {
      match this
      case Some(v) => v
      case None => default
    }
  }

  function Min(a: int, b: int): int {
    if a <= b then a else b
  }

  /** A JavaScript string value is truthy exactly when it is present and not empty
      (`!x` holds for `undefined`, `null` and `''`). */
  predicate Truthy(s: Option<string>) {
    s.Some? && s.value != ""
  }

  /** `s.filter(f)`: the elements satisfying `f`, each as often as it occurs in `s`. */
  function Keep<T(!new)>(s: seq<T>, f: T -> bool): (r: seq<T>)
    ensures |r| <= |s|
    ensures forall x :: multiset(r)[x] == if f(x) then multiset(s)[x] else 0
    ensures forall k :: 0 <= k < |r| ==> f(r[k])
    decreases |s|
  {
    if s == [] then []
    else
      var init := Keep(s[..|s| - 1], f);
      assert s == s[..|s| - 1] + [s[|s| - 1]];
      if f(s[|s| - 1]) then init + [s[|s| - 1]] else init
  }

  /** An element is kept exactly when it occurs and satisfies the predicate. */
  lemma KeepMembers<T(!new)>(s: seq<T>, f: T -> bool)
    ensures forall x :: x in Keep(s, f) <==> x in s && f(x)
  {
    forall x
      ensures x in Keep(s, f) <==> x in s && f(x)
    {
      assert x in Keep(s, f) <==> multiset(Keep(s, f))[x] > 0;
      assert x in s <==> multiset(s)[x] > 0;
    }
  }

  /** Filtering distributes over concatenation, so the kept elements of `a` all come
      before the kept elements of `b`: `filter` keeps the relative order. */
  lemma {:induction false} KeepAppend<T(!new)>(a: seq<T>, b: seq<T>, f: T -> bool)
    ensures Keep(a + b, f) == Keep(a, f) + Keep(b, f)
    decreases |b|
  {
    if b == [] {
      assert a + b == a;
    } else {
      var b' := b[..|b| - 1];
      assert (a + b)[..|a + b| - 1] == a + b';
      KeepAppend(a, b', f);
    }
  }

  /** One more element at the end is kept or dropped on its own: the step of a loop
      that filters from left to right. */
  lemma KeepSnoc<T(!new)>(s: seq<T>, x: T, f: T -> bool)
    ensures Keep(s + [x], f) == if f(x) then Keep(s, f) + [x] else Keep(s, f)
  {
    assert (s + [x])[..|s + [x]| - 1] == s;
  }

  /** The same step on prefixes of one list: the kept part of the first `i + 1`
      elements, and how many there are. */
  lemma KeepPrefixStep<T(!new)>(s: seq<T>, i: nat, f: T -> bool)
    requires i < |s|
    ensures Keep(s[..i + 1], f) == if f(s[i]) then Keep(s[..i], f) + [s[i]] else Keep(s[..i], f)
    ensures |Keep(s[..i + 1], f)| == |Keep(s[..i], f)| + if f(s[i]) then 1 else 0
  {
    assert s[..i + 1] == s[..i] + [s[i]];
    KeepSnoc(s[..i], s[i], f);
  }

  /** How many elements satisfy `f`: the value of a counter a loop bumps on each hit. */
  function CountWhere<T>(s: seq<T>, f: T -> bool): nat
    decreases |s|
  {
    if s == [] then 0 else CountWhere(s[..|s| - 1], f) + if f(s[|s| - 1]) then 1 else 0
  }

  /** The counter equals the length of the filtered list. */
  lemma {:induction false} CountWhereIsKeep<T(!new)>(s: seq<T>, f: T -> bool)
    ensures CountWhere(s, f) == |Keep(s, f)|
    decreases |s|
  {
    if s != [] {
      CountWhereIsKeep(s[..|s| - 1], f);
    }
  }

  /** Keeping nothing gives the empty list. */
  lemma {:induction false} KeepNone<T(!new)>(s: seq<T>, f: T -> bool)
    requires forall k :: 0 <= k < |s| ==> !f(s[k])
    ensures Keep(s, f) == []
    decreases |s|
  {
    if s != [] {
      var init := s[..|s| - 1];
      assert forall k :: 0 <= k < |init| ==> init[k] == s[k];
      KeepNone(init, f);
    }
  }

  /** `s.findIndex(f)`, with `None` for JavaScript's `-1`: the FIRST index satisfying `f`. */
  function FirstIndex<T>(s: seq<T>, f: T -> bool): (r: Option<nat>)
    ensures r.None? <==> forall k :: 0 <= k < |s| ==> !f(s[k])
    ensures r.Some? ==> r.value < |s| && f(s[r.value])
    ensures r.Some? ==> forall k :: 0 <= k < r.value ==> !f(s[k])
    decreases |s|
  {
    if s == [] then None
    else if f(s[0]) then Some(0)
    else
      match FirstIndex(s[1..], f)
      case None => None
      case Some(i) => Some(i + 1)
  }

  /** `s.splice(i, 1)`: the list without its element at `i`, the others in their order. */
  function RemoveAt<T>(s: seq<T>, i: nat): (r: seq<T>)
    requires i < |s|
    ensures |r| == |s| - 1
    ensures forall k :: 0 <= k < i ==> r[k] == s[k]
    ensures forall k :: i <= k < |r| ==> r[k] == s[k + 1]
    ensures multiset(r) + multiset{s[i]} == multiset(s)
  {
    assert s == s[..i] + [s[i]] + s[i + 1..];
    s[..i] + s[i + 1..]
  }
}
