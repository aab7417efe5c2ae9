/**
 * Python's list.sort(key=.., reverse=..) on keys made of a number and a text: a stable sort,
 * characterised up to equality so that any other sorted, order-keeping list must be the same.
 */
module StableSort {
  import opened Prelude

  /** Code-point order of strings. */
  predicate StringLess(a: string, b: string) {
    b != "" && (a == "" || a[0] < b[0] || (a[0] == b[0] && StringLess(a[1..], b[1..])))
  }

  lemma {:induction false} StringLessTotal(a: string, b: string)
    ensures StringLess(a, b) || StringLess(b, a) || a == b
  {
    if a != "" && b != "" && a[0] == b[0] {
      StringLessTotal(a[1..], b[1..]);
      assert a == [a[0]] + a[1..] && b == [b[0]] + b[1..];
    }
  }

  lemma {:induction false} StringLessAsymmetric(a: string, b: string)
    requires StringLess(a, b)
    ensures !StringLess(b, a)
  {
    if a != "" && a[0] == b[0] {
      StringLessAsymmetric(a[1..], b[1..]);
    }
  }

  lemma {:induction false} StringLessTransitive(a: string, b: string, c: string)
    requires StringLess(a, b) && StringLess(b, c)
    ensures StringLess(a, c)
  {
    if a != "" && a[0] == b[0] && b[0] == c[0] {
      StringLessTransitive(a[1..], b[1..], c[1..]);
    }
  }

  /** `a` and `b` agree on their first k characters, and `a` ends there or goes on with the smaller one. */
  predicate SmallerAt(a: string, b: string, k: nat) {
    k <= |a| && k < |b| && a[..k] == b[..k] && (k == |a| || a[k] < b[k])
  }

  lemma {:induction false} StringLessIff(a: string, b: string)
    ensures StringLess(a, b) <==> exists k: nat :: SmallerAt(a, b, k)
  {
    if b == "" {
    } else if a == "" || a[0] < b[0] {
      assert SmallerAt(a, b, 0);
    } else if a[0] == b[0] {
      StringLessIff(a[1..], b[1..]);
      if k: nat :| SmallerAt(a[1..], b[1..], k) {
        assert a[..k + 1] == [a[0]] + a[1..][..k] && b[..k + 1] == [b[0]] + b[1..][..k];
        assert SmallerAt(a, b, k + 1);
      }
      if k: nat :| SmallerAt(a, b, k) {
        assert a[1..][..k - 1] == a[..k][1..] && b[1..][..k - 1] == b[..k][1..];
        assert SmallerAt(a[1..], b[1..], k - 1);
      }
    } else {
      assert forall k: nat :: k > 0 && SmallerAt(a, b, k) ==> a[..k][0] == b[..k][0];
    }
  }

  datatype Key = Key(rank: int, name: string)

  /** `a` comes strictly before `b`, ascending or descending. */
  predicate Before(a: Key, b: Key, reverse: bool) {
    if reverse then KeyLess(b, a) else KeyLess(a, b)
  }

  predicate KeyLess(a: Key, b: Key) {
    a.rank < b.rank || (a.rank == b.rank && StringLess(a.name, b.name))
  }

  lemma BeforeOrder(a: Key, b: Key, c: Key, reverse: bool)
    ensures Before(a, b, reverse) || Before(b, a, reverse) || a == b
    ensures Before(a, b, reverse) ==> !Before(b, a, reverse)
    ensures Before(a, b, reverse) && Before(b, c, reverse) ==> Before(a, c, reverse)
  {
    StringLessTotal(a.name, b.name);
    if StringLess(a.name, b.name) {
      StringLessAsymmetric(a.name, b.name);
    }
    if StringLess(b.name, a.name) {
      StringLessAsymmetric(b.name, a.name);
    }
    if StringLess(a.name, b.name) && StringLess(b.name, c.name) {
      StringLessTransitive(a.name, b.name, c.name);
    }
    if StringLess(c.name, b.name) && StringLess(b.name, a.name) {
      StringLessTransitive(c.name, b.name, a.name);
    }
  }

  /** `x` goes in front of everything it does not have to follow. */
  function Insert<T>(x: T, s: seq<T>, key: T -> Key, reverse: bool): seq<T> {
    if s != [] && Before(key(s[0]), key(x), reverse) then [s[0]] + Insert(x, s[1..], key, reverse)
    else [x] + s
  }

  function Sort<T>(s: seq<T>, key: T -> Key, reverse: bool): seq<T> {
    if s == [] then [] else Insert(s[0], Sort(s[1..], key, reverse), key, reverse)
  }

  predicate Sorted<T>(s: seq<T>, key: T -> Key, reverse: bool) {
    forall i, j :: 0 <= i < j < |s| ==> !Before(key(s[j]), key(s[i]), reverse)
  }

  /** The elements with key `k`, in order. */
  function Class<T>(s: seq<T>, key: T -> Key, k: Key): seq<T> {
    if s == [] then [] else (if key(s[0]) == k then [s[0]] else []) + Class(s[1..], key, k)
  }

  /** The same elements, and elements with equal keys in the same order. */
  ghost predicate SameClasses<T>(a: seq<T>, b: seq<T>, key: T -> Key) {
    forall k :: Class(a, key, k) == Class(b, key, k)
  }

  lemma {:induction false} ClassAppend<T>(a: seq<T>, b: seq<T>, key: T -> Key, k: Key)
    ensures Class(a + b, key, k) == Class(a, key, k) + Class(b, key, k)
  {
    if a == [] {
      assert a + b == b;
    } else {
      assert (a + b)[1..] == a[1..] + b;
      ClassAppend(a[1..], b, key, k);
    }
  }

  lemma {:induction false} InClass<T>(s: seq<T>, key: T -> Key, k: Key, x: T)
    ensures x in Class(s, key, k) <==> x in s && key(x) == k
  {
    if s != [] {
      InClass(s[1..], key, k, x);
      assert s == [s[0]] + s[1..];
    }
  }

  // ---------------------------------------------------------------------------
  // Sort is sorted, stable and a permutation
  // ---------------------------------------------------------------------------

  lemma {:induction false} InsertElements<T>(x: T, s: seq<T>, key: T -> Key, reverse: bool)
    ensures multiset(Insert(x, s, key, reverse)) == multiset{x} + multiset(s)
  {
    if s != [] && Before(key(s[0]), key(x), reverse) {
      InsertElements(x, s[1..], key, reverse);
      assert s == [s[0]] + s[1..];
    }
  }

  lemma SortedCons<T>(x: T, s: seq<T>, key: T -> Key, reverse: bool)
    requires Sorted(s, key, reverse)
    requires forall y :: y in s ==> !Before(key(y), key(x), reverse)
    ensures Sorted([x] + s, key, reverse)
  {
    var t := [x] + s;
    forall i, j | 0 <= i < j < |t|
      ensures !Before(key(t[j]), key(t[i]), reverse)
    {
      assert t[j] == s[j - 1] && s[j - 1] in s;
      if i > 0 {
        assert t[i] == s[i - 1];
      }
    }
  }

  lemma {:induction false} InsertSorted<T>(x: T, s: seq<T>, key: T -> Key, reverse: bool)
    requires Sorted(s, key, reverse)
    ensures Sorted(Insert(x, s, key, reverse), key, reverse)
  {
    if s != [] && Before(key(s[0]), key(x), reverse) {
      var rest := Insert(x, s[1..], key, reverse);
      InsertSorted(x, s[1..], key, reverse);
      InsertElements(x, s[1..], key, reverse);
      forall y | y in rest
        ensures !Before(key(y), key(s[0]), reverse)
      {
        assert y in multiset(rest);
        BeforeOrder(key(s[0]), key(x), key(x), reverse);
        if y != x {
          assert y in s[1..];
        }
      }
      SortedCons(s[0], rest, key, reverse);
    } else if s != [] {
      forall y | y in s
        ensures !Before(key(y), key(x), reverse)
      {
        BeforeOrder(key(s[0]), key(y), key(x), reverse);
        BeforeOrder(key(y), key(x), key(s[0]), reverse);
        InTail(s, y);
      }
      SortedCons(x, s, key, reverse);
    }
  }

  lemma {:induction false} InsertClass<T>(x: T, s: seq<T>, key: T -> Key, reverse: bool, k: Key)
    ensures Class(Insert(x, s, key, reverse), key, k) == (if key(x) == k then [x] else []) + Class(s, key, k)
  {
    if s != [] && Before(key(s[0]), key(x), reverse) {
      InsertClass(x, s[1..], key, reverse, k);
      BeforeOrder(key(s[0]), key(x), key(x), reverse);
      assert ([s[0]] + Insert(x, s[1..], key, reverse))[1..] == Insert(x, s[1..], key, reverse);
    } else {
      assert ([x] + s)[1..] == s;
    }
  }

  lemma {:induction false} SortPermutes<T>(s: seq<T>, key: T -> Key, reverse: bool)
    ensures multiset(Sort(s, key, reverse)) == multiset(s)
    ensures |Sort(s, key, reverse)| == |s|
  {
    if s != [] {
      SortPermutes(s[1..], key, reverse);
      InsertElements(s[0], Sort(s[1..], key, reverse), key, reverse);
      assert s == [s[0]] + s[1..];
    }
    assert |Sort(s, key, reverse)| == |multiset(Sort(s, key, reverse))|;
  }

  lemma {:induction false} CountInsert<T>(x: T, s: seq<T>, key: T -> Key, reverse: bool, p: T -> bool)
    ensures Count(Insert(x, s, key, reverse), p) == (if p(x) then 1 else 0) + Count(s, p)
  {
    if s != [] && Before(key(s[0]), key(x), reverse) {
      CountInsert(x, s[1..], key, reverse, p);
      assert ([s[0]] + Insert(x, s[1..], key, reverse))[1..] == Insert(x, s[1..], key, reverse);
    } else {
      assert ([x] + s)[1..] == s;
    }
  }

  /** Sorting changes no count. */
  lemma {:induction false} CountSort<T>(s: seq<T>, key: T -> Key, reverse: bool, p: T -> bool)
    ensures Count(Sort(s, key, reverse), p) == Count(s, p)
  {
    if s != [] {
      CountSort(s[1..], key, reverse, p);
      CountInsert(s[0], Sort(s[1..], key, reverse), key, reverse, p);
    }
  }

  lemma {:induction false} SortSorts<T>(s: seq<T>, key: T -> Key, reverse: bool)
    ensures Sorted(Sort(s, key, reverse), key, reverse)
  {
    if s != [] {
      SortSorts(s[1..], key, reverse);
      InsertSorted(s[0], Sort(s[1..], key, reverse), key, reverse);
    }
  }

  lemma {:induction false} SortStable<T>(s: seq<T>, key: T -> Key, reverse: bool)
    ensures SameClasses(Sort(s, key, reverse), s, key)
  {
    if s != [] {
      SortStable(s[1..], key, reverse);
      forall k
        ensures Class(Sort(s, key, reverse), key, k) == Class(s, key, k)
      {
        InsertClass(s[0], Sort(s[1..], key, reverse), key, reverse, k);
      }
    }
  }

  // ---------------------------------------------------------------------------
  // ... and nothing else is
  // ---------------------------------------------------------------------------

  /** In a sorted list the first element comes no later than any other. */
  lemma HeadFirst<T>(s: seq<T>, key: T -> Key, reverse: bool, x: T)
    requires Sorted(s, key, reverse) && x in s
    ensures !Before(key(x), key(s[0]), reverse)
  {
    var j :| 0 <= j < |s| && s[j] == x;
    if j == 0 {
      BeforeOrder(key(x), key(x), key(x), reverse);
    }
  }

  lemma SameHead<T>(a: seq<T>, b: seq<T>, key: T -> Key, reverse: bool)
    requires Sorted(a, key, reverse) && Sorted(b, key, reverse) && SameClasses(a, b, key)
    requires a != []
    ensures b != [] && a[0] == b[0]
  {
    InClass(a, key, key(a[0]), a[0]);
    InClass(b, key, key(a[0]), a[0]);
    assert a[0] in Class(b, key, key(a[0]));
    InClass(b, key, key(b[0]), b[0]);
    InClass(a, key, key(b[0]), b[0]);
    HeadFirst(b, key, reverse, a[0]);
    HeadFirst(a, key, reverse, b[0]);
    BeforeOrder(key(a[0]), key(b[0]), key(a[0]), reverse);
    assert Class(a, key, key(a[0]))[0] == a[0] && Class(b, key, key(b[0]))[0] == b[0];
  }

  /** Two sorted lists with the same classes are the same list. */
  lemma {:induction false} SortedUnique<T>(a: seq<T>, b: seq<T>, key: T -> Key, reverse: bool)
    requires Sorted(a, key, reverse) && Sorted(b, key, reverse) && SameClasses(a, b, key)
    ensures a == b
  {
    if a == [] {
      if b != [] {
        SameHead(b, a, key, reverse);
      }
    } else {
      SameHead(a, b, key, reverse);
      forall k
        ensures Class(a[1..], key, k) == Class(b[1..], key, k)
      {
        assert Class(a, key, k) == Class(b, key, k);
        CancelPrefix(if key(a[0]) == k then [a[0]] else [], Class(a[1..], key, k), Class(b[1..], key, k));
      }
      SortedUnique(a[1..], b[1..], key, reverse);
      assert a == [a[0]] + a[1..] && b == [b[0]] + b[1..];
    }
  }

  /** A sorted list with the classes of `s` is the sort of `s`. */
  lemma SortIs<T>(s: seq<T>, r: seq<T>, key: T -> Key, reverse: bool)
    requires Sorted(r, key, reverse) && SameClasses(r, s, key)
    ensures r == Sort(s, key, reverse)
  {
    SortSorts(s, key, reverse);
    SortStable(s, key, reverse);
    forall k
      ensures Class(r, key, k) == Class(Sort(s, key, reverse), key, k)
    {
      assert Class(r, key, k) == Class(s, key, k);
    }
    SortedUnique(r, Sort(s, key, reverse), key, reverse);
  }

  lemma JoinSorted<T>(a: seq<T>, b: seq<T>, key: T -> Key, reverse: bool)
    requires Sorted(a, key, reverse) && Sorted(b, key, reverse)
    requires forall x, y :: x in a && y in b ==> Before(key(x), key(y), reverse)
    ensures Sorted(a + b, key, reverse)
  {
    var r := a + b;
    forall i, j | 0 <= i < j < |r|
      ensures !Before(key(r[j]), key(r[i]), reverse)
    {
      if i < |a| <= j {
        assert r[i] in a && r[j] in b;
        BeforeOrder(key(r[i]), key(r[j]), key(r[i]), reverse);
      }
    }
  }

  lemma InSort<T>(s: seq<T>, key: T -> Key, reverse: bool, x: T)
    ensures x in Sort(s, key, reverse) <==> x in s
  {
    SortPermutes(s, key, reverse);
    assert x in multiset(Sort(s, key, reverse)) <==> x in multiset(s);
  }

  lemma JoinClasses<T>(a: seq<T>, b: seq<T>, s: seq<T>, key: T -> Key, reverse: bool)
    requires forall k :: Class(s, key, k) == Class(a, key, k) + Class(b, key, k)
    ensures SameClasses(Sort(a, key, reverse) + Sort(b, key, reverse), s, key)
  {
    SortStable(a, key, reverse);
    SortStable(b, key, reverse);
    forall k
      ensures Class(Sort(a, key, reverse) + Sort(b, key, reverse), key, k) == Class(s, key, k)
    {
      ClassAppend(Sort(a, key, reverse), Sort(b, key, reverse), key, k);
    }
  }

  /** Two sorted pieces, everything in the first before everything in the second, are the sort of their union. */
  lemma SortAppend<T>(a: seq<T>, b: seq<T>, s: seq<T>, key: T -> Key, reverse: bool)
    requires forall x, y :: x in a && y in b ==> Before(key(x), key(y), reverse)
    requires forall k :: Class(s, key, k) == Class(a, key, k) + Class(b, key, k)
    ensures Sort(s, key, reverse) == Sort(a, key, reverse) + Sort(b, key, reverse)
  {
    SortSorts(a, key, reverse);
    SortSorts(b, key, reverse);
    forall x, y | x in Sort(a, key, reverse) && y in Sort(b, key, reverse)
      ensures Before(key(x), key(y), reverse)
    {
      InSort(a, key, reverse, x);
      InSort(b, key, reverse, y);
    }
    JoinSorted(Sort(a, key, reverse), Sort(b, key, reverse), key, reverse);
    JoinClasses(a, b, s, key, reverse);
    SortIs(s, Sort(a, key, reverse) + Sort(b, key, reverse), key, reverse);
  }

  // ---------------------------------------------------------------------------
  // When the order of the input does not show
  // ---------------------------------------------------------------------------

  /** What each element contributes, in order: [g(x) for x in s if p(x)]. */
  function Collect<S, T>(s: seq<S>, f: S -> Option<T>): seq<T> {
    if s == [] then []
    else (match f(s[0]) case Some(x) => [x] case None => []) + Collect(s[1..], f)
  }

  lemma {:induction false} CollectAppend<S, T>(a: seq<S>, b: seq<S>, f: S -> Option<T>)
    ensures Collect(a + b, f) == Collect(a, f) + Collect(b, f)
  {
    if a == [] {
      assert a + b == b;
    } else {
      assert (a + b)[1..] == a[1..] + b;
      CollectAppend(a[1..], b, f);
    }
  }

  /** Taking an element out takes its contribution out. */
  lemma CollectWithout<S, T>(s: seq<S>, i: nat, f: S -> Option<T>)
    requires i < |s|
    ensures multiset(Collect(s, f)) == multiset(Collect([s[i]], f)) + multiset(Collect(s[..i] + s[i + 1..], f))
  {
    var a, x, b := s[..i], s[i], s[i + 1..];
    CutAround(s, i);
    CollectMiddle(a, x, b, f);
  }

  lemma CutAround<S>(s: seq<S>, i: nat)
    requires i < |s|
    ensures s == s[..i] + ([s[i]] + s[i + 1..])
  {
  }

  lemma CollectMiddle<S, T>(a: seq<S>, x: S, b: seq<S>, f: S -> Option<T>)
    ensures multiset(Collect(a + ([x] + b), f)) == multiset(Collect([x], f)) + multiset(Collect(a + b, f))
  {
    CollectAppend(a, [x] + b, f);
    CollectAppend([x], b, f);
    CollectAppend(a, b, f);
  }

  lemma Without<S>(s: seq<S>, i: nat)
    requires i < |s|
    ensures multiset(s) == multiset{s[i]} + multiset(s[..i] + s[i + 1..])
  {
    assert s == s[..i] + ([s[i]] + s[i + 1..]);
  }

  lemma CancelOne<S>(x: S, a: multiset<S>, b: multiset<S>)
    requires multiset{x} + a == multiset{x} + b
    ensures a == b
  {
    assert a == multiset{x} + a - multiset{x};
    assert b == multiset{x} + b - multiset{x};
  }

  lemma FoundIn<S>(x: S, rest: seq<S>, t: seq<S>) returns (i: nat)
    requires multiset{x} + multiset(rest) == multiset(t)
    ensures i < |t| && t[i] == x && multiset(rest) == multiset(t[..i] + t[i + 1..])
  {
    assert x in multiset(t);
    i :| 0 <= i < |t| && t[i] == x;
    Without(t, i);
    CancelOne(x, multiset(rest), multiset(t[..i] + t[i + 1..]));
  }

  /** The same elements contribute the same, in whatever order. */
  lemma {:induction false} CollectPermutes<S, T>(s: seq<S>, t: seq<S>, f: S -> Option<T>)
    requires multiset(s) == multiset(t)
    ensures multiset(Collect(s, f)) == multiset(Collect(t, f))
    decreases |s|
  {
    if s == [] {
      assert |t| == |multiset(t)| == 0;
    } else {
      var rest := s[1..];
      assert s == [s[0]] + rest;
      var i := FoundIn(s[0], rest, t);
      CollectPermutes(rest, t[..i] + t[i + 1..], f);
      CollectAppend([s[0]], rest, f);
      CollectWithout(t, i, f);
    }
  }

  /** Elements with equal keys are equal. */
  ghost predicate Determined<T>(s: seq<T>, key: T -> Key) {
    forall x, y :: x in s && y in s && key(x) == key(y) ==> x == y
  }

  lemma {:induction false} ClassIsCopies<T>(s: seq<T>, key: T -> Key, k: Key, x: T)
    requires forall y :: y in s && key(y) == k ==> y == x
    requires key(x) == k
    ensures Class(s, key, k) == Repeat(x, multiset(s)[x])
  {
    if s != [] {
      assert s == [s[0]] + s[1..];
      ClassIsCopies(s[1..], key, k, x);
    }
  }

  lemma ClassOfDetermined<T>(s: seq<T>, t: seq<T>, key: T -> Key, k: Key)
    requires multiset(s) == multiset(t) && Determined(s, key)
    ensures Class(s, key, k) == Class(t, key, k)
  {
    assert forall y :: y in t ==> y in multiset(s);
    if x :| x in s && key(x) == k {
      ClassIsCopies(s, key, k, x);
      ClassIsCopies(t, key, k, x);
    } else {
      NoClass(s, key, k);
      NoClass(t, key, k);
    }
  }

  lemma NoClass<T>(s: seq<T>, key: T -> Key, k: Key)
    requires forall y :: y in s ==> key(y) != k
    ensures Class(s, key, k) == []
  {
    if Class(s, key, k) != [] {
      InClass(s, key, k, Class(s, key, k)[0]);
    }
  }

  lemma SortOfDetermined<T>(s: seq<T>, t: seq<T>, key: T -> Key, reverse: bool)
    requires multiset(s) == multiset(t) && Determined(s, key)
    ensures Sort(s, key, reverse) == Sort(t, key, reverse)
  {
    SortSorts(s, key, reverse);
    SortStable(s, key, reverse);
    forall k
      ensures Class(Sort(s, key, reverse), key, k) == Class(t, key, k)
    {
      ClassOfDetermined(s, t, key, k);
      assert Class(Sort(s, key, reverse), key, k) == Class(s, key, k);
    }
    SortIs(t, Sort(s, key, reverse), key, reverse);
  }

  lemma {:induction false} InCollect<S, T>(s: seq<S>, f: S -> Option<T>, x: T) returns (i: nat)
    requires x in Collect(s, f)
    ensures i < |s| && f(s[i]) == Some(x)
  {
    if f(s[0]) == Some(x) {
      i := 0;
    } else {
      var rest := InCollect(s[1..], f, x);
      i := rest + 1;
    }
  }

  /** Some order of the input puts this element first in its class. */
  lemma FirstOfClass<S, T>(s: seq<S>, f: S -> Option<T>, key: T -> Key, reverse: bool, x: T) returns (t: seq<S>)
    requires x in Collect(s, f)
    ensures multiset(t) == multiset(s)
    ensures var class_ := Class(Sort(Collect(t, f), key, reverse), key, key(x)); class_ != [] && class_[0] == x
  {
    var i := InCollect(s, f, x);
    t := [s[i]] + (s[..i] + s[i + 1..]);
    Without(s, i);
    var rest := s[..i] + s[i + 1..];
    assert t[1..] == rest;
    assert Collect(t, f) == [x] + Collect(rest, f);
    SortStable(Collect(t, f), key, reverse);
    assert ([x] + Collect(rest, f))[1..] == Collect(rest, f);
  }

  /** The sorted result shows nothing of the input's order. */
  ghost predicate OrderHidden<S(!new), T>(s: seq<S>, f: S -> Option<T>, key: T -> Key, reverse: bool) {
    forall t: seq<S> :: multiset(t) == multiset(s) ==>
      Sort(Collect(t, f), key, reverse) == Sort(Collect(s, f), key, reverse)
  }

  /** That is so iff no two different elements of the result share a key. */
  lemma OrderHiddenIff<S(!new), T>(s: seq<S>, f: S -> Option<T>, key: T -> Key, reverse: bool)
    ensures OrderHidden(s, f, key, reverse) <==> Determined(Collect(s, f), key)
  {
    if Determined(Collect(s, f), key) {
      forall t: seq<S> | multiset(t) == multiset(s)
        ensures Sort(Collect(t, f), key, reverse) == Sort(Collect(s, f), key, reverse)
      {
        CollectPermutes(s, t, f);
        SortOfDetermined(Collect(s, f), Collect(t, f), key, reverse);
      }
    }
    if OrderHidden(s, f, key, reverse) {
      forall x, y | x in Collect(s, f) && y in Collect(s, f) && key(x) == key(y)
        ensures x == y
      {
        var t := FirstOfClass(s, f, key, reverse, x);
        var u := FirstOfClass(s, f, key, reverse, y);
      }
    }
  }
}
