/**
 * The standard library's stable sort, `sort_by`, as a function, and what stability means:
 * it is the only sequence that is sorted and keeps every class of equal elements in input order.
 */
module StableSort {
  import opened Lists

  ghost predicate TotalPreorder<T(!new)>(leq: (T, T) -> bool) {
    && (forall x, y :: leq(x, y) || leq(y, x))
    && (forall x, y, z :: leq(x, y) && leq(y, z) ==> leq(x, z))
  }

  ghost predicate Sorted<T(!new)>(leq: (T, T) -> bool, xs: seq<T>) {
    xs == [] || ((forall x :: x in xs[1..] ==> leq(xs[0], x)) && Sorted(leq, xs[1..]))
  }

  function Insert<T>(leq: (T, T) -> bool, x: T, ys: seq<T>): (r: seq<T>)
    ensures multiset(r) == multiset(ys) + multiset{x}
    ensures |r| == |ys| + 1
    ensures forall z | z in r :: z == x || z in ys
    ensures x in r && forall z | z in ys :: z in r
  {
    if ys == [] then [x]
    else if leq(x, ys[0]) then [x] + ys
    else
      assert ys == [ys[0]] + ys[1..];
      [ys[0]] + Insert(leq, x, ys[1..])
  }

  function Sort<T>(leq: (T, T) -> bool, xs: seq<T>): (r: seq<T>)
    ensures multiset(r) == multiset(xs)
    ensures |r| == |xs|
    ensures forall z | z in r :: z in xs
    ensures forall z | z in xs :: z in r
  {
    if xs == [] then []
    else
      assert xs == [xs[0]] + xs[1..];
      Insert(leq, xs[0], Sort(leq, xs[1..]))
  }

  /** The elements equal to `k` under the order. */
  function ClassOf<T>(leq: (T, T) -> bool, k: T): T -> bool {
    (x: T) => leq(k, x) && leq(x, k)
  }

  /** `ys` is sorted and holds every class of equal elements in the order `xs` has them. */
  ghost predicate StablySorts<T(!new)>(leq: (T, T) -> bool, xs: seq<T>, ys: seq<T>) {
    && Sorted(leq, ys)
    && (forall k :: Filter(ClassOf(leq, k), ys) == Filter(ClassOf(leq, k), xs))
  }

  lemma {:induction false} InsertSorted<T(!new)>(leq: (T, T) -> bool, x: T, ys: seq<T>)
    requires TotalPreorder(leq) && Sorted(leq, ys)
    ensures Sorted(leq, Insert(leq, x, ys))
  {
    if ys != [] && !leq(x, ys[0]) {
      InsertSorted(leq, x, ys[1..]);
      var r := Insert(leq, x, ys);
      assert r[1..] == Insert(leq, x, ys[1..]);
    } else if ys != [] {
      assert ([x] + ys)[1..] == ys;
      forall z | z in ys ensures leq(x, z) {
        if z != ys[0] {
          assert z in ys[1..];
        }
      }
    }
  }

  lemma {:induction false} SortSorted<T(!new)>(leq: (T, T) -> bool, xs: seq<T>)
    requires TotalPreorder(leq)
    ensures Sorted(leq, Sort(leq, xs))
  {
    if xs != [] {
      SortSorted(leq, xs[1..]);
      InsertSorted(leq, xs[0], Sort(leq, xs[1..]));
    }
  }

  lemma {:induction false} InsertAtFront<T(!new)>(leq: (T, T) -> bool, x: T, ys: seq<T>)
    requires forall y :: y in ys ==> leq(x, y)
    ensures Insert(leq, x, ys) == [x] + ys
  {
  }

  /** Sorting something already sorted changes nothing. */
  lemma {:induction false} SortOfSorted<T(!new)>(leq: (T, T) -> bool, xs: seq<T>)
    requires Sorted(leq, xs)
    ensures Sort(leq, xs) == xs
  {
    if xs != [] {
      SortOfSorted(leq, xs[1..]);
      HeadInserted(leq, xs[0], xs[1..], xs);
    }
  }

  lemma HeadInserted<T(!new)>(leq: (T, T) -> bool, x: T, rest: seq<T>, xs: seq<T>)
    requires xs == [x] + rest && forall y :: y in rest ==> leq(x, y)
    ensures Insert(leq, x, rest) == xs
  {
    InsertAtFront(leq, x, rest);
  }

  lemma {:induction false} SortedSuffix<T(!new)>(leq: (T, T) -> bool, xs: seq<T>, n: nat)
    requires Sorted(leq, xs) && n <= |xs|
    ensures Sorted(leq, xs[n..])
  {
    if n > 0 {
      SortedSuffix(leq, xs[1..], n - 1);
      assert xs[1..][n - 1..] == xs[n..];
    }
  }

  lemma {:induction false} SortedPrefix<T(!new)>(leq: (T, T) -> bool, xs: seq<T>, n: nat)
    requires Sorted(leq, xs) && n <= |xs|
    ensures Sorted(leq, xs[..n])
  {
    if n > 0 {
      SortedPrefix(leq, xs[1..], n - 1);
      assert xs[..n][1..] == xs[1..][..n - 1];
    }
  }

  lemma {:induction false} SortedAt<T(!new)>(leq: (T, T) -> bool, xs: seq<T>, i: nat, j: nat)
    requires Sorted(leq, xs) && i < j < |xs|
    ensures leq(xs[i], xs[j])
  {
    if i == 0 {
      assert xs[j] == xs[1..][j - 1] && xs[j] in xs[1..];
    } else {
      SortedAt(leq, xs[1..], i - 1, j - 1);
    }
  }

  lemma FilterStep<T>(p: T -> bool, xs: seq<T>)
    requires xs != []
    ensures p(xs[0]) ==> Filter(p, xs) == [xs[0]] + Filter(p, xs[1..])
    ensures p(xs[0]) ==> Filter(p, xs)[1..] == Filter(p, xs[1..])
    ensures !p(xs[0]) ==> Filter(p, xs) == Filter(p, xs[1..])
  {
  }

  lemma InsertStep<T>(leq: (T, T) -> bool, x: T, ys: seq<T>)
    requires ys != [] && !leq(x, ys[0])
    ensures Insert(leq, x, ys) == [ys[0]] + Insert(leq, x, ys[1..])
  {
  }

  lemma {:induction false} FilterInsert<T(!new)>(leq: (T, T) -> bool, p: T -> bool, x: T, ys: seq<T>)
    requires TotalPreorder(leq) && Sorted(leq, ys)
    ensures Filter(p, Insert(leq, x, ys)) == if p(x) then Insert(leq, x, Filter(p, ys)) else Filter(p, ys)
  {
    var r := Insert(leq, x, ys);
    if ys == [] {
    } else if leq(x, ys[0]) {
      assert r[1..] == ys;
      forall z | z in Filter(p, ys) ensures leq(x, z) {
        if z != ys[0] {
          assert z in ys[1..];
        }
      }
      InsertAtFront(leq, x, Filter(p, ys));
    } else {
      assert r[0] == ys[0] && r[1..] == Insert(leq, x, ys[1..]);
      FilterInsert(leq, p, x, ys[1..]);
      FilterStep(p, r);
      FilterStep(p, ys);
      if p(ys[0]) && p(x) {
        InsertStep(leq, x, Filter(p, ys));
      }
    }
  }

  /** Filtering commutes with a stable sort. */
  lemma {:induction false} FilterSort<T(!new)>(leq: (T, T) -> bool, p: T -> bool, xs: seq<T>)
    requires TotalPreorder(leq)
    ensures Filter(p, Sort(leq, xs)) == Sort(leq, Filter(p, xs))
  {
    if xs != [] {
      SortSorted(leq, xs[1..]);
      FilterInsert(leq, p, xs[0], Sort(leq, xs[1..]));
      FilterSort(leq, p, xs[1..]);
    }
  }

  lemma {:induction false} AllEqualSorted<T(!new)>(leq: (T, T) -> bool, xs: seq<T>)
    requires forall x, y :: x in xs && y in xs ==> leq(x, y)
    ensures Sorted(leq, xs)
  {
    if xs != [] {
      AllEqualSorted(leq, xs[1..]);
    }
  }

  /** A sort that agrees with a finer order leaves each class of that finer order in place. */
  lemma {:induction false} SortKeepsClass<T(!new)>(leq: (T, T) -> bool, p: T -> bool, xs: seq<T>)
    requires TotalPreorder(leq)
    requires forall x, y :: p(x) && p(y) ==> leq(x, y)
    ensures Filter(p, Sort(leq, xs)) == Filter(p, xs)
  {
    FilterSort(leq, p, xs);
    AllEqualSorted(leq, Filter(p, xs));
    SortOfSorted(leq, Filter(p, xs));
  }

  lemma {:induction false} SortIsStable<T(!new)>(leq: (T, T) -> bool, xs: seq<T>)
    requires TotalPreorder(leq)
    ensures StablySorts(leq, xs, Sort(leq, xs))
  {
    SortSorted(leq, xs);
    forall k ensures Filter(ClassOf(leq, k), Sort(leq, xs)) == Filter(ClassOf(leq, k), xs) {
      SortKeepsClass(leq, ClassOf(leq, k), xs);
    }
  }

  lemma {:induction false} SameClassesSameSeq<T(!new)>(leq: (T, T) -> bool, ys: seq<T>, zs: seq<T>)
    requires TotalPreorder(leq) && Sorted(leq, ys) && Sorted(leq, zs)
    requires forall k :: Filter(ClassOf(leq, k), ys) == Filter(ClassOf(leq, k), zs)
    ensures ys == zs
  {
    if zs != [] {
      assert zs[0] in Filter(ClassOf(leq, zs[0]), zs);
    }
    if ys != [] {
      assert ys[0] in Filter(ClassOf(leq, ys[0]), ys);
      assert ys[0] in Filter(ClassOf(leq, ys[0]), zs);
      assert zs[0] in Filter(ClassOf(leq, zs[0]), zs);
      assert zs[0] in Filter(ClassOf(leq, zs[0]), ys);
      assert leq(zs[0], ys[0]) by { if zs[0] != ys[0] { assert ys[0] in zs[1..]; } }
      assert leq(ys[0], zs[0]) by { if zs[0] != ys[0] { assert zs[0] in ys[1..]; } }
      assert Filter(ClassOf(leq, ys[0]), ys)[0] == ys[0];
      assert Filter(ClassOf(leq, ys[0]), zs)[0] == zs[0];
      forall k ensures Filter(ClassOf(leq, k), ys[1..]) == Filter(ClassOf(leq, k), zs[1..]) {
        var p := ClassOf(leq, k);
        assert Filter(p, ys) == Filter(p, zs);
        FilterStep(p, ys);
        FilterStep(p, zs);
      }
      SameClassesSameSeq(leq, ys[1..], zs[1..]);
    }
  }

  /** There is exactly one stably sorted arrangement, so any stable algorithm computes `Sort`. */
  lemma {:induction false} StableSortUnique<T(!new)>(leq: (T, T) -> bool, xs: seq<T>, ys: seq<T>)
    requires TotalPreorder(leq)
    ensures StablySorts(leq, xs, ys) <==> ys == Sort(leq, xs)
  {
    SortIsStable(leq, xs);
    if StablySorts(leq, xs, ys) {
      forall k ensures Filter(ClassOf(leq, k), ys) == Filter(ClassOf(leq, k), Sort(leq, xs)) {
        assert Filter(ClassOf(leq, k), ys) == Filter(ClassOf(leq, k), xs);
        assert Filter(ClassOf(leq, k), Sort(leq, xs)) == Filter(ClassOf(leq, k), xs);
      }
      SameClassesSameSeq(leq, ys, Sort(leq, xs));
    }
  }

  /** First by `major`, ties by `minor`. */
  function Lex<T>(major: (T, T) -> bool, minor: (T, T) -> bool): (T, T) -> bool {
    (x: T, y: T) => major(x, y) && (major(y, x) ==> minor(x, y))
  }

  lemma LexPreorder<T(!new)>(major: (T, T) -> bool, minor: (T, T) -> bool)
    requires TotalPreorder(major) && TotalPreorder(minor)
    ensures TotalPreorder(Lex(major, minor))
  {
    var l := Lex(major, minor);
    assert forall x, y :: l(x, y) || l(y, x);
    forall x, y, z | l(x, y) && l(y, z) ensures l(x, z) {
      assert major(x, z);
    }
  }

  lemma {:induction false} InsertLexSorted<T(!new)>(major: (T, T) -> bool, minor: (T, T) -> bool, x: T, ys: seq<T>)
    requires TotalPreorder(major) && TotalPreorder(minor)
    requires Sorted(Lex(major, minor), ys) && forall y :: y in ys ==> minor(x, y)
    ensures Sorted(Lex(major, minor), Insert(major, x, ys))
  {
    var r := Insert(major, x, ys);
    if ys == [] {
    } else if major(x, ys[0]) {
      assert r[1..] == ys;
      forall z | z in ys ensures major(x, z) {
        if z != ys[0] {
          assert z in ys[1..];
        }
      }
    } else {
      assert r[1..] == Insert(major, x, ys[1..]);
      InsertLexSorted(major, minor, x, ys[1..]);
    }
  }

  lemma {:induction false} SortLexSorted<T(!new)>(major: (T, T) -> bool, minor: (T, T) -> bool, xs: seq<T>)
    requires TotalPreorder(major) && TotalPreorder(minor) && Sorted(minor, xs)
    ensures Sorted(Lex(major, minor), Sort(major, xs))
  {
    if xs != [] {
      SortLexSorted(major, minor, xs[1..]);
      InsertLexSorted(major, minor, xs[0], Sort(major, xs[1..]));
    }
  }

  /** Sorting by the minor key and then by the major key is one lexicographic sort. */
  lemma {:induction false} SortTwice<T(!new)>(major: (T, T) -> bool, minor: (T, T) -> bool, xs: seq<T>)
    requires TotalPreorder(major) && TotalPreorder(minor)
    ensures Sort(major, Sort(minor, xs)) == Sort(Lex(major, minor), xs)
  {
    var l := Lex(major, minor);
    var once := Sort(minor, xs);
    LexPreorder(major, minor);
    SortSorted(minor, xs);
    SortLexSorted(major, minor, once);
    forall k ensures Filter(ClassOf(l, k), Sort(major, once)) == Filter(ClassOf(l, k), xs) {
      SortKeepsClass(major, ClassOf(l, k), once);
      SortKeepsClass(minor, ClassOf(l, k), xs);
    }
    StableSortUnique(l, xs, Sort(major, once));
  }

  lemma {:induction false} SortByEquivalent<T(!new)>(leq: (T, T) -> bool, other: (T, T) -> bool, xs: seq<T>)
    requires forall x, y :: x in xs && y in xs ==> leq(x, y) == other(x, y)
    ensures Sort(leq, xs) == Sort(other, xs)
  {
    if xs != [] {
      SortByEquivalent(leq, other, xs[1..]);
      InsertByEquivalent(leq, other, xs[0], Sort(leq, xs[1..]));
    }
  }

  lemma {:induction false} InsertByEquivalent<T(!new)>(leq: (T, T) -> bool, other: (T, T) -> bool, x: T, ys: seq<T>)
    requires forall y :: y in ys ==> leq(x, y) == other(x, y)
    ensures Insert(leq, x, ys) == Insert(other, x, ys)
  {
    if ys != [] {
      InsertByEquivalent(leq, other, x, ys[1..]);
    }
  }

  /** The head of a stable sort is the earliest of the least elements. */
  lemma {:induction false} SortHead<T(!new)>(leq: (T, T) -> bool, xs: seq<T>) returns (i: nat)
    requires TotalPreorder(leq) && xs != []
    ensures i < |xs| && Sort(leq, xs)[0] == xs[i]
    ensures forall j :: 0 <= j < |xs| ==> leq(xs[i], xs[j])
    ensures forall j :: 0 <= j < i ==> !leq(xs[j], xs[i])
  {
    i := 0;
    if |xs| > 1 {
      var k := SortHead(leq, xs[1..]);
      i := if leq(xs[0], xs[1..][k]) then 0 else k + 1;
      forall j | 0 <= j < |xs| ensures leq(xs[i], xs[j]) {
        if j > 0 {
          assert xs[j] == xs[1..][j - 1];
        }
      }
      forall j | 0 <= j < i ensures !leq(xs[j], xs[i]) {
        if j > 0 {
          assert xs[j] == xs[1..][j - 1];
        }
      }
    } else {
      assert xs[1..] == [];
    }
  }

  lemma InsertSecond<T(!new)>(leq: (T, T) -> bool, first: T, x: T, rest: seq<T>)
    requires !leq(x, first) && forall y | y in rest :: leq(x, y)
    ensures Insert(leq, x, [first] + rest) == [first] + ([x] + rest)
  {
    assert ([first] + rest)[1..] == rest;
    InsertStep(leq, x, [first] + rest);
    InsertAtFront(leq, x, rest);
  }

  /** A last element that comes before equal others moves to the front, and they stay as they are. */
  lemma {:induction false} MovesToFront<T(!new)>(leq: (T, T) -> bool, xs: seq<T>, last: T)
    requires forall x, y | x in xs && y in xs :: leq(x, y)
    requires forall x | x in xs :: leq(last, x) && !leq(x, last)
    ensures Sort(leq, xs + [last]) == [last] + xs
  {
    if xs == [] {
      assert xs + [last] == [last];
    } else {
      assert (xs + [last])[1..] == xs[1..] + [last];
      assert xs == [xs[0]] + xs[1..];
      MovesToFront(leq, xs[1..], last);
      InsertSecond(leq, last, xs[0], xs[1..]);
    }
  }

  /** Sorted, and no two elements equal under the order. */
  ghost predicate StrictlySorted<T(!new)>(leq: (T, T) -> bool, xs: seq<T>) {
    xs == [] || ((forall x :: x in xs[1..] ==> leq(xs[0], x) && !leq(x, xs[0])) && StrictlySorted(leq, xs[1..]))
  }

  lemma {:induction false} StrictlyAt<T(!new)>(leq: (T, T) -> bool, xs: seq<T>, i: nat, j: nat)
    requires StrictlySorted(leq, xs) && i < j < |xs|
    ensures leq(xs[i], xs[j]) && !leq(xs[j], xs[i])
  {
    if i == 0 {
      assert xs[j] == xs[1..][j - 1] && xs[j] in xs[1..];
    } else {
      StrictlyAt(leq, xs[1..], i - 1, j - 1);
    }
  }

  /** No two elements are equal under the order. */
  ghost predicate NoneEqual<T(!new)>(leq: (T, T) -> bool, xs: seq<T>) {
    xs == [] || ((forall x :: x in xs[1..] ==> !leq(xs[0], x) || !leq(x, xs[0])) && NoneEqual(leq, xs[1..]))
  }

  lemma {:induction false} InsertStrict<T(!new)>(leq: (T, T) -> bool, x: T, ys: seq<T>)
    requires TotalPreorder(leq) && StrictlySorted(leq, ys)
    requires forall y :: y in ys ==> !leq(x, y) || !leq(y, x)
    ensures StrictlySorted(leq, Insert(leq, x, ys))
  {
    var r := Insert(leq, x, ys);
    if ys == [] {
    } else if leq(x, ys[0]) {
      assert r[1..] == ys;
      forall z | z in ys ensures leq(x, z) && !leq(z, x) {
        if z != ys[0] { assert z in ys[1..]; }
      }
    } else {
      assert r[1..] == Insert(leq, x, ys[1..]);
      InsertStrict(leq, x, ys[1..]);
    }
  }

  lemma {:induction false} SortStrict<T(!new)>(leq: (T, T) -> bool, xs: seq<T>)
    requires TotalPreorder(leq) && NoneEqual(leq, xs)
    ensures StrictlySorted(leq, Sort(leq, xs))
  {
    if xs != [] {
      SortStrict(leq, xs[1..]);
      InsertStrict(leq, xs[0], Sort(leq, xs[1..]));
    }
  }

  lemma {:induction false} NoneEqualSnoc<T(!new)>(leq: (T, T) -> bool, xs: seq<T>, y: T)
    requires NoneEqual(leq, xs) && forall x :: x in xs ==> !leq(x, y) || !leq(y, x)
    ensures NoneEqual(leq, xs + [y])
  {
    if xs == [] {
      assert xs + [y] == [y];
    } else {
      NoneEqualSnoc(leq, xs[1..], y);
      assert (xs + [y])[1..] == xs[1..] + [y];
    }
  }

  /** The least element of a strictly sorted sequence is its head. */
  lemma StrictHead<T(!new)>(leq: (T, T) -> bool, xs: seq<T>, least: T)
    requires StrictlySorted(leq, xs) && least in xs && forall x :: x in xs ==> x == least || leq(least, x)
    ensures xs[0] == least
  {
    var head, rest := xs[0], xs[1..];
    assert xs == [head] + rest;
    if least in rest && head != least {
      assert false;
    }
  }

  /** A strictly sorted sequence is determined by its members. */
  lemma {:induction false} StrictlySortedUnique<T(!new)>(leq: (T, T) -> bool, xs: seq<T>, ys: seq<T>)
    requires StrictlySorted(leq, xs) && StrictlySorted(leq, ys)
    requires forall z :: z in xs <==> z in ys
    ensures xs == ys
  {
    assert ys != [] ==> ys[0] in ys;
    if xs != [] {
      assert xs[0] in xs;
      forall y | y in ys ensures y == xs[0] || leq(xs[0], y) {
        assert y in xs;
      }
      StrictHead(leq, ys, xs[0]);
      TailMembers(leq, xs);
      TailMembers(leq, ys);
      StrictlySortedUnique(leq, xs[1..], ys[1..]);
    }
  }

  lemma TailMembers<T(!new)>(leq: (T, T) -> bool, xs: seq<T>)
    requires StrictlySorted(leq, xs) && xs != []
    ensures forall z :: z in xs[1..] <==> z in xs && z != xs[0]
  {
  }
}
