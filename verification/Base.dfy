/** Small shared datatypes and the sequence operations the ledger is written with. */
module Base {

  datatype Option<+T> = None | Some(value: T)

  /** Carries a value or an error; usable with `:-`. */
  datatype Result<+T, +E> = Ok(value: T) | Err(error: E) {
    predicate IsFailure() { Err? }

    function PropagateFailure<U>(): Result<U, E>
      requires Err?
    {
      Err(error)
    }

    function Extract(): T
      requires Ok?
    {
      value
    }
  }

  datatype Ordering = Less | Equal | Greater {
    function Reverse(): Ordering {
      match this
      case Less => Greater
      case Equal => Equal
      case Greater => Less
    }
  }

  type u16 = n: nat | n < 0x1_0000
  type u64 = n: nat | n < 0x1_0000_0000_0000_0000
  type i64 = n: int | -0x8000_0000_0000_0000 <= n < 0x8000_0000_0000_0000

  function CompareInt(a: int, b: int): Ordering {
    if a < b then Less else if a == b then Equal else Greater
  }

  function Max(a: nat, b: nat): nat {
    if a < b then b else a
  }
}

/** Filtering, mapping and paging of sequences, with the algebra the proofs use. */
module Lists {
  import opened Base

  function Filter<T>(p: T -> bool, xs: seq<T>): (r: seq<T>)
    ensures |r| <= |xs|
    ensures forall x | x in r :: x in xs && p(x)
    ensures forall x | x in xs && p(x) :: x in r
  {
    if xs == [] then []
    else if p(xs[0]) then [xs[0]] + Filter(p, xs[1..])
    else Filter(p, xs[1..])
  }

  function Map<T, U>(f: T -> U, xs: seq<T>): (r: seq<U>)
    ensures |r| == |xs|
    ensures forall i :: 0 <= i < |xs| ==> r[i] == f(xs[i])
  {
    if xs == [] then [] else [f(xs[0])] + Map(f, xs[1..])
  }

  /** An element moved from the front of a list to the end of the one before it. */
  lemma Moved<T>(xs: seq<T>, x: T, ys: seq<T>)
    ensures (xs + [x]) + ys == xs + ([x] + ys)
  {
  }

  function Reverse<T>(xs: seq<T>): (r: seq<T>)
    ensures |r| == |xs|
    ensures forall i {:trigger r[i]} :: 0 <= i < |xs| ==> r[i] == xs[|xs| - 1 - i]
  {
    if xs == [] then [] else Reverse(xs[1..]) + [xs[0]]
  }

  /** `skip(offset).take(limit)` with absent values meaning 0 and no bound. */
  function Page<T>(xs: seq<T>, offset: Option<nat>, limit: Option<nat>): seq<T> {
    var skip := if offset.Some? then offset.value else 0;
    var rest := if skip <= |xs| then xs[skip..] else [];
    if limit.Some? && limit.value <= |rest| then rest[..limit.value] else rest
  }

  /** The page's row `i` is row `offset + i`, and it ends where the limit or the rows do. */
  predicate IsPage<T(==)>(xs: seq<T>, offset: Option<nat>, limit: Option<nat>, page: seq<T>) {
    var skip := if offset.Some? then offset.value else 0;
    && (forall i :: 0 <= i < |page| ==> skip + i < |xs| && page[i] == xs[skip + i])
    && |page| == (if |xs| <= skip then 0
                  else if limit.Some? && limit.value <= |xs| - skip then limit.value
                  else |xs| - skip)
  }

  lemma PageRows<T>(xs: seq<T>, offset: Option<nat>, limit: Option<nat>)
    ensures IsPage(xs, offset, limit, Page(xs, offset, limit))
  {
  }

  lemma {:induction false} FilterConcat<T>(p: T -> bool, xs: seq<T>, ys: seq<T>)
    ensures Filter(p, xs + ys) == Filter(p, xs) + Filter(p, ys)
  {
    if xs == [] {
      assert xs + ys == ys;
    } else {
      assert (xs + ys)[1..] == xs[1..] + ys;
      FilterConcat(p, xs[1..], ys);
    }
  }

  lemma FilterSnoc<T>(p: T -> bool, xs: seq<T>, y: T)
    ensures Filter(p, xs + [y]) == if p(y) then Filter(p, xs) + [y] else Filter(p, xs)
  {
    FilterConcat(p, xs, [y]);
    assert [y][1..] == [];
  }

  /** The elements among the first `i` that pass, gathered one after another. */
  function FilterTo<T>(p: T -> bool, xs: seq<T>, i: nat): seq<T>
    requires i <= |xs|
  {
    if i == 0 then []
    else if p(xs[i - 1]) then FilterTo(p, xs, i - 1) + [xs[i - 1]]
    else FilterTo(p, xs, i - 1)
  }

  lemma {:induction false} FilterToIs<T>(p: T -> bool, xs: seq<T>, i: nat)
    requires i <= |xs|
    ensures FilterTo(p, xs, i) == Filter(p, xs[..i])
  {
    if i > 0 {
      FilterToIs(p, xs, i - 1);
      assert xs[..i] == xs[..i - 1] + [xs[i - 1]];
      FilterSnoc(p, xs[..i - 1], xs[i - 1]);
    }
  }

  lemma {:induction false} FilterFilter<T>(p: T -> bool, q: T -> bool, both: T -> bool, xs: seq<T>)
    requires forall x :: x in xs ==> (both(x) <==> q(x) && p(x))
    ensures Filter(p, Filter(q, xs)) == Filter(both, xs)
  {
    if xs != [] {
      FilterFilter(p, q, both, xs[1..]);
      if q(xs[0]) {
        assert Filter(q, xs)[1..] == Filter(q, xs[1..]);
      }
    }
  }

  lemma FiltersCommute<T>(p: T -> bool, q: T -> bool, xs: seq<T>)
    ensures Filter(p, Filter(q, xs)) == Filter(q, Filter(p, xs))
  {
    var both := (x: T) => p(x) && q(x);
    FilterFilter(p, q, both, xs);
    FilterFilter(q, p, both, xs);
  }

  lemma {:induction false} FilterSame<T>(p: T -> bool, q: T -> bool, xs: seq<T>)
    requires forall x :: x in xs ==> p(x) == q(x)
    ensures Filter(p, xs) == Filter(q, xs)
  {
    if xs != [] {
      FilterSame(p, q, xs[1..]);
    }
  }

  lemma {:induction false} FilterAll<T>(p: T -> bool, xs: seq<T>)
    requires forall x :: x in xs ==> p(x)
    ensures Filter(p, xs) == xs
  {
    if xs != [] {
      FilterAll(p, xs[1..]);
    }
  }

  /** A front that is kept whole. */
  lemma FilterKeepsFront<T>(p: T -> bool, xs: seq<T>, n: nat)
    requires n <= |xs| && forall j :: 0 <= j < n ==> p(xs[j])
    ensures Filter(p, xs) == xs[..n] + Filter(p, xs[n..])
  {
    assert xs == xs[..n] + xs[n..];
    FilterConcat(p, xs[..n], xs[n..]);
    FilterAll(p, xs[..n]);
  }

  lemma {:induction false} FilterNone<T>(p: T -> bool, xs: seq<T>)
    requires forall x :: x in xs ==> !p(x)
    ensures Filter(p, xs) == []
  {
    if xs != [] {
      FilterNone(p, xs[1..]);
    }
  }

  lemma {:induction false} MapConcat<T, U>(f: T -> U, xs: seq<T>, ys: seq<T>)
    ensures Map(f, xs + ys) == Map(f, xs) + Map(f, ys)
  {
  }

  lemma MapSnoc<T, U>(f: T -> U, xs: seq<T>, y: T)
    ensures Map(f, xs + [y]) == Map(f, xs) + [f(y)]
  {
    MapConcat(f, xs, [y]);
  }
}
