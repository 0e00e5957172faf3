/** `str::cmp`: code points compared left to right, a proper prefix first. */
module Strings {
  import opened Base

  function CompareStr(a: string, b: string): Ordering {
    if a == "" then if b == "" then Equal else Less
    else if b == "" || a[0] > b[0] then Greater
    else if a[0] < b[0] then Less
    else CompareStr(a[1..], b[1..])
  }

  predicate StrLeq(a: string, b: string) {
    CompareStr(a, b) != Greater
  }

  lemma {:induction false} CompareStrEqual(a: string, b: string)
    ensures CompareStr(a, b) == Equal <==> a == b
  {
    if a != "" && b != "" && a[0] == b[0] {
      CompareStrEqual(a[1..], b[1..]);
      assert a == [a[0]] + a[1..] && b == [b[0]] + b[1..];
    }
  }

  /** `a` is a proper prefix of `b`, or has the smaller character where they first differ. */
  ghost predicate Before(a: string, b: string) {
    exists n: nat :: DifferFirstAt(a, b, n) && (n == |a| < |b| || (n < |a| && n < |b| && a[n] < b[n]))
  }

  ghost predicate DifferFirstAt(a: string, b: string, n: nat) {
    n <= |a| && n <= |b| && forall i :: 0 <= i < n ==> a[i] == b[i]
  }

  lemma BeforeExcludes(a: string, b: string)
    requires Before(a, b)
    ensures a != b && !Before(b, a)
  {
    var n: nat :| DifferFirstAt(a, b, n) && (n == |a| < |b| || (n < |a| && n < |b| && a[n] < b[n]));
    forall m: nat | DifferFirstAt(b, a, m) ensures !(m == |b| < |a| || (m < |a| && m < |b| && b[m] < a[m])) {
    }
  }

  lemma BeforeCons(a: string, b: string)
    requires a != "" && b != "" && a[0] == b[0] && Before(a[1..], b[1..])
    ensures Before(a, b)
  {
    var s, t := a[1..], b[1..];
    var n: nat :| DifferFirstAt(s, t, n) && (n == |s| < |t| || (n < |s| && n < |t| && s[n] < t[n]));
    forall i | 0 <= i < n + 1 ensures a[i] == b[i] {
      assert i > 0 ==> s[i - 1] == a[i] && t[i - 1] == b[i];
    }
    assert DifferFirstAt(a, b, n + 1);
  }

  lemma {:induction false} ComparedBefore(a: string, b: string)
    ensures CompareStr(a, b) == Less ==> Before(a, b)
    ensures CompareStr(a, b) == Greater ==> Before(b, a)
  {
    if a == "" || b == "" || a[0] != b[0] {
      assert DifferFirstAt(a, b, 0) && DifferFirstAt(b, a, 0);
    } else {
      ComparedBefore(a[1..], b[1..]);
      if CompareStr(a, b) == Less {
        BeforeCons(a, b);
      } else if CompareStr(a, b) == Greater {
        BeforeCons(b, a);
      }
    }
  }

  /** Strings are ordered by the first character that differs, a proper prefix before what it starts. */
  lemma CompareStrIs(a: string, b: string)
    ensures CompareStr(a, b) == Less <==> Before(a, b)
    ensures CompareStr(a, b) == Greater <==> Before(b, a)
    ensures CompareStr(a, b) == Equal <==> a == b
  {
    ComparedBefore(a, b);
    CompareStrEqual(a, b);
    if Before(a, b) {
      BeforeExcludes(a, b);
    } else if Before(b, a) {
      BeforeExcludes(b, a);
    }
  }

  lemma {:induction false} CompareStrReverse(a: string, b: string)
    ensures CompareStr(b, a) == CompareStr(a, b).Reverse()
  {
    if a != "" && b != "" && a[0] == b[0] {
      CompareStrReverse(a[1..], b[1..]);
    }
  }

  lemma {:induction false} StrLeqTransitive(a: string, b: string, c: string)
    requires StrLeq(a, b) && StrLeq(b, c)
    ensures StrLeq(a, c)
    ensures CompareStr(a, b) == Less || CompareStr(b, c) == Less ==> CompareStr(a, c) == Less
  {
    if a != "" && b != "" && c != "" && a[0] == b[0] == c[0] {
      StrLeqTransitive(a[1..], b[1..], c[1..]);
    }
  }

  lemma {:induction false} CompareStrLast(a: string, b: string, c: char, d: char)
    requires |a| == |b|
    ensures CompareStr(a + [c], b + [d]) ==
            if CompareStr(a, b) != Equal then CompareStr(a, b)
            else CompareInt(c as int, d as int)
  {
    if a == "" {
      assert a + [c] == [c] && b + [d] == [d];
      assert ([c])[1..] == "" && ([d])[1..] == "";
    } else {
      assert (a + [c])[1..] == a[1..] + [c] && (b + [d])[1..] == b[1..] + [d];
      CompareStrLast(a[1..], b[1..], c, d);
    }
  }
}
