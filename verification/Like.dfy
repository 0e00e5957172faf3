/** The LIKE matcher: a greedy left-to-right search that implements wildcard matching. */
module Like {
  import opened Base

  /** What a pattern means: `%` stands for any string, every other character for itself. */
  predicate Wild(s: string, pattern: string)
    decreases |pattern|
  {
    if pattern == "" then s == ""
    else if pattern[0] == '%' then exists k :: 0 <= k <= |s| && Wild(s[k..], pattern[1..])
    else s != "" && s[0] == pattern[0] && Wild(s[1..], pattern[1..])
  }

  predicate StartsWith(s: string, part: string) {
    |part| <= |s| && s[..|part|] == part
  }

  predicate EndsWith(s: string, part: string) {
    |part| <= |s| && s[|s| - |part|..] == part
  }

  /** `str::find`: the leftmost occurrence. */
  function Find(s: string, part: string): (r: Option<nat>)
    ensures r.Some? ==> r.value + |part| <= |s| && StartsWith(s[r.value..], part)
    ensures r.Some? ==> forall k :: 0 <= k < r.value ==> !StartsWith(s[k..], part)
    ensures r.None? ==> forall k :: 0 <= k <= |s| ==> !StartsWith(s[k..], part)
  {
    if StartsWith(s, part) then
      assert s[0..] == s;
      Some(0)
    else if s == "" then None
    else
      var r := Find(s[1..], part);
      assert forall k :: 1 <= k <= |s| ==> s[k..] == s[1..][k - 1..];
      assert s[0..] == s;
      if r.None? then None else Some(r.value + 1)
  }

  /** `split('%')`: the pieces between the wildcards, one more than there are wildcards. */
  function Split(pattern: string): (parts: seq<string>)
    ensures |parts| >= 1
    ensures forall i :: 0 <= i < |parts| ==> '%' !in parts[i]
    ensures Join(parts) == pattern
  {
    if pattern == "" then [""]
    else
      var rest := Split(pattern[1..]);
      if pattern[0] == '%' then
        assert ([""] + rest)[1..] == rest;
        [""] + rest
      else
        assert ([[pattern[0]] + rest[0]] + rest[1..])[1..] == rest[1..];
        [[pattern[0]] + rest[0]] + rest[1..]
  }

  /** The pattern that has these pieces. */
  function Join(parts: seq<string>): string
    requires |parts| >= 1
  {
    if |parts| == 1 then parts[0] else parts[0] + "%" + Join(parts[1..])
  }

  /** A literal piece at the front of a pattern must start the string. */
  lemma {:induction false} WildLiteral(s: string, part: string, rest: string)
    requires '%' !in part
    ensures Wild(s, part + rest) <==> StartsWith(s, part) && Wild(s[|part|..], rest)
  {
    if part == "" {
      assert part + rest == rest && s[0..] == s && s[..0] == "";
    } else {
      var p := part + rest;
      assert p[0] == part[0] && p[1..] == part[1..] + rest;
      if s != "" && s[0] == part[0] {
        WildLiteral(s[1..], part[1..], rest);
        assert part == [part[0]] + part[1..];
        assert |part| <= |s| ==> s[..|part|] == [s[0]] + s[1..][..|part| - 1];
        assert |part| <= |s| ==> s[|part|..] == s[1..][|part| - 1..];
      }
    }
  }

  lemma WildWildcard(s: string, rest: string)
    ensures Wild(s, "%" + rest) <==> exists k :: 0 <= k <= |s| && Wild(s[k..], rest)
  {
    assert ("%" + rest)[1..] == rest;
  }

  /** After a wildcard, a longer suffix matches whenever a shorter one does. */
  lemma WildcardMonotone(s: string, k: nat, rest: string)
    requires k <= |s| && Wild(s[k..], "%" + rest)
    ensures Wild(s, "%" + rest)
  {
    WildWildcard(s[k..], rest);
    WildWildcard(s, rest);
    var m :| 0 <= m <= |s[k..]| && Wild(s[k..][m..], rest);
    assert s[k..][m..] == s[k + m..];
  }

  /** The last piece only has to end what remains. */
  lemma WildLast(s: string, last: string)
    requires '%' !in last
    ensures Wild(s, "%" + last) <==> EndsWith(s, last)
  {
    WildWildcard(s, last);
    forall k | 0 <= k <= |s| ensures Wild(s[k..], last) <==> s[k..] == last {
      WildLiteral(s[k..], last, "");
      assert last + "" == last;
    }
    if EndsWith(s, last) {
      assert Wild(s[|s| - |last|..], last);
    }
  }

  /** `part` occurs at `k` and what follows it is accepted. */
  predicate TakenAt(s: string, k: nat, part: string, accepts: string -> bool) {
    k <= |s| && StartsWith(s[k..], part) && accepts(s[k + |part|..])
  }

  /** If accepting a suffix means accepting the whole, the leftmost occurrence is as good as any. */
  lemma LeftmostSuffices(s: string, k: nat, part: string, accepts: string -> bool)
    requires forall x: string, j: nat :: j <= |x| && accepts(x[j..]) ==> accepts(x)
    requires TakenAt(s, k, part, accepts)
    ensures Find(s, part).Some? && TakenAt(s, Find(s, part).value, part, accepts)
  {
    var after := s[Find(s, part).value + |part|..];
    assert s[k + |part|..] == after[k - Find(s, part).value..];
  }

  /** The strings a wildcard followed by `rest` describes. */
  function AfterWildcard(rest: string): string -> bool {
    (x: string) => Wild(x, "%" + rest)
  }

  lemma MiddleAt(s: string, k: nat, part: string, rest: string)
    requires k <= |s| && '%' !in part
    ensures Wild(s[k..], part + ("%" + rest)) <==> TakenAt(s, k, part, AfterWildcard(rest))
  {
    WildLiteral(s[k..], part, "%" + rest);
    if StartsWith(s[k..], part) {
      assert s[k..][|part|..] == s[k + |part|..];
    }
  }

  /** A middle piece may always be taken at its leftmost occurrence. */
  lemma WildMiddle(s: string, part: string, rest: string, pattern: string)
    requires '%' !in part && pattern == part + ("%" + rest)
    ensures Wild(s, "%" + pattern) <==>
            Find(s, part).Some? && TakenAt(s, Find(s, part).value, part, AfterWildcard(rest))
  {
    WildWildcard(s, pattern);
    forall k | 0 <= k <= |s| ensures Wild(s[k..], pattern) <==> TakenAt(s, k, part, AfterWildcard(rest)) {
      MiddleAt(s, k, part, rest);
    }
    forall x: string, j: nat | j <= |x| && AfterWildcard(rest)(x[j..]) ensures AfterWildcard(rest)(x) {
      WildcardMonotone(x, j, rest);
    }
    if k :| 0 <= k <= |s| && TakenAt(s, k, part, AfterWildcard(rest)) {
      LeftmostSuffices(s, k, part, AfterWildcard(rest));
    }
  }

  /** What the rest of the pattern, from piece `i` on, asks of what remains of the string. */
  predicate Remains(remaining: string, parts: seq<string>, i: nat)
    requires i < |parts|
  {
    Wild(remaining, "%" + Join(parts[i..]))
  }

  lemma FirstPiece(s: string, parts: seq<string>)
    requires |parts| > 1 && '%' !in parts[0]
    ensures Wild(s, Join(parts)) <==> StartsWith(s, parts[0]) && Remains(s[|parts[0]|..], parts, 1)
  {
    assert Join(parts) == parts[0] + ("%" + Join(parts[1..]));
    WildLiteral(s, parts[0], "%" + Join(parts[1..]));
  }

  lemma MiddlePiece(remaining: string, parts: seq<string>, i: nat)
    requires i < |parts| - 1 && '%' !in parts[i]
    ensures Remains(remaining, parts, i) <==>
            Find(remaining, parts[i]).Some?
            && Remains(remaining[Find(remaining, parts[i]).value + |parts[i]|..], parts, i + 1)
  {
    JoinFrom(parts, i);
    WildMiddle(remaining, parts[i], Join(parts[i + 1..]), Join(parts[i..]));
  }

  lemma JoinFrom(parts: seq<string>, i: nat)
    requires i < |parts| - 1
    ensures Join(parts[i..]) == parts[i] + ("%" + Join(parts[i + 1..]))
  {
    JoinCons(parts[i], parts[i + 1..]);
    assert parts[i..] == [parts[i]] + parts[i + 1..];
  }

  lemma JoinCons(first: string, rest: seq<string>)
    requires rest != []
    ensures Join([first] + rest) == first + ("%" + Join(rest))
  {
    assert ([first] + rest)[1..] == rest;
  }

  /** The greedy matcher accepts exactly the strings the pattern describes. */
  method LikeMatch(s: string, pattern: string) returns (matched: bool)
    ensures matched <==> Wild(s, pattern)
  {
    var parts := Split(pattern);
    if |parts| == 1 {
      WildLiteral(s, pattern, "");
      assert pattern + "" == pattern && Wild(s[|s|..], "");
      return s == pattern;
    }
    var remaining := s;
    var i := 0;
    while i < |parts|
      invariant 0 <= i <= |parts|
      invariant i == 0 ==> remaining == s
      invariant 0 < i < |parts| ==> (Wild(s, pattern) <==> Remains(remaining, parts, i))
      invariant i == |parts| ==> Wild(s, pattern)
    {
      var part := parts[i];
      if i == 0 {
        FirstPiece(s, parts);
        if !StartsWith(remaining, part) {
          return false;
        }
        remaining := remaining[|part|..];
      } else if i == |parts| - 1 {
        WildLast(remaining, part);
        if !EndsWith(remaining, part) {
          return false;
        }
      } else {
        MiddlePiece(remaining, parts, i);
        match Find(remaining, part) {
          case Some(pos) => remaining := remaining[pos + |part|..];
          case None => return false;
        }
      }
      i := i + 1;
    }
    return true;
  }
}
