/** What the difference of two branches contains. */
module Diff {
  import opened Base
  import opened Lists
  import opened StableSort
  import opened Ledger
  import opened Store
  import opened Merge
  import opened Strings

  ghost predicate IsDiffOf(fl: Floats, s: State, namespace: string, source: string, target: string,
                           entries: seq<DiffEntry>)
  {
    IsDiff(fl, BranchIndex(s, namespace, source), BranchIndex(s, namespace, target), entries)
  }

  /** There is only one difference. */
  lemma DiffIsUnique(fl: Floats, src: map<Key, Fact>, tgt: map<Key, Fact>, a: seq<DiffEntry>, b: seq<DiffEntry>)
    requires IsDiff(fl, src, tgt, a) && IsDiff(fl, src, tgt, b)
    ensures a == b
  {
    forall e ensures e in a <==> e in b {
      assert e in a <==> DiffAt(fl, src, tgt, EntryKey(e)) == Some(e);
      assert e in b <==> DiffAt(fl, src, tgt, EntryKey(e)) == Some(e);
    }
    StrictlySortedUnique(KeyLeq, a, b);
  }

  /** Keys ascend by entity and then by attribute, so no key appears twice. */
  lemma KeysAscend(entries: seq<DiffEntry>, i: nat, j: nat)
    requires StrictlySorted(KeyLeq, entries) && i < j < |entries|
    ensures var a, b := entries[i], entries[j];
            Before(a.entity, b.entity) || (a.entity == b.entity && Before(a.attr, b.attr))
  {
    StrictlyAt(KeyLeq, entries, i, j);
    CompareStrIs(entries[i].entity, entries[j].entity);
    CompareStrReverse(entries[i].entity, entries[j].entity);
    CompareStrIs(entries[i].attr, entries[j].attr);
    CompareStrReverse(entries[i].attr, entries[j].attr);
  }

  /** Both are missing, or they are the same in every field, floats being compared as floats. */
  predicate AreEqual(fl: Floats, a: Option<Fact>, b: Option<Fact>) {
    if a.None? || b.None? then a.None? && b.None?
    else
      var x, y := a.value, b.value;
      && x.id == y.id && x.namespace == y.namespace && x.branch == y.branch && x.entity == y.entity
      && x.attr == y.attr && x.validFrom == y.validFrom && x.validTo == y.validTo && x.txId == y.txId
      && x.txTime == y.txTime && x.author == y.author && x.retracted == y.retracted && x.causedBy == y.causedBy
      && (if x.value.Float? && y.value.Float? then fl.eq(x.value.text, y.value.text) else x.value == y.value)
  }

  /** The entries are the keys whose oldest live facts on the two branches differ, with those facts. */
  lemma DiffMeaning(fl: Floats, s: State, namespace: string, source: string, target: string,
                    entries: seq<DiffEntry>, e: DiffEntry)
    requires IsDiffOf(fl, s, namespace, source, target, entries)
    ensures e in entries <==>
            && e.source == Oldest(LiveOf(s, namespace, source, (e.entity, e.attr)))
            && e.target == Oldest(LiveOf(s, namespace, target, (e.entity, e.attr)))
            && !AreEqual(fl, e.source, e.target)
  {
    IndexOldest(s, namespace, source, EntryKey(e));
    IndexOldest(s, namespace, target, EntryKey(e));
    SameIsEqual(fl, e.source, e.target);
  }

  lemma SameIsEqual(fl: Floats, a: Option<Fact>, b: Option<Fact>)
    ensures SameFact(fl, a, b) <==> AreEqual(fl, a, b)
  {
  }

  /** A branch differs from itself exactly where an indexed fact is not equal to itself, as NaN is not. */
  lemma DiffWithItself(fl: Floats, idx: map<Key, Fact>, entries: seq<DiffEntry>)
    requires IsDiff(fl, idx, idx, entries)
    ensures entries == [] <==>
            forall k | k in idx :: idx[k].value.Float? ==> fl.eq(idx[k].value.text, idx[k].value.text)
  {
    if entries != [] {
      assert entries[0] in entries;
    }
    forall k | k in idx && !FactEq(fl, idx[k], idx[k]) ensures entries != [] {
      var e := DiffEntry(k.0, k.1, Some(idx[k]), Some(idx[k]));
      assert EntryKey(e) == k;
      assert e in entries;
    }
  }

  /** Two different branches differ at every key live on either: no fact is equal to a fact of another branch. */
  lemma DiffOfBranches(fl: Floats, s: State, namespace: string, source: string, target: string,
                       entries: seq<DiffEntry>, k: Key)
    requires IsDiffOf(fl, s, namespace, source, target, entries) && source != target
    ensures (exists e :: e in entries && EntryKey(e) == k) <==>
            LiveOf(s, namespace, source, k) != [] || LiveOf(s, namespace, target, k) != []
  {
    var a, b := LiveOf(s, namespace, source, k), LiveOf(s, namespace, target, k);
    OldestIs(a);
    OldestIs(b);
    var e := DiffEntry(k.0, k.1, Oldest(a), Oldest(b));
    assert EntryKey(e) == k;
    DiffMeaning(fl, s, namespace, source, target, entries, e);
    if a != [] && b != [] {
      assert IsOldest(a, e.source.value) && IsOldest(b, e.target.value);
      assert e.source.value in a && e.target.value in b;
      assert e.source.value.branch == source && e.target.value.branch == target;
    }
    if x :| x in entries && EntryKey(x) == k {
      DiffMeaning(fl, s, namespace, source, target, entries, x);
    }
  }

  function Swapped(e: DiffEntry): DiffEntry {
    DiffEntry(e.entity, e.attr, e.target, e.source)
  }

  /** Exchanging the branches exchanges the sides of every entry. */
  lemma DiffSwapped(fl: Floats, src: map<Key, Fact>, tgt: map<Key, Fact>, entries: seq<DiffEntry>)
    requires IsDiff(fl, src, tgt, entries) && forall a, b :: fl.eq(a, b) == fl.eq(b, a)
    ensures IsDiff(fl, tgt, src, Map(Swapped, entries))
  {
    var swapped := Map(Swapped, entries);
    SwappedSorted(entries);
    forall e ensures e in swapped <==> DiffAt(fl, tgt, src, EntryKey(e)) == Some(e) {
      assert Swapped(Swapped(e)) == e && EntryKey(Swapped(e)) == EntryKey(e);
      assert Swapped(e) in entries <==> DiffAt(fl, src, tgt, EntryKey(e)) == Some(Swapped(e));
      if e in swapped {
        var i :| 0 <= i < |swapped| && swapped[i] == e;
        assert entries[i] in entries;
      }
      if Swapped(e) in entries {
        var i :| 0 <= i < |entries| && entries[i] == Swapped(e);
        assert swapped[i] == e;
      }
    }
  }

  lemma {:induction false} SwappedSorted(entries: seq<DiffEntry>)
    requires StrictlySorted(KeyLeq, entries)
    ensures StrictlySorted(KeyLeq, Map(Swapped, entries))
  {
    if entries != [] {
      var rest := Map(Swapped, entries[1..]);
      SwappedSorted(entries[1..]);
      assert Map(Swapped, entries)[1..] == rest;
      forall x | x in rest ensures KeyLeq(Swapped(entries[0]), x) && !KeyLeq(x, Swapped(entries[0])) {
        var i :| 0 <= i < |rest| && rest[i] == x;
        assert entries[1..][i] in entries[1..];
      }
    }
  }
}
