/**
 * The order `listEntriesLocal` returns: `entries.sort((a, b) => b.updatedAt - a.updatedAt)`.
 * `Array.prototype.sort` is stable, so the result is the stable sort by
 * `updatedAt`, newest first: entries with equal timestamps keep the order
 * they had in the file. SortDesc is that sort as a function; SortInPlace is
 * the in-place sort of an array, proved to compute it.
 */
module EntryOrder {
  import opened Types
  import opened EntryList

  /** Newest first: `updatedAt` never increases along the sequence. */
  predicate SortedDesc(s: seq<JournalEntry>) {
    forall i, j :: 0 <= i < j < |s| ==> s[i].updatedAt >= s[j].updatedAt
  }

  /** The entries of `s` last touched at time `k`, in their order in `s`. */
  function WithTime(s: seq<JournalEntry>, k: Millis): seq<JournalEntry> {
    Filter(s, (e: JournalEntry) => e.updatedAt == k)
  }

  /** Inserts `x` after the longest prefix of entries at least as recent as `x`. */
  function InsertDesc(t: seq<JournalEntry>, x: JournalEntry): seq<JournalEntry> {
    if t == [] then [x]
    else if t[0].updatedAt < x.updatedAt then [x] + t
    else [t[0]] + InsertDesc(t[1..], x)
  }

  /** The stable sort of `s` by `updatedAt`, newest first. */
  function SortDesc(s: seq<JournalEntry>): seq<JournalEntry> {
    if s == [] then []
    else InsertDesc(SortDesc(s[..|s| - 1]), s[|s| - 1])
  }

  /** Inserting adds exactly `x`. */
  lemma {:induction false} InsertDescMultiset(t: seq<JournalEntry>, x: JournalEntry)
    ensures multiset(InsertDesc(t, x)) == multiset(t) + multiset{x}
  {
    if t == [] {
      assert InsertDesc(t, x) == [x];
    } else if t[0].updatedAt < x.updatedAt {
      assert InsertDesc(t, x) == [x] + t;
    } else {
      var t1 := t[1..];
      InsertDescMultiset(t1, x);
      assert InsertDesc(t, x) == [t[0]] + InsertDesc(t1, x);
      assert t == [t[0]] + t1;
      ConsMultiset(t[0], InsertDesc(t1, x), t1, x);
    }
  }

  /** Putting the same element in front of two sequences keeps one of them the other plus `x`. */
  lemma ConsMultiset(h: JournalEntry, u: seq<JournalEntry>, v: seq<JournalEntry>, x: JournalEntry)
    requires multiset(u) == multiset(v) + multiset{x}
    ensures multiset([h] + u) == multiset([h] + v) + multiset{x}
  {
  }

  /** Inserting into a sorted sequence keeps it sorted. */
  lemma {:induction false} InsertDescSorted(t: seq<JournalEntry>, x: JournalEntry)
    requires SortedDesc(t)
    ensures SortedDesc(InsertDesc(t, x))
  {
    if t == [] {
      assert InsertDesc(t, x) == [x];
    } else if t[0].updatedAt < x.updatedAt {
      assert InsertDesc(t, x) == [x] + t;
      forall e | e in t ensures e.updatedAt <= x.updatedAt {
        SortedHeadIsNewest(t, e);
      }
      ConsSorted(x, t);
    } else {
      var t1 := t[1..];
      assert SortedDesc(t1) by {
        forall i, j | 0 <= i < j < |t1| ensures t1[i].updatedAt >= t1[j].updatedAt {
          assert t1[i] == t[i + 1] && t1[j] == t[j + 1];
        }
      }
      var rest := InsertDesc(t1, x);
      InsertDescSorted(t1, x);
      InsertDescMultiset(t1, x);
      forall e | e in rest ensures e.updatedAt <= t[0].updatedAt {
        assert e in multiset(rest);
        if e != x {
          assert e in t;
          SortedHeadIsNewest(t, e);
        }
      }
      assert InsertDesc(t, x) == [t[0]] + rest;
      ConsSorted(t[0], rest);
    }
  }

  /** An entry at least as recent as every entry of a sorted sequence can go in front of it. */
  lemma ConsSorted(h: JournalEntry, r: seq<JournalEntry>)
    requires SortedDesc(r)
    requires forall e :: e in r ==> e.updatedAt <= h.updatedAt
    ensures SortedDesc([h] + r)
  {
    var u := [h] + r;
    forall i, j | 0 <= i < j < |u| ensures u[i].updatedAt >= u[j].updatedAt {
      assert u[j] == r[j - 1];
      if i > 0 {
        assert u[i] == r[i - 1];
      }
    }
  }

  /** The sort is a permutation of its input. */
  lemma {:induction false} SortDescPermutation(s: seq<JournalEntry>)
    ensures multiset(SortDesc(s)) == multiset(s)
  {
    if s != [] {
      SortDescPermutation(s[..|s| - 1]);
      InsertDescMultiset(SortDesc(s[..|s| - 1]), s[|s| - 1]);
      assert s == s[..|s| - 1] + [s[|s| - 1]];
    }
  }

  /** The sort lists the newest entries first. */
  lemma {:induction false} SortDescSorted(s: seq<JournalEntry>)
    ensures SortedDesc(SortDesc(s))
  {
    if s != [] {
      SortDescSorted(s[..|s| - 1]);
      InsertDescSorted(SortDesc(s[..|s| - 1]), s[|s| - 1]);
    }
  }

  /** In a sorted sequence no entry is newer than the first. */
  lemma SortedHeadIsNewest(t: seq<JournalEntry>, e: JournalEntry)
    requires SortedDesc(t) && e in t
    ensures e.updatedAt <= t[0].updatedAt
  {
  }

  /** Selecting by timestamp distributes over concatenation. */
  lemma WithTimeConcat(a: seq<JournalEntry>, b: seq<JournalEntry>, k: Millis)
    ensures WithTime(a + b, k) == WithTime(a, k) + WithTime(b, k)
  {
    FilterConcat(a, b, (e: JournalEntry) => e.updatedAt == k);
  }

  /** One entry is selected exactly when it has the timestamp. */
  lemma WithTimeSingleton(e: JournalEntry, k: Millis)
    ensures WithTime([e], k) == if e.updatedAt == k then [e] else []
  {
    assert [e][1..] == [];
  }

  /** Inserting into a sorted sequence adds `x` after every entry with the same timestamp. */
  lemma {:induction false} InsertDescStable(t: seq<JournalEntry>, x: JournalEntry, k: Millis)
    requires SortedDesc(t)
    ensures WithTime(InsertDesc(t, x), k) == WithTime(t, k) + WithTime([x], k)
  {
    if t == [] {
      assert InsertDesc(t, x) == [x];
      assert WithTime(t, k) == [];
    } else if t[0].updatedAt < x.updatedAt {
      InsertDescStableFront(t, x, k);
    } else {
      var t1 := t[1..];
      InsertDescStable(t1, x, k);
      assert InsertDesc(t, x) == [t[0]] + InsertDesc(t1, x);
      WithTimeConcat([t[0]], InsertDesc(t1, x), k);
      assert t == [t[0]] + t1;
      WithTimeConcat([t[0]], t1, k);
    }
  }

  /** The case of InsertDescStable where `x` goes in front of a sorted `t`. */
  lemma InsertDescStableFront(t: seq<JournalEntry>, x: JournalEntry, k: Millis)
    requires SortedDesc(t) && t != [] && t[0].updatedAt < x.updatedAt
    ensures WithTime(InsertDesc(t, x), k) == WithTime(t, k) + WithTime([x], k)
  {
    assert InsertDesc(t, x) == [x] + t;
    WithTimeConcat([x], t, k);
    WithTimeSingleton(x, k);
    if x.updatedAt == k {
      FilterNoneKept(t, (e: JournalEntry) => e.updatedAt == k);
    } else {
      assert [] + WithTime(t, k) == WithTime(t, k) + [];
    }
  }

  /**
   * The sort is stable: for every timestamp, the entries with that timestamp
   * appear in the result in the same order as in the input.
   */
  lemma {:induction false} SortDescStable(s: seq<JournalEntry>, k: Millis)
    ensures WithTime(SortDesc(s), k) == WithTime(s, k)
  {
    if s != [] {
      var p, y := s[..|s| - 1], s[|s| - 1];
      SortDescSorted(p);
      SortDescStable(p, k);
      InsertDescStable(SortDesc(p), y, k);
      assert s == p + [y];
      WithTimeConcat(p, [y], k);
    }
  }

  /** In a sorted `t`, with `x` newer than everything from position `j` on, inserting puts `x` at `j`. */
  lemma {:induction false} InsertDescAt(t: seq<JournalEntry>, x: JournalEntry, j: nat)
    requires SortedDesc(t) && j <= |t|
    requires j == 0 || t[j - 1].updatedAt >= x.updatedAt
    requires forall k :: j <= k < |t| ==> t[k].updatedAt < x.updatedAt
    ensures InsertDesc(t, x) == t[..j] + [x] + t[j..]
  {
    if j > 0 {
      InsertDescAt(t[1..], x, j - 1);
      assert t[..j] == [t[0]] + t[1..][..j - 1];
      assert t[j..] == t[1..][j - 1..];
    } else if t != [] {
      assert t[j..] == t;
    }
  }

  /** Sorting a sequence that is already newest-first changes nothing. */
  lemma {:induction false} SortDescOfSorted(s: seq<JournalEntry>)
    requires SortedDesc(s)
    ensures SortDesc(s) == s
  {
    if s != [] {
      var p, y := s[..|s| - 1], s[|s| - 1];
      SortDescOfSorted(p);
      InsertDescAt(p, y, |p|);
      assert p[..|p|] + [y] + p[|p|..] == s;
    }
  }

  /**
   * An entry at least as recent as everything else, put in front, stays in
   * front after sorting: the sort of `[x] + s` is `x` followed by the sort of `s`.
   */
  lemma {:induction false} SortDescPrependNewest(x: JournalEntry, s: seq<JournalEntry>)
    requires forall e :: e in s ==> e.updatedAt <= x.updatedAt
    ensures SortDesc([x] + s) == [x] + SortDesc(s)
  {
    if s == [] {
      assert [x] + s == [x];
      assert [x][..0] == [];
    } else {
      var p, y := s[..|s| - 1], s[|s| - 1];
      assert s == p + [y];
      assert forall e :: e in p ==> e in s;
      SortDescPrependNewest(x, p);
      var xs := [x] + s;
      assert xs[..|xs| - 1] == [x] + p;
      assert xs[|xs| - 1] == y;
      assert SortDesc(xs) == InsertDesc([x] + SortDesc(p), y);
      assert y.updatedAt <= x.updatedAt;
      InsertBehindHead(x, SortDesc(p), y);
    }
  }

  /** An entry no newer than the head goes behind it. */
  lemma InsertBehindHead(h: JournalEntry, u: seq<JournalEntry>, y: JournalEntry)
    requires y.updatedAt <= h.updatedAt
    ensures InsertDesc([h] + u, y) == [h] + InsertDesc(u, y)
  {
    assert ([h] + u)[1..] == u;
  }

  /** Removing an id after inserting into a sorted sequence is inserting after removing. */
  lemma {:induction false} RemoveFromInsert(t: seq<JournalEntry>, x: JournalEntry, id: string)
    requires SortedDesc(t)
    ensures RemoveById(InsertDesc(t, x), id)
         == if x.id == id then RemoveById(t, id) else InsertDesc(RemoveById(t, id), x)
    decreases |t|, 1
  {
    if t == [] {
      RemoveByIdSingleton(x, id);
      assert InsertDesc(t, x) == [x];
      assert RemoveById(t, id) == [];
    } else if t[0].updatedAt < x.updatedAt {
      RemoveFromInsertFront(t, x, id);
    } else {
      RemoveFromInsertBehind(t, x, id);
    }
  }

  /** The case of RemoveFromInsert where `x` goes behind the first entry. */
  lemma {:induction false} RemoveFromInsertBehind(t: seq<JournalEntry>, x: JournalEntry, id: string)
    requires SortedDesc(t) && t != [] && t[0].updatedAt >= x.updatedAt
    ensures RemoveById(InsertDesc(t, x), id)
         == if x.id == id then RemoveById(t, id) else InsertDesc(RemoveById(t, id), x)
    decreases |t|, 0
  {
    var t1 := t[1..];
    assert t == [t[0]] + t1;
    var r0 := if t[0].id == id then [] else [t[0]];
    var r1 := RemoveById(t1, id);
    RemoveFromInsert(t1, x, id);
    RemoveByIdSingleton(t[0], id);
    assert InsertDesc(t, x) == [t[0]] + InsertDesc(t1, x);
    RemoveByIdConcat([t[0]], InsertDesc(t1, x), id);
    assert RemoveById(InsertDesc(t, x), id) == r0 + RemoveById(InsertDesc(t1, x), id);
    RemoveByIdConcat([t[0]], t1, id);
    assert RemoveById(t, id) == r0 + r1;
    if x.id != id && t[0].id != id {
      InsertBehindHead(t[0], r1, x);
    } else if t[0].id == id {
      assert r0 + r1 == r1;
    }
  }

  /** The case of RemoveFromInsert where `x` goes in front. */
  lemma RemoveFromInsertFront(t: seq<JournalEntry>, x: JournalEntry, id: string)
    requires SortedDesc(t) && t != [] && t[0].updatedAt < x.updatedAt
    ensures RemoveById(InsertDesc(t, x), id)
         == if x.id == id then RemoveById(t, id) else InsertDesc(RemoveById(t, id), x)
  {
    RemoveByIdSingleton(x, id);
    assert InsertDesc(t, x) == [x] + t;
    RemoveByIdConcat([x], t, id);
    var r := RemoveById(t, id);
    RemoveByIdContents(t, id);
    if x.id == id {
      assert [] + r == r;
    } else if r != [] {
      assert r[0] in t;
      SortedHeadIsNewest(t, r[0]);
      assert InsertDesc(r, x) == [x] + r;
    } else {
      assert InsertDesc(r, x) == [x];
    }
  }

  /**
   * Deleting from the sorted list is sorting after deleting: a mirror that
   * equals the sorted list still equals it after the same deletion.
   */
  lemma {:induction false} RemoveCommutesWithSort(s: seq<JournalEntry>, id: string)
    ensures RemoveById(SortDesc(s), id) == SortDesc(RemoveById(s, id))
  {
    if s != [] {
      var p, y := s[..|s| - 1], s[|s| - 1];
      assert s == p + [y];
      SortDescSorted(p);
      RemoveCommutesWithSort(p, id);
      RemoveFromInsert(SortDesc(p), y, id);
      RemoveByIdConcat(p, [y], id);
      RemoveByIdSingleton(y, id);
      var rp := RemoveById(p, id);
      if y.id != id {
        var q := rp + [y];
        assert q[..|q| - 1] == rp;
      } else {
        assert rp + [] == rp;
      }
    }
  }

  /** Two entries with distinct timestamps are listed newest first, whatever their stored order. */
  lemma ListTwoEntries(a: JournalEntry, b: JournalEntry)
    requires a.updatedAt < b.updatedAt
    ensures SortDesc([a, b]) == [b, a]
    ensures SortDesc([b, a]) == [b, a]
  {
    assert [a][..0] == [] && [b][..0] == [];
    assert SortDesc([a]) == [a] && SortDesc([b]) == [b];
    assert [a, b][..1] == [a] && [b, a][..1] == [b];
    assert InsertDesc([a], b) == [b] + [a];
    assert InsertDesc([b][1..], a) == [a];
    assert InsertDesc([b], a) == [b] + [a];
  }

  /** One step of the insertion sort: moves `a[i]` to its place in the sorted prefix `a[..i]`. */
  method InsertLast(a: array<JournalEntry>, i: nat)
    requires i < a.Length && SortedDesc(a[..i])
    modifies a
    ensures a[..i + 1] == InsertDesc(old(a[..i]), old(a[i]))
    ensures a[i + 1..] == old(a[i + 1..])
  {
    var x := a[i];
    ghost var t := a[..i];
    ghost var rest := a[i + 1..];
    var j := i;
    while j > 0 && a[j - 1].updatedAt < x.updatedAt
      invariant 0 <= j <= i
      invariant forall k :: 0 <= k < j ==> a[k] == t[k]
      invariant forall k :: j < k <= i ==> a[k] == t[k - 1]
      invariant forall k :: j <= k < i ==> t[k].updatedAt < x.updatedAt
      invariant a[i + 1..] == rest
    {
      a[j] := a[j - 1];
      j := j - 1;
    }
    a[j] := x;
    InsertDescAt(t, x, j);
    ShiftedIsInsert(t, x, j, a[..i + 1]);
  }

  /** A sequence that agrees with `t` before `j`, holds `x` at `j` and `t` shifted by one after it. */
  lemma ShiftedIsInsert(t: seq<JournalEntry>, x: JournalEntry, j: nat, b: seq<JournalEntry>)
    requires j <= |t| && |b| == |t| + 1 && b[j] == x
    requires forall k :: 0 <= k < j ==> b[k] == t[k]
    requires forall k :: j < k <= |t| ==> b[k] == t[k - 1]
    ensures b == t[..j] + [x] + t[j..]
  {
  }

  /** `entries.sort(...)` on the array itself: an insertion sort, stable and newest first. */
  method SortInPlace(a: array<JournalEntry>)
    modifies a
    ensures a[..] == SortDesc(old(a[..]))
  {
    ghost var orig := a[..];
    var i := 0;
    while i < a.Length
      invariant 0 <= i <= a.Length
      invariant a[..i] == SortDesc(orig[..i])
      invariant a[i..] == orig[i..]
    {
      SortDescSorted(orig[..i]);
      ghost var before := a[..];
      assert before[i] == orig[i] && before[i + 1..] == orig[i + 1..] by {
        assert before[i..] == orig[i..];
        assert before[i..][0] == before[i] && orig[i..][0] == orig[i];
        assert before[i + 1..] == before[i..][1..] && orig[i + 1..] == orig[i..][1..];
      }
      InsertLast(a, i);
      assert a[i + 1..] == orig[i + 1..];
      assert orig[..i + 1][..i] == orig[..i];
      assert a[..i + 1] == SortDesc(orig[..i + 1]);
      i := i + 1;
    }
    assert orig[..a.Length] == orig;
  }
}
