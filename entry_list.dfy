/**
 * The pure transforms the store and the view-model apply to a sequence of
 * entries: `Array.prototype.filter`, the replace-by-id `map`, `find` by id,
 * and the invariants of one user's partition (unique ids, createdAt <= updatedAt).
 */
module EntryList {
  import opened Types

  /** `s.filter(keep)`: the elements that pass, in their original order. */
  function Filter<T(!new)>(s: seq<T>, keep: T -> bool): (r: seq<T>)
    ensures |r| <= |s|
    ensures forall i :: 0 <= i < |r| ==> keep(r[i])
  {
    if s == [] then []
    else (if keep(s[0]) then [s[0]] else []) + Filter(s[1..], keep)
  }

  /** Filtering keeps every passing element as often as it occurs and drops the rest. */
  lemma {:induction false} FilterMultiset<T(!new)>(s: seq<T>, keep: T -> bool)
    ensures forall x :: multiset(Filter(s, keep))[x] == if keep(x) then multiset(s)[x] else 0
  {
    if s != [] {
      FilterMultiset(s[1..], keep);
      assert s == [s[0]] + s[1..];
    }
  }

  /** Filtering distributes over concatenation: the kept elements keep their order. */
  lemma {:induction false} FilterConcat<T(!new)>(a: seq<T>, b: seq<T>, keep: T -> bool)
    ensures Filter(a + b, keep) == Filter(a, keep) + Filter(b, keep)
  {
    if a == [] {
      assert a + b == b;
    } else {
      assert (a + b)[0] == a[0];
      assert (a + b)[1..] == a[1..] + b;
      FilterConcat(a[1..], b, keep);
      var head := if keep(a[0]) then [a[0]] else [];
      assert Filter(a + b, keep) == head + Filter(a[1..] + b, keep);
    }
  }

  /** Filtering by the same test twice is filtering once. */
  lemma {:induction false} FilterIdempotent<T(!new)>(s: seq<T>, keep: T -> bool)
    ensures Filter(Filter(s, keep), keep) == Filter(s, keep)
  {
    if s != [] {
      FilterIdempotent(s[1..], keep);
      var head := if keep(s[0]) then [s[0]] else [];
      FilterConcat(head, Filter(s[1..], keep), keep);
    }
  }

  /** Every element passes the test exactly when filtering changes nothing. */
  lemma {:induction false} FilterAllKept<T(!new)>(s: seq<T>, keep: T -> bool)
    requires forall i :: 0 <= i < |s| ==> keep(s[i])
    ensures Filter(s, keep) == s
  {
    if s != [] {
      FilterAllKept(s[1..], keep);
      assert s == [s[0]] + s[1..];
    }
  }

  /** Filtering that keeps nothing yields the empty sequence. */
  lemma {:induction false} FilterNoneKept<T(!new)>(s: seq<T>, keep: T -> bool)
    requires forall i :: 0 <= i < |s| ==> !keep(s[i])
    ensures Filter(s, keep) == []
  {
    if s != [] {
      FilterNoneKept(s[1..], keep);
    }
  }

  predicate HasId(s: seq<JournalEntry>, id: string) {
    exists i :: 0 <= i < |s| && s[i].id == id
  }

  /** `entries.filter(e => e.id !== id)` */
  function RemoveById(s: seq<JournalEntry>, id: string): (r: seq<JournalEntry>)
    ensures |r| <= |s|
    ensures forall i :: 0 <= i < |r| ==> r[i].id != id
  {
    Filter(s, (e: JournalEntry) => e.id != id)
  }

  /**
   * After removal no entry carries the id, and every entry with another id
   * occurs exactly as often as before.
   */
  lemma RemoveByIdContents(s: seq<JournalEntry>, id: string)
    ensures !HasId(RemoveById(s, id), id)
    ensures forall e: JournalEntry :: e.id != id ==> multiset(RemoveById(s, id))[e] == multiset(s)[e]
    ensures forall e :: e in RemoveById(s, id) ==> e in s && e.id != id
  {
    var r := RemoveById(s, id);
    FilterMultiset(s, (e: JournalEntry) => e.id != id);
    assert forall e :: e in r ==> multiset(r)[e] > 0;
  }

  /** Removal keeps the order of what is left: it distributes over concatenation. */
  lemma RemoveByIdConcat(a: seq<JournalEntry>, b: seq<JournalEntry>, id: string)
    ensures RemoveById(a + b, id) == RemoveById(a, id) + RemoveById(b, id)
  {
    FilterConcat(a, b, (e: JournalEntry) => e.id != id);
  }

  /** Removing one entry: it is dropped exactly when it carries the id. */
  lemma RemoveByIdSingleton(e: JournalEntry, id: string)
    ensures RemoveById([e], id) == if e.id == id then [] else [e]
  {
    assert [e][1..] == [];
  }

  /** Deleting the same id twice is deleting it once. */
  lemma RemoveByIdIdempotent(s: seq<JournalEntry>, id: string)
    ensures RemoveById(RemoveById(s, id), id) == RemoveById(s, id)
  {
    FilterIdempotent(s, (e: JournalEntry) => e.id != id);
  }

  /** Deleting an id that is not there leaves the sequence as it was. */
  lemma RemoveAbsentId(s: seq<JournalEntry>, id: string)
    requires !HasId(s, id)
    ensures RemoveById(s, id) == s
  {
    FilterAllKept(s, (e: JournalEntry) => e.id != id);
  }

  /** `entries.map(e => e.id === id ? replacement : e)` */
  function ReplaceById(s: seq<JournalEntry>, id: string, replacement: JournalEntry): (r: seq<JournalEntry>)
    ensures |r| == |s|
    ensures forall i :: 0 <= i < |s| && s[i].id == id ==> r[i] == replacement
    ensures forall i :: 0 <= i < |s| && s[i].id != id ==> r[i] == s[i]
  {
    if s == [] then []
    else [if s[0].id == id then replacement else s[0]] + ReplaceById(s[1..], id, replacement)
  }

  /** Replacing an id that is not there leaves the sequence as it was. */
  lemma ReplaceAbsentId(s: seq<JournalEntry>, id: string, replacement: JournalEntry)
    requires !HasId(s, id)
    ensures ReplaceById(s, id, replacement) == s
  {
  }

  /** A replacement that keeps the id keeps every position's id. */
  lemma ReplaceKeepsIds(s: seq<JournalEntry>, replacement: JournalEntry)
    ensures forall i :: 0 <= i < |s| ==> ReplaceById(s, replacement.id, replacement)[i].id == s[i].id
  {
  }

  /** An id occurs in a non-empty sequence exactly when it is the head's or occurs in the tail. */
  lemma HasIdCons(s: seq<JournalEntry>, id: string)
    requires s != []
    ensures HasId(s, id) <==> s[0].id == id || HasId(s[1..], id)
  {
    if HasId(s, id) && s[0].id != id {
      var k :| 0 <= k < |s| && s[k].id == id;
      assert s[1..][k - 1].id == id;
    }
    if HasId(s[1..], id) {
      var k :| 0 <= k < |s[1..]| && s[1..][k].id == id;
      assert s[k + 1].id == id;
    }
  }

  /** `entries.find(e => e.id === id)`: the first entry with that id, if any. */
  function FindById(s: seq<JournalEntry>, id: string): (r: Option<JournalEntry>)
    ensures r.None? <==> !HasId(s, id)
    ensures r.Some? ==> r.value.id == id
    ensures r.Some? ==> exists i :: 0 <= i < |s| && s[i] == r.value && !HasId(s[..i], id)
  {
    if s == [] then None
    else if s[0].id == id then
      assert !HasId(s[..0], id);
      Some(s[0])
    else
      HasIdCons(s, id);
      var r := FindById(s[1..], id);
      if r.Some? then
        var i :| 0 <= i < |s[1..]| && s[1..][i] == r.value && !HasId(s[1..][..i], id);
        assert s[..i + 1][1..] == s[1..][..i];
        HasIdCons(s[..i + 1], id);
        assert s[i + 1] == r.value;
        r
      else r
  }

  /**
   * After replacing by id (with a replacement that keeps the id), `find` by that
   * id yields the replacement when the id was present and nothing otherwise.
   */
  lemma {:induction false} FindAfterReplace(s: seq<JournalEntry>, replacement: JournalEntry)
    ensures FindById(ReplaceById(s, replacement.id, replacement), replacement.id)
         == if HasId(s, replacement.id) then Some(replacement) else None
  {
    var id := replacement.id;
    if s != [] {
      HasIdCons(s, id);
      if s[0].id != id {
        FindAfterReplace(s[1..], replacement);
        var r := ReplaceById(s, id, replacement);
        assert r[0] == s[0];
        assert r[1..] == ReplaceById(s[1..], id, replacement);
      }
    }
  }

  /** Ids are unique within a partition. */
  predicate UniqueIds(s: seq<JournalEntry>) {
    forall i, j :: 0 <= i < j < |s| ==> s[i].id != s[j].id
  }

  /** Every entry was created no later than it was last updated. */
  predicate Chronological(s: seq<JournalEntry>) {
    forall e :: e in s ==> e.createdAt <= e.updatedAt
  }

  /** The invariants of one user's partition. */
  predicate PartitionInvariant(s: seq<JournalEntry>) {
    UniqueIds(s) && Chronological(s)
  }

  /** Prepending an entry with a fresh id and consistent timestamps keeps the invariant. */
  lemma PrependKeepsInvariant(s: seq<JournalEntry>, e: JournalEntry)
    requires PartitionInvariant(s)
    requires !HasId(s, e.id) && e.createdAt <= e.updatedAt
    ensures PartitionInvariant([e] + s)
  {
    var r := [e] + s;
    forall i, j | 0 <= i < j < |r| ensures r[i].id != r[j].id {
      if i == 0 {
        assert r[j] == s[j - 1];
      }
    }
  }

  /** Replacing by id with an entry that keeps its id and has consistent timestamps keeps the invariant. */
  lemma ReplaceKeepsInvariant(s: seq<JournalEntry>, replacement: JournalEntry)
    requires PartitionInvariant(s)
    requires replacement.createdAt <= replacement.updatedAt
    ensures PartitionInvariant(ReplaceById(s, replacement.id, replacement))
  {
    ReplaceKeepsIds(s, replacement);
  }

  /** Removing by id keeps the invariant. */
  lemma {:induction false} RemoveKeepsInvariant(s: seq<JournalEntry>, id: string)
    requires PartitionInvariant(s)
    ensures PartitionInvariant(RemoveById(s, id))
  {
    if s != [] {
      var t := s[1..];
      assert UniqueIds(t) by {
        forall i, j | 0 <= i < j < |t| ensures t[i].id != t[j].id {
          assert t[i] == s[i + 1] && t[j] == s[j + 1];
        }
      }
      RemoveKeepsInvariant(t, id);
      var rest := RemoveById(t, id);
      RemoveByIdContents(t, id);
      assert RemoveById(s, id) == (if s[0].id != id then [s[0]] else []) + rest;
      if s[0].id != id {
        assert !HasId(rest, s[0].id);
        PrependKeepsInvariant(rest, s[0]);
      }
    }
  }
}
