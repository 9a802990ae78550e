/**
 * The local, file-backed entry store (`src/lib/localStore.ts`). Each user's
 * entries live in one file under `<documentDirectory>journal/`; every write
 * loads the whole sequence, transforms it and writes it back.
 *
 * The file system is a map from path to file content; a path that is not in
 * the map is a file that does not exist. A file either parses to a sequence of
 * entries or it does not. Whether the file-system calls of one operation
 * succeed is the parameter `ioOk`; the clock reading and the random id are
 * parameters too.
 */
module LocalStore {
  import opened Types
  import opened EntryList
  import opened EntryOrder

  /** What a user's file holds: text that parses to entries, or text that does not. */
  datatype StoredFile = Parsable(entries: seq<JournalEntry>) | Unparsable

  /** Path to file content; a missing path is a missing file. */
  type FileSystem = map<string, StoredFile>

  /** `BASE_DIR` */
  function BaseDir(documentDirectory: string): (r: string)
    ensures |r| == |documentDirectory| + 7 && r[..|documentDirectory|] == documentDirectory
    ensures r[|documentDirectory|..] == "journal"
  {
    documentDirectory + "journal"
  }

  /** `fileFor(userId)`: `<BASE_DIR>/<userId>.json` */
  function FileFor(documentDirectory: string, userId: string): (r: string)
    ensures |r| == |BaseDir(documentDirectory)| + |userId| + 6
    ensures r[..|BaseDir(documentDirectory)| + 1] == BaseDir(documentDirectory) + "/"
    ensures r[|BaseDir(documentDirectory)| + 1..|r| - 5] == userId
    ensures r[|r| - 5..] == ".json"
  {
    BaseDir(documentDirectory) + "/" + userId + ".json"
  }

  /** Distinct users get distinct files. */
  lemma FileForInjective(documentDirectory: string, u: string, v: string)
    requires FileFor(documentDirectory, u) == FileFor(documentDirectory, v)
    ensures u == v
  {
    var prefix := BaseDir(documentDirectory) + "/";
    var p := FileFor(documentDirectory, u);
    var q := FileFor(documentDirectory, v);
    assert p == prefix + (u + ".json");
    assert q == prefix + (v + ".json");
    assert |u| == |v|;
    assert p[|prefix|..|prefix| + |u|] == u;
    assert q[|prefix|..|prefix| + |v|] == v;
  }

  /** `loadEntries` on a file system: a missing or unparsable file reads as no entries. */
  function Load(fs: FileSystem, path: string): (r: seq<JournalEntry>)
    ensures r == [] || (path in fs && fs[path] == Parsable(r))
  {
    if path in fs && fs[path].Parsable? then fs[path].entries else []
  }

  /** A missing file and an unparsable file both read as the empty collection. */
  lemma LoadMissingOrUnparsable(fs: FileSystem, path: string)
    requires path !in fs || fs[path] == Unparsable
    ensures Load(fs, path) == []
  {
  }

  /** What `persist` writes, `loadEntries` reads back. */
  lemma LoadAfterWrite(fs: FileSystem, path: string, entries: seq<JournalEntry>)
    ensures Load(fs[path := Parsable(entries)], path) == entries
  {
  }

  /** Writing one user's file leaves every other user's entries as they were. */
  lemma OtherPartitionsUnchanged(fs: FileSystem, documentDirectory: string, u: string, other: string, f: StoredFile)
    requires other != u
    ensures Load(fs[FileFor(documentDirectory, u) := f], FileFor(documentDirectory, other))
         == Load(fs, FileFor(documentDirectory, other))
  {
    if FileFor(documentDirectory, u) == FileFor(documentDirectory, other) {
      FileForInjective(documentDirectory, u, other);
    }
  }

  /** The entry `addEntryLocal` stores: the payload's text fields, the fresh id, and `now` for both timestamps. */
  function NewEntry(data: JournalEntryData, id: string, now: Millis): (e: JournalEntry)
    ensures e.id == id && e.title == data.title && e.content == data.content && e.color == data.color
    ensures e.createdAt == now && e.updatedAt == now
  {
    JournalEntry(id, data.title, data.content, data.color, now, now)
  }

  /** The entry `updateEntryLocal` stores: the input with `updatedAt` forced to `now`. */
  function Touched(entry: JournalEntry, now: Millis): (e: JournalEntry)
    ensures e.id == entry.id && e.title == entry.title && e.content == entry.content
    ensures e.color == entry.color && e.createdAt == entry.createdAt && e.updatedAt == now
  {
    entry.(updatedAt := now)
  }

  /** A created entry shows up when the partition is listed, with the payload's fields. */
  lemma CreatedEntryIsListed(s: seq<JournalEntry>, data: JournalEntryData, id: string, now: Millis)
    ensures NewEntry(data, id, now) in SortDesc([NewEntry(data, id, now)] + s)
  {
    var e := NewEntry(data, id, now);
    SortDescPermutation([e] + s);
    assert e in multiset([e] + s);
  }

  /** After a delete, listing the partition shows no entry with that id. */
  lemma DeletedIdIsNotListed(s: seq<JournalEntry>, id: string)
    ensures !HasId(SortDesc(RemoveById(s, id)), id)
  {
    var r := RemoveById(s, id);
    var l := SortDesc(r);
    RemoveByIdContents(s, id);
    SortDescPermutation(r);
    forall k | 0 <= k < |l| ensures l[k].id != id {
      assert l[k] in multiset(l);
      assert l[k] in r;
    }
  }

  /** The file-backed store of every user's entries. */
  class Store {
    /** `FileSystem.documentDirectory` */
    const documentDirectory: string
    var files: FileSystem

    constructor (documentDirectory: string, files: FileSystem)
      ensures this.documentDirectory == documentDirectory && this.files == files
    {
      this.documentDirectory := documentDirectory;
      this.files := files;
    }

    /** `loadEntries(userId)` */
    function LoadEntries(userId: string): (r: seq<JournalEntry>)
      reads this
      ensures r == [] || (FileFor(documentDirectory, userId) in files && files[FileFor(documentDirectory, userId)] == Parsable(r))
    {
      Load(files, FileFor(documentDirectory, userId))
    }

    /** `persist(userId, entries)`: overwrites the user's file with the whole sequence. */
    method Persist(userId: string, entries: seq<JournalEntry>)
      modifies this
      ensures files == old(files)[FileFor(documentDirectory, userId) := Parsable(entries)]
      ensures LoadEntries(userId) == entries
      ensures forall other :: other != userId ==> LoadEntries(other) == old(LoadEntries(other))
    {
      files := files[FileFor(documentDirectory, userId) := Parsable(entries)];
      forall other | other != userId
        ensures LoadEntries(other) == old(LoadEntries(other))
      {
        OtherPartitionsUnchanged(old(files), documentDirectory, userId, other, Parsable(entries));
      }
    }

    /** `addEntryLocal(userId, data)`: stamps a new entry and prepends it to the user's file. */
    method AddEntryLocal(userId: string, data: JournalEntryData, id: string, now: Millis, ioOk: bool)
      returns (r: Result<JournalEntry>)
      modifies this
      ensures !ioOk ==> r == Failure(StorageError) && files == old(files)
      ensures ioOk ==> r == Success(NewEntry(data, id, now))
      ensures ioOk ==> files == old(files)[FileFor(documentDirectory, userId) := Parsable([r.value] + old(LoadEntries(userId)))]
      ensures ioOk ==> LoadEntries(userId) == [r.value] + old(LoadEntries(userId))
      ensures forall other :: other != userId ==> LoadEntries(other) == old(LoadEntries(other))
      ensures old(PartitionInvariant(LoadEntries(userId))) && !HasId(old(LoadEntries(userId)), id)
        ==> PartitionInvariant(LoadEntries(userId))
    {
      if !ioOk {
        return Failure(StorageError);
      }
      var entries := LoadEntries(userId);
      var entry := NewEntry(data, id, now);
      var next := [entry] + entries;
      Persist(userId, next);
      if PartitionInvariant(entries) && !HasId(entries, id) {
        PrependKeepsInvariant(entries, entry);
      }
      r := Success(entry);
    }

    /**
     * `updateEntryLocal(userId, entry)`: every stored entry with the input's id
     * becomes the input with `updatedAt = now`; the result is the first of them,
     * or nothing (the unchecked `!` on `find`) when the id is not stored.
     */
    method UpdateEntryLocal(userId: string, entry: JournalEntry, now: Millis, ioOk: bool)
      returns (r: Result<Option<JournalEntry>>)
      modifies this
      ensures !ioOk ==> r == Failure(StorageError) && files == old(files)
      ensures ioOk ==> r == Success(if HasId(old(LoadEntries(userId)), entry.id) then Some(Touched(entry, now)) else None)
      ensures ioOk ==> files == old(files)[FileFor(documentDirectory, userId) :=
                         Parsable(ReplaceById(old(LoadEntries(userId)), entry.id, Touched(entry, now)))]
      ensures ioOk && !HasId(old(LoadEntries(userId)), entry.id) ==> LoadEntries(userId) == old(LoadEntries(userId))
      ensures forall other :: other != userId ==> LoadEntries(other) == old(LoadEntries(other))
      ensures old(PartitionInvariant(LoadEntries(userId))) && entry.createdAt <= now
        ==> PartitionInvariant(LoadEntries(userId))
    {
      if !ioOk {
        return Failure(StorageError);
      }
      var entries := LoadEntries(userId);
      var touched := Touched(entry, now);
      var next := ReplaceById(entries, entry.id, touched);
      Persist(userId, next);
      FindAfterReplace(entries, touched);
      if !HasId(entries, entry.id) {
        ReplaceAbsentId(entries, entry.id, touched);
      }
      if PartitionInvariant(entries) && entry.createdAt <= now {
        ReplaceKeepsInvariant(entries, touched);
      }
      r := Success(FindById(next, entry.id));
    }

    /** `deleteEntryLocal(userId, id)`: drops every entry with the id from the user's file. */
    method DeleteEntryLocal(userId: string, id: string, ioOk: bool) returns (r: Result<()>)
      modifies this
      ensures !ioOk ==> r == Failure(StorageError) && files == old(files)
      ensures ioOk ==> r == Success(())
      ensures ioOk ==> files == old(files)[FileFor(documentDirectory, userId) := Parsable(RemoveById(old(LoadEntries(userId)), id))]
      ensures ioOk ==> !HasId(LoadEntries(userId), id)
      ensures forall other :: other != userId ==> LoadEntries(other) == old(LoadEntries(other))
      ensures old(PartitionInvariant(LoadEntries(userId))) ==> PartitionInvariant(LoadEntries(userId))
    {
      if !ioOk {
        return Failure(StorageError);
      }
      var entries := LoadEntries(userId);
      var next := RemoveById(entries, id);
      RemoveByIdContents(entries, id);
      Persist(userId, next);
      if PartitionInvariant(entries) {
        RemoveKeepsInvariant(entries, id);
      }
      r := Success(());
    }

    /**
     * `listEntriesLocal(userId)`: the user's entries sorted in place, newest
     * first; the file is not written.
     */
    method ListEntriesLocal(userId: string, ioOk: bool) returns (r: Result<seq<JournalEntry>>)
      ensures !ioOk ==> r == Failure(StorageError)
      ensures ioOk ==> r == Success(SortDesc(LoadEntries(userId)))
      ensures ioOk ==> multiset(r.value) == multiset(LoadEntries(userId)) && SortedDesc(r.value)
    {
      if !ioOk {
        return Failure(StorageError);
      }
      var entries := LoadEntries(userId);
      var a := new JournalEntry[|entries|](i requires 0 <= i < |entries| => entries[i]);
      assert a[..] == entries;
      SortInPlace(a);
      SortDescPermutation(entries);
      SortDescSorted(entries);
      r := Success(a[..]);
    }
  }

  /**
   * Two entries created one after the other in an empty partition are listed
   * newest first: "Evening reflection" before "Morning thoughts".
   */
  method MorningEveningScenario(store: Store, userId: string, t1: Millis, t2: Millis)
    returns (titles: seq<string>)
    requires t1 <= t2
    requires FileFor(store.documentDirectory, userId) !in store.files
    modifies store
    ensures titles == ["Evening reflection", "Morning thoughts"]
  {
    var morning := JournalEntryData("Morning thoughts", "", "#A8D0E6", 0, 0);
    var evening := JournalEntryData("Evening reflection", "", "#FADADD", 0, 0);
    var a := store.AddEntryLocal(userId, morning, "m", t1, true);
    var b := store.AddEntryLocal(userId, evening, "e", t2, true);
    var listed := store.ListEntriesLocal(userId, true);
    var stored := store.LoadEntries(userId);
    assert stored == [b.value, a.value];
    assert SortedDesc(stored);
    SortDescOfSorted(stored);
    titles := [listed.value[0].title, listed.value[1].title];
  }

  /** Two users who each create an entry never see each other's entry. */
  method TwoUsersScenario(store: Store, u1: string, u2: string, data: JournalEntryData, now: Millis)
    returns (list1: seq<JournalEntry>, list2: seq<JournalEntry>)
    requires u1 != u2
    requires FileFor(store.documentDirectory, u1) !in store.files
    requires FileFor(store.documentDirectory, u2) !in store.files
    modifies store
    ensures list1 == [NewEntry(data, "one", now)] && list2 == [NewEntry(data, "two", now)]
  {
    var e1 := store.AddEntryLocal(u1, data, "one", now, true);
    var e2 := store.AddEntryLocal(u2, data, "two", now, true);
    var r1 := store.ListEntriesLocal(u1, true);
    var r2 := store.ListEntriesLocal(u2, true);
    assert store.LoadEntries(u1) == [e1.value];
    assert store.LoadEntries(u2) == [e2.value];
    assert [e1.value][..0] == [] && [e2.value][..0] == [];
    list1, list2 := r1.value, r2.value;
  }
}
