/**
 * The entry-collection view-model (`useJournalEntries(userId)`): the state
 * `entries` and `loading`, the load effect that re-runs when `userId`
 * changes, and the three mutations that call the store and then update the
 * in-memory mirror without reloading it.
 *
 * React is modelled by the steps it takes: the constructor is the first
 * render with its mount effect, Rerender is a later render with a possibly
 * different `userId`, and CompleteLoad is the continuation after the
 * effect's `await listEntriesLocal(...)`. Each effect run has its own
 * `cancelled` flag, which the effect's cleanup sets; a LoadEffect object is
 * that flag. State updates are applied at once (`prev` is the current
 * `entries`).
 */
module JournalEntriesHook {
  import opened Types
  import opened EntryList
  import opened EntryOrder
  import opened LocalStore

  /** `if (userId)`: JavaScript truthiness, so an empty id counts as no user. */
  predicate Present(userId: Option<string>) {
    userId.Some? && userId.value != ""
  }

  /**
   * The updater `prev => prev.map(e => e.id === updated.id ? updated : e)`,
   * where `updated` is what `updateEntryLocal` returned. When the store found
   * no entry with the id, `updated` is `undefined`; this model then leaves the
   * mirror as it is (see MirrorUpdateAsWritten for what the code does).
   */
  function MirrorUpdate(prev: seq<JournalEntry>, updated: Option<JournalEntry>): (r: seq<JournalEntry>)
    ensures |r| == |prev|
    ensures forall i :: 0 <= i < |prev| ==> r[i].id == prev[i].id
    ensures updated.None? ==> r == prev
    ensures updated.Some? ==> forall i :: 0 <= i < |prev| ==>
      r[i] == if prev[i].id == updated.value.id then updated.value else prev[i]
  {
    match updated
    case None => prev
    case Some(u) =>
      ReplaceKeepsIds(prev, u);
      ReplaceById(prev, u.id, u)
  }

  /**
   * The same updater as the code has it, with `None` standing for the
   * TypeError it raises: `updated.id` is read from `undefined` for every
   * element of `prev`, so a non-empty mirror makes the updater throw; an
   * empty one never calls the callback.
   */
  function MirrorUpdateAsWritten(prev: seq<JournalEntry>, updated: Option<JournalEntry>): (r: Option<seq<JournalEntry>>)
    ensures r.None? <==> updated.None? && prev != []
    ensures r.Some? ==> |r.value| == |prev|
    ensures r.Some? && updated.Some? ==> forall i :: 0 <= i < |prev| ==>
      r.value[i] == if prev[i].id == updated.value.id then updated.value else prev[i]
  {
    match updated
    case Some(u) => Some(ReplaceById(prev, u.id, u))
    case None => if prev == [] then Some([]) else None
  }

  /** As written, updating an id the file does not hold throws inside the state updater whenever the mirror is non-empty. */
  lemma MirrorUpdateAsWrittenThrows(prev: seq<JournalEntry>)
    requires prev != []
    ensures MirrorUpdateAsWritten(prev, None) == None
  {
  }

  /** Where the store found the entry, the code and the model agree. */
  lemma MirrorUpdateAgrees(prev: seq<JournalEntry>, updated: Option<JournalEntry>)
    requires updated.Some? || prev == []
    ensures MirrorUpdateAsWritten(prev, updated) == Some(MirrorUpdate(prev, updated))
  {
  }

  /**
   * The mirror is not re-sorted on update: starting from the sorted list,
   * touching the older of two entries leaves it second in the mirror, while
   * listing the store again puts it first.
   */
  lemma UpdateLeavesMirrorUnsorted()
    ensures var older := JournalEntry("b", "B", "", "#FADADD", 1, 1);
            var newer := JournalEntry("a", "A", "", "#A8D0E6", 2, 2);
            var stored := [newer, older];
            var touched := Touched(older, 3);
            SortDesc(stored) == stored &&
            MirrorUpdate(SortDesc(stored), Some(touched)) == [newer, touched] &&
            SortDesc(ReplaceById(stored, "b", touched)) == [touched, newer]
  {
    var older := JournalEntry("b", "B", "", "#FADADD", 1, 1);
    var newer := JournalEntry("a", "A", "", "#A8D0E6", 2, 2);
    var touched := Touched(older, 3);
    ListTwoEntries(older, newer);
    assert ReplaceById([newer, older], "b", touched) == [newer, touched];
    ListTwoEntries(newer, touched);
  }

  /** Adding an entry at least as new as every stored one keeps a sorted mirror equal to the sorted list. */
  lemma AddKeepsMirrorSorted(stored: seq<JournalEntry>, saved: JournalEntry)
    requires forall e :: e in stored ==> e.updatedAt <= saved.updatedAt
    ensures [saved] + SortDesc(stored) == SortDesc([saved] + stored)
  {
    SortDescPrependNewest(saved, stored);
  }

  /** One run of the load effect; its cleanup sets `cancelled`. */
  class LoadEffect {
    const userId: Option<string>
    var cancelled: bool

    constructor (userId: Option<string>)
      ensures this.userId == userId && !cancelled
    {
      this.userId := userId;
      cancelled := false;
    }
  }

  /** The state of one `useJournalEntries` instance. */
  class JournalEntries {
    const store: Store
    /** The `userId` of the latest render. */
    var userId: Option<string>
    var entries: seq<JournalEntry>
    var loading: bool
    /** The effect run of the latest render that changed `userId`. */
    var effect: LoadEffect

    /** The mirror equals what listing the store for the current user yields. */
    ghost predicate InSync()
      reads this, store
    {
      Present(userId) ==> entries == SortDesc(store.LoadEntries(userId.value))
    }

    /**
     * First render: `useState([])` and `useState(true)`, then the synchronous part
     * of the mount effect, which leaves `entries` empty and clears `loading` when
     * there is no user.
     */
    constructor (store: Store, userId: Option<string>)
      ensures this.store == store && this.userId == userId
      ensures fresh(effect) && effect.userId == userId && !effect.cancelled
      ensures entries == [] && loading == Present(userId)
    {
      this.store := store;
      this.userId := userId;
      entries := [];
      loading := Present(userId);
      effect := new LoadEffect(userId);
    }

    /**
     * The synchronous part of the effect body: with a user, `setLoading(true)`
     * and the store read is awaited; without one, `setEntries([])` and
     * `setLoading(false)`.
     */
    method RunEffect()
      modifies this
      ensures userId == old(userId)
      ensures fresh(effect) && effect.userId == userId && !effect.cancelled
      ensures Present(userId) ==> loading && entries == old(entries)
      ensures !Present(userId) ==> !loading && entries == []
    {
      effect := new LoadEffect(userId);
      if Present(userId) {
        loading := true;
      } else {
        entries := [];
        loading := false;
      }
    }

    /**
     * A render with `newUserId`. The effect depends on `[userId]`: when the id
     * changed, the previous run's cleanup sets its `cancelled` flag and the
     * effect runs again; otherwise nothing happens.
     */
    method Rerender(newUserId: Option<string>)
      modifies this, effect
      ensures userId == newUserId
      ensures newUserId == old(userId) ==>
        effect == old(effect) && entries == old(entries) && loading == old(loading)
        && effect.cancelled == old(effect.cancelled)
      ensures newUserId != old(userId) ==>
        old(effect).cancelled && fresh(effect) && effect.userId == newUserId && !effect.cancelled
      ensures newUserId != old(userId) && Present(newUserId) ==> loading && entries == old(entries)
      ensures newUserId != old(userId) && !Present(newUserId) ==> !loading && entries == []
    {
      if newUserId != userId {
        effect.cancelled := true;
        userId := newUserId;
        RunEffect();
      }
    }

    /** Unmount: the cleanup of the latest effect run. */
    method Unmount()
      modifies effect
      ensures effect.cancelled
    {
      effect.cancelled := true;
    }

    /**
     * The rest of the effect body after `await listEntriesLocal(userId)`. A
     * run whose cleanup has happened writes nothing; a failed read rejects the
     * effect's promise, which nothing handles, so the state stays as it is.
     */
    method CompleteLoad(run: LoadEffect, ioOk: bool)
      requires Present(run.userId)
      modifies this
      ensures userId == old(userId) && effect == old(effect)
      ensures run.cancelled || !ioOk ==> entries == old(entries) && loading == old(loading)
      ensures !run.cancelled && ioOk ==>
        entries == SortDesc(store.LoadEntries(run.userId.value)) && !loading
      ensures !run.cancelled && ioOk && run.userId == userId ==> InSync()
    {
      var list := store.ListEntriesLocal(run.userId.value, ioOk);
      if list.Success? && !run.cancelled {
        entries := list.value;
        loading := false;
      }
    }

    /** `addEntry(entry)`: on success the saved entry is prepended to the mirror. */
    method AddEntry(data: JournalEntryData, id: string, now: Millis, ioOk: bool)
      modifies this, store
      ensures userId == old(userId) && loading == old(loading) && effect == old(effect)
      ensures Present(userId) && ioOk ==> entries == [NewEntry(data, id, now)] + old(entries)
      ensures !(Present(userId) && ioOk) ==> entries == old(entries)
      ensures !(Present(userId) && ioOk) ==> store.files == old(store.files)
      ensures Present(userId) && ioOk ==> store.files == old(store.files)[FileFor(store.documentDirectory, userId.value) :=
        Parsable([NewEntry(data, id, now)] + old(store.LoadEntries(userId.value)))]
      ensures Present(userId) ==> forall other :: other != userId.value ==> store.LoadEntries(other) == old(store.LoadEntries(other))
      ensures Present(userId) ==> (store.LoadEntries(userId.value)
        == if ioOk then [NewEntry(data, id, now)] + old(store.LoadEntries(userId.value))
           else old(store.LoadEntries(userId.value)))
      ensures old(InSync()) && Present(userId)
        && (forall e :: e in old(store.LoadEntries(userId.value)) ==> e.updatedAt <= now)
        ==> InSync()
    {
      if Present(userId) {
        ghost var before := store.LoadEntries(userId.value);
        var saved := store.AddEntryLocal(userId.value, data, id, now, ioOk);
        if saved.Success? {
          entries := [saved.value] + entries;
          if forall e :: e in before ==> e.updatedAt <= now {
            AddKeepsMirrorSorted(before, saved.value);
          }
        }
      }
    }

    /**
     * `updateEntry(entry)`: on success the mirror's entries with the id are
     * replaced in place by what the store returned; the mirror is not re-sorted.
     */
    method UpdateEntry(entry: JournalEntry, now: Millis, ioOk: bool)
      modifies this, store
      ensures userId == old(userId) && loading == old(loading) && effect == old(effect)
      ensures Present(userId) && ioOk ==> (entries ==
        if HasId(old(store.LoadEntries(userId.value)), entry.id)
        then ReplaceById(old(entries), entry.id, Touched(entry, now))
        else old(entries))
      ensures !(Present(userId) && ioOk) ==> entries == old(entries)
      ensures !Present(userId) ==> store.files == old(store.files)
      ensures Present(userId) && ioOk ==> store.files == old(store.files)[FileFor(store.documentDirectory, userId.value) :=
        Parsable(ReplaceById(old(store.LoadEntries(userId.value)), entry.id, Touched(entry, now)))]
      ensures Present(userId) ==> forall other :: other != userId.value ==> store.LoadEntries(other) == old(store.LoadEntries(other))
      ensures Present(userId) && ioOk ==> (store.LoadEntries(userId.value)
        == ReplaceById(old(store.LoadEntries(userId.value)), entry.id, Touched(entry, now)))
      ensures Present(userId) && !ioOk ==> store.files == old(store.files)
    {
      if Present(userId) {
        var updated := store.UpdateEntryLocal(userId.value, entry, now, ioOk);
        if updated.Success? {
          entries := MirrorUpdate(entries, updated.value);
        }
      }
    }

    /** `deleteEntry(id)`: on success the mirror drops the entries with the id. */
    method DeleteEntry(id: string, ioOk: bool)
      modifies this, store
      ensures userId == old(userId) && loading == old(loading) && effect == old(effect)
      ensures Present(userId) && ioOk ==> entries == RemoveById(old(entries), id)
      ensures !(Present(userId) && ioOk) ==> entries == old(entries)
      ensures !(Present(userId) && ioOk) ==> store.files == old(store.files)
      ensures Present(userId) && ioOk ==> store.files == old(store.files)[FileFor(store.documentDirectory, userId.value) :=
        Parsable(RemoveById(old(store.LoadEntries(userId.value)), id))]
      ensures Present(userId) ==> forall other :: other != userId.value ==> store.LoadEntries(other) == old(store.LoadEntries(other))
      ensures Present(userId) ==> (store.LoadEntries(userId.value)
        == if ioOk then RemoveById(old(store.LoadEntries(userId.value)), id)
           else old(store.LoadEntries(userId.value)))
      ensures old(InSync()) ==> InSync()
    {
      if Present(userId) {
        ghost var before := store.LoadEntries(userId.value);
        var done := store.DeleteEntryLocal(userId.value, id, ioOk);
        if done.Success? {
          entries := RemoveById(entries, id);
          RemoveCommutesWithSort(before, id);
        }
      }
    }
  }
}
