/** The entry shapes of the journal and the small result types the store returns. */
module Types {

  /** Milliseconds since the epoch: what `Date.getTime()` yields. */
  type Millis = int

  /** A stored journal entry. */
  datatype JournalEntry = JournalEntry(
    id: string,
    title: string,
    content: string,
    color: string,
    createdAt: Millis,
    updatedAt: Millis)

  /** The payload of a new entry: an entry without its id. */
  datatype JournalEntryData = JournalEntryData(
    title: string,
    content: string,
    color: string,
    createdAt: Millis,
    updatedAt: Millis)

  datatype Option<T> = None | Some(value: T)

  /** The one way a store call fails: the file system rejects a read or a write. */
  datatype StoreError = StorageError

  datatype Result<T> = Success(value: T) | Failure(error: StoreError)
}
