/** The persistence adapter: the whole collection is one serialized value under
    the key "tasks" of the browser's local store. */
module Storage {
  import opened Tasks

  /** The stored value, as far as loading tells the cases apart. */
  datatype Blob =
    | Absent                    // nothing stored under the key
    | EmptyText                 // the stored string is ""
    | Unparseable               // the stored string is not JSON
    | NotArray                  // the stored JSON is not an array
    | Records(tasks: seq<Task>) // the stored JSON is an array of records

  /** `loadFromStorage`: the stored records, or the empty collection whenever the
      value is absent, empty, unparseable or not an array. Reading the store
      itself is taken not to throw. */
  function Load(b: Blob): seq<Task> {
    if b.Records? then b.tasks else []
  }

  /** The value `saveToStorage` writes: the serialized array of the records. */
  function Serialize(ts: seq<Task>): Blob {
    Records(ts)
  }

  /** Saving and loading back gives the saved collection; saving what was loaded
      from an array of records writes the same value again. */
  lemma SaveLoadRoundTrip(ts: seq<Task>)
    ensures Load(Serialize(ts)) == ts
    ensures Serialize(Load(Records(ts))) == Records(ts)
  {
  }
}
