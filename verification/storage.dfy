/**
 The storage service: the whole collection lives as one serialised array under
 a single key (`stepup_workouts`) of the device's key-value store, and every operation reads it,
 works on it as a sequence, and (for save and delete) writes it back whole.

 The key-value store is reduced to the state of that one entry, and whether
 the store's read or write call rejects is a parameter of each operation.
 Serialisation is taken to round-trip: what is written is what a later read
 parses.
 */
module StorageService {
  import opened Wrappers
  import opened Types
  import opened WorkoutList

  /** The state of the stored entry: absent or the empty string (both read as
      "nothing stored"), a parseable collection, or text that does not parse. */
  datatype Entry = Missing | Stored(workouts: seq<Workout>) | Corrupt

  /** Whether the key-value store's read call and write call reject. */
  datatype Io = Io(readFails: bool, writeFails: bool)

  /** How a save or delete ends: it completes, or the error is rethrown. */
  datatype Outcome = Done | Failed

  /** The stored entry after an operation, and how the operation ended. */
  datatype Written = Written(entry: Entry, outcome: Outcome)

  /** The read-and-parse at the start of a save: an empty collection when
      nothing is stored, `None` when the read rejects or the text does not
      parse (the save then throws). */
  function LoadForSave(e: Entry, readFails: bool): (r: Option<seq<Workout>>)
    ensures r.None? <==> readFails || e.Corrupt?
    ensures r.Some? && e.Missing? ==> r.value == []
    ensures r.Some? && e.Stored? ==> r.value == e.workouts
  {
    if readFails then None
    else match e
      case Missing => Some([])
      case Stored(ws) => Some(ws)
      case Corrupt => None
  }

  /** `getWorkouts`: the stored collection; any failure to read or parse is
      swallowed and reads as the empty collection, as does a missing entry. */
  function GetWorkouts(e: Entry, readFails: bool): (r: seq<Workout>)
    ensures LoadForSave(e, readFails).Some? ==> r == LoadForSave(e, readFails).value
    ensures LoadForSave(e, readFails).None? ==> r == []
  {
    if !readFails && e.Stored? then e.workouts else []
  }

  /** `getWorkoutById`: the first stored record with that id, if any. */
  function GetWorkoutById(e: Entry, id: string, readFails: bool): (r: Option<Workout>)
    ensures r.Some? ==> r.value.id == id && r.value in GetWorkouts(e, readFails)
    ensures r.None? <==> !HasId(GetWorkouts(e, readFails), id)
  {
    Find(GetWorkouts(e, readFails), id)
  }

  /** `saveWorkout`: read, upsert, write back; a failed read, parse or write
      rethrows and leaves the entry as it was. */
  function SaveWorkout(e: Entry, w: Workout, io: Io): (r: Written)
    ensures r.outcome == Done <==> !io.readFails && !io.writeFails && !e.Corrupt?
    ensures r.outcome == Failed ==> r.entry == e
    ensures r.outcome == Done ==> r.entry.Stored?
    ensures r.outcome == Done ==> GetWorkouts(r.entry, false) == Upsert(GetWorkouts(e, false), w)
    ensures r.outcome == Done ==> GetWorkoutById(r.entry, w.id, false) == Some(w)
    ensures r.outcome == Done ==>
      |GetWorkouts(r.entry, false)| ==
        |GetWorkouts(e, false)| + (if HasId(GetWorkouts(e, false), w.id) then 0 else 1)
  {
    match LoadForSave(e, io.readFails)
    case None => Written(e, Failed)
    case Some(ws) =>
      FindAfterUpsert(ws, w);
      if io.writeFails then Written(e, Failed)
      else Written(Stored(Upsert(ws, w)), Done)
  }

  /** `deleteWorkout`: read through `getWorkouts`, drop every record with the
      id, write back; only a failed write rethrows. */
  function DeleteWorkout(e: Entry, id: string, io: Io): (r: Written)
    ensures r.outcome == Done <==> !io.writeFails
    ensures r.outcome == Failed ==> r.entry == e
    ensures r.outcome == Done ==> r.entry.Stored?
    ensures r.outcome == Done ==> GetWorkoutById(r.entry, id, false).None?
    ensures r.outcome == Done ==>
      GetWorkouts(r.entry, false) == Without(GetWorkouts(e, io.readFails), id)
  {
    var ws := GetWorkouts(e, io.readFails);
    if io.writeFails then Written(e, Failed)
    else Written(Stored(Without(ws, id)), Done)
  }

  // ---------------------------------------------------------------------------
  // Properties of the service over the stored entry

  /** Nothing stored reads as the empty collection, and finds nothing. */
  lemma MissingReadsEmpty(id: string)
    ensures GetWorkouts(Missing, false) == []
    ensures GetWorkoutById(Missing, id, false) == None
  {
  }

  /** A successful save changes the lookup of no other id. */
  lemma SaveKeepsOthers(e: Entry, w: Workout, io: Io, id: string)
    requires id != w.id
    requires SaveWorkout(e, w, io).outcome == Done
    ensures GetWorkoutById(SaveWorkout(e, w, io).entry, id, false) == GetWorkoutById(e, id, false)
  {
    FindOtherAfterUpsert(GetWorkouts(e, false), w, id);
  }

  /** A successful save keeps stored ids unique. */
  lemma SaveKeepsIdsUnique(e: Entry, w: Workout, io: Io)
    requires UniqueIds(GetWorkouts(e, false))
    requires SaveWorkout(e, w, io).outcome == Done
    ensures UniqueIds(GetWorkouts(SaveWorkout(e, w, io).entry, false))
  {
    UpsertKeepsIdsUnique(GetWorkouts(e, false), w);
  }

  /** Deleting twice stores the same entry as deleting once, whether or not
      the first delete's read succeeds (a failed read makes it store the empty
      collection, which a second delete keeps), provided the first write and
      the second read and write succeed. */
  lemma DeleteIdempotent(e: Entry, id: string, io: Io)
    requires !io.writeFails
    ensures DeleteWorkout(DeleteWorkout(e, id, io).entry, id, Io(false, false))
         == DeleteWorkout(e, id, io)
  {
    WithoutIdempotent(GetWorkouts(e, io.readFails), id);
  }

  /** When the delete's read succeeds, deleting an id nothing has leaves the
      readable collection as it was. */
  lemma DeleteAbsentIsNoOp(e: Entry, id: string, writeFails: bool)
    requires !HasId(GetWorkouts(e, false), id)
    ensures GetWorkouts(DeleteWorkout(e, id, Io(false, writeFails)).entry, false) == GetWorkouts(e, false)
  {
    WithoutAbsent(GetWorkouts(e, false), id);
  }

  /** When the delete's read succeeds, a delete changes the lookup of no
      other id. A failed read does not give this: see
      `DeleteOverUnreadableStoresEmpty`. */
  lemma DeleteKeepsOthers(e: Entry, id: string, other: string, writeFails: bool)
    requires other != id
    ensures GetWorkoutById(DeleteWorkout(e, id, Io(false, writeFails)).entry, other, false)
         == GetWorkoutById(e, other, false)
  {
    FindOtherAfterWithout(GetWorkouts(e, false), id, other);
  }

  /** Delete reads through `getWorkouts`, which swallows read errors; so when
      the entry cannot be read or parsed but the write succeeds, delete stores
      the empty collection over whatever was there. */
  lemma DeleteOverUnreadableStoresEmpty(e: Entry, id: string, io: Io)
    requires io.readFails || e.Corrupt?
    requires !io.writeFails
    ensures DeleteWorkout(e, id, io).entry == Stored([])
  {
  }
}
