# Step Up workout storage, modelled in Dafny

Step Up is a workout-tracking app. It keeps every workout (templates, active
sessions and completed sessions) in one JSON array, stored under the key
`stepup_workouts` of the device's key-value store. `StorageService` has four
operations over that array:

- `saveWorkout` is an upsert keyed by `id`. It replaces the first record with
  the workout's id in place, or appends the workout if no record has that id.
- `getWorkouts` returns the stored array. A missing entry, or any failure to
  read or parse it, gives an empty array.
- `getWorkoutById` returns the first record with the id, or nothing.
- `deleteWorkout` drops every record with the id.

This project models those operations and the record types they store.

- `wrappers.dfy` (`Wrappers`) defines `Option`. It is used for optional
  fields and for lookups that find nothing.
- `types.dfy` (`Types`) holds the records. A `Workout` holds an ordered
  sequence of `Exercise`s, and an `Exercise` holds an ordered sequence of
  `Set`s. Each of these records has a string `id`. `notes` and `feeling` are
  `Option`s. `feeling` is carried as is: the type's comment marks it as a
  1–10 scale but never checks that. The `status` union is the closed datatype
  `Status`. `StatusName` and `ParseStatus` give its serialised form, the
  string literals the stored JSON holds; no modelled operation calls them,
  because serialisation itself is abstracted away.
- `workout_list.dfy` (`WorkoutList`) holds the pure collection logic on
  `seq<Workout>`:
  - `findIndex` is `FindIndex`; it returns -1 when nothing matches, as
    JavaScript's `findIndex` does.
  - `find` is `Find`.
  - The replace-or-append step is `Upsert`.
  - `filter` is `Without`.
  - The module also proves lemmas: round trips, frame properties, id
    uniqueness, id counts, order preservation and idempotence.
- `storage.dfy` (`StorageService`) models the stored entry:
  - The stored entry is `Missing`, `Stored(workouts)` or `Corrupt`.
  - Whether the store's read or write call rejects is an `Io` parameter.
  - Each of the four service operations is a pure function from the entry to
    a result. For save and delete, the result is the new entry and whether
    the call completed or rethrew.

Behaviour of the code that callers may not expect:

- Save replaces only the *first* record with a matching id. Duplicates that
  were already stored survive. A lookup still returns the saved value
  (`WorkoutList.FindAfterUpsert`), and saving never adds a second copy of an
  id (`WorkoutList.UpsertCounts`).
- Delete removes *every* record with the id, not just one.
- Save reads the entry itself. A failed read or parse makes it throw, and the
  entry stays as it was. Delete reads through `getWorkouts`, which swallows
  such failures. So a delete over an unreadable entry writes an empty array
  over it (`StorageService.DeleteOverUnreadableStoresEmpty`).

## Model

| member | source | states |
|---|---|---|
| `Types.StatusName` | types/index.ts:25 | every status is stored as one of the three literals `active`, `completed`, `template` |
| `Types.ParseStatus` | types/index.ts:25 | a stored string is a status exactly when it is one of the three literals |
| `Types.StatusRoundTrip` | types/index.ts:25 | a status stored as its name reads back as itself, and a parsed name is the status's own name |
| `WorkoutList.FindIndex` | services/storage.ts:13 | the result is -1 exactly when no record has the id; otherwise it is the position of a record with the id, and no earlier record has it |
| `WorkoutList.Find` | services/storage.ts:40 | the result is none exactly when no record has the id; a found record has the id and comes from the collection |
| `WorkoutList.FindAtFindIndex` | services/storage.ts:40 | `find` returns the record at the index `findIndex` returns, so a lookup yields the first record with the id |
| `WorkoutList.FindUniqueIsOnly` | services/storage.ts:40 | when ids are unique, looking up a record's id yields that record |
| `WorkoutList.Upsert` | services/storage.ts:13-18 | with the id present, the length is kept and the workout sits at the first match; with it absent, the length grows by one and the workout is last; every other position keeps its record |
| `WorkoutList.FindAfterUpsert` | services/storage.ts:13-17 | after a save, looking up the saved id yields exactly the saved workout, even when duplicates were already stored |
| `WorkoutList.FindOtherAfterUpsert` | services/storage.ts:13-18 | a save leaves the lookup of every other id unchanged |
| `WorkoutList.UpsertKeepsIdsUnique` | services/storage.ts:13-18 | pairwise distinct ids stay pairwise distinct after a save |
| `WorkoutList.UpsertCounts` | services/storage.ts:13-18 | after a save the saved id occurs once if it was absent and as often as before if present; no other id's count changes |
| `WorkoutList.SaveAllFindLast` | services/storage.ts:13-18 | after repeated saves under one id, looking the id up yields the last saved value, whatever was stored before |
| `WorkoutList.SaveAllSameId` | services/storage.ts:13-18 | when at most one record had the id before, repeated saves under that id leave exactly one record with it, holding the last saved value |
| `WorkoutList.Without` | services/storage.ts:50 | no record with the id remains, and a record is kept exactly when it was there and has a different id |
| `WorkoutList.WithoutAppend` | services/storage.ts:50 | delete distributes over concatenation, so kept records keep their relative order |
| `WorkoutList.WithoutSingleton` | services/storage.ts:50 | a single record is kept exactly when its id differs |
| `WorkoutList.WithoutAbsent` | services/storage.ts:50 | deleting an id no record has leaves the collection unchanged |
| `WorkoutList.WithoutIdempotent` | services/storage.ts:50 | deleting an id twice gives the same collection as deleting it once |
| `WorkoutList.WithoutLength` | services/storage.ts:50 | delete shrinks the collection by exactly the number of records with the id |
| `WorkoutList.FindOtherAfterWithout` | services/storage.ts:50 | delete leaves the lookup of every other id unchanged |
| `WorkoutList.WithoutKeepsIdsUnique` | services/storage.ts:50 | pairwise distinct ids stay pairwise distinct after a delete |
| `StorageService.LoadForSave` | services/storage.ts:9-10 | the read inside a save fails exactly when the read rejects or the text does not parse; nothing stored reads as empty |
| `StorageService.GetWorkouts` | services/storage.ts:27-35 | the result is what the save-side read would load, and empty whenever that read would fail |
| `StorageService.GetWorkoutById` | services/storage.ts:37-45 | a found record has the id and is in the stored collection; nothing is found exactly when no stored record has the id |
| `StorageService.SaveWorkout` | services/storage.ts:7-25 | the save completes exactly when read, parse and write succeed; a failed save leaves the entry unchanged; after a completed save, the entry holds a stored array, the stored collection is the upsert of the previous one, lookup yields the saved workout, and the length grows by one only for a new id |
| `StorageService.DeleteWorkout` | services/storage.ts:47-56 | the delete fails only on a failed write and then leaves the entry unchanged; after a completed delete, the entry holds a stored array, no record with the id remains, and the rest is the filtered collection |
| `StorageService.MissingReadsEmpty` | services/storage.ts:30 | a missing entry reads as the empty collection and finds nothing |
| `StorageService.SaveKeepsOthers` | services/storage.ts:13-20 | a completed save leaves the lookup of every other id unchanged |
| `StorageService.SaveKeepsIdsUnique` | services/storage.ts:13-20 | a completed save keeps stored ids unique |
| `StorageService.DeleteIdempotent` | services/storage.ts:49-51 | when the first delete's write and the second delete's read and write succeed, deleting an id twice stores the same entry as deleting it once, whether or not the first delete's read succeeds |
| `StorageService.DeleteAbsentIsNoOp` | services/storage.ts:49-51 | when the delete's read succeeds, deleting an id nothing has leaves the readable collection unchanged |
| `StorageService.DeleteKeepsOthers` | services/storage.ts:49-51 | when the delete's read succeeds, a delete leaves the lookup of every other id unchanged |
| `StorageService.DeleteOverUnreadableStoresEmpty` | services/storage.ts:47-56 | when the entry cannot be read or parsed and the write succeeds, delete stores the empty collection |

## Left out

- The key-value store calls, JSON parse and stringify, and error logging are
  not modelled. The entry is an abstract `Entry`, and a read or write
  rejection is an `Io` flag. Serialisation is taken to round-trip exactly.
  A rejected write is taken to leave the stored entry unchanged.
- The async/Promise structure is not modelled. Neither is the lost-update race
  between two concurrent read-modify-write calls, because it arises only
  from concurrency.
- Stored text that parses to something other than an array of workouts is
  not modelled. Examples are `"null"` or a record without an id. Only text
  the service itself wrote, or text that fails to parse, is modelled.
- Numeric fields are reals, not IEEE doubles. The service never computes
  with them. JSON's handling of `NaN` and infinities is not modelled.
- `date` is an opaque string; ISO-8601 meaning is not modelled.
- The `User` record is left out because no modelled operation uses it.
- The template, active and completed lifecycle is left out: instantiation,
  set toggling and editing, adding and removing sets, reordering exercises,
  finishing a session and template validation. That logic lives in screen
  code that is not part of this model, so only the closed `Status` values
  are modelled.
- The workout card component is left out because it is presentation only.
- The status filters that screens apply to `getWorkouts` are left out
  because they are caller code, not part of the service.
