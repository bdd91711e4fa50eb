/**
 The pure logic of the workout collection once storage and serialisation are
 stripped away: the collection is an ordered sequence of workouts, keyed by
 `id`, and the service's operations are the array methods `findIndex`, `find`
 and `filter` plus the replace-or-append step of a save.
 */
module WorkoutList {
  import opened Wrappers
  import opened Types

  /** Some record of `ws` has id `id`. */
  predicate HasId(ws: seq<Workout>, id: string) {
    exists k | 0 <= k < |ws| :: ws[k].id == id
  }

  /** No two records of `ws` share an id. */
  predicate UniqueIds(ws: seq<Workout>) {
    forall i, j | 0 <= i < j < |ws| :: ws[i].id != ws[j].id
  }

  /** The number of records of `ws` whose id is `id`. */
  function CountId(ws: seq<Workout>, id: string): nat {
    if |ws| == 0 then 0
    else (if ws[0].id == id then 1 else 0) + CountId(ws[1..], id)
  }

  /** `findIndex(w => w.id === id)`: the position of the first record with
      that id, or -1 when there is none. */
  function FindIndex(ws: seq<Workout>, id: string): (r: int)
    ensures -1 <= r < |ws|
    ensures r == -1 <==> !HasId(ws, id)
    ensures r >= 0 ==> ws[r].id == id
    ensures r >= 0 ==> forall j | 0 <= j < r :: ws[j].id != id
  {
    if |ws| == 0 then -1
    else if ws[0].id == id then 0
    else
      var k := FindIndex(ws[1..], id);
      if k < 0 then
        assert forall j | 1 <= j < |ws| :: ws[j] == ws[1..][j - 1];
        -1
      else
        assert ws[k + 1] == ws[1..][k];
        assert forall j | 1 <= j <= k :: ws[j] == ws[1..][j - 1];
        k + 1
  }

  /** `find(w => w.id === id)`: the first record with that id, if any. */
  function Find(ws: seq<Workout>, id: string): (r: Option<Workout>)
    ensures r.None? <==> !HasId(ws, id)
    ensures r.Some? ==> r.value.id == id && r.value in ws
  {
    if |ws| == 0 then None
    else if ws[0].id == id then Some(ws[0])
    else
      assert forall j | 1 <= j < |ws| :: ws[j] == ws[1..][j - 1];
      Find(ws[1..], id)
  }

  /** The save step: replace the first record with the new workout's id in
      place, or append the workout when no record has its id. */
  function Upsert(ws: seq<Workout>, w: Workout): (r: seq<Workout>)
    ensures HasId(ws, w.id) ==> |r| == |ws| && r[FindIndex(ws, w.id)] == w
    ensures !HasId(ws, w.id) ==> |r| == |ws| + 1 && r[|ws|] == w
    ensures forall k | 0 <= k < |ws| && k != FindIndex(ws, w.id) :: r[k] == ws[k]
  {
    var i := FindIndex(ws, w.id);
    if i >= 0 then ws[i := w] else ws + [w]
  }

  /** `filter(w => w.id !== id)`: every record whose id differs, in order. */
  function Without(ws: seq<Workout>, id: string): (r: seq<Workout>)
    ensures !HasId(r, id)
    ensures |r| <= |ws|
    ensures forall x | x in r :: x in ws
    ensures forall x | x in ws && x.id != id :: x in r
  {
    if |ws| == 0 then []
    else
      assert forall x | x in ws :: x == ws[0] || x in ws[1..];
      if ws[0].id == id then Without(ws[1..], id)
      else [ws[0]] + Without(ws[1..], id)
  }

  // ---------------------------------------------------------------------------
  // Lookup

  /** `find` and `findIndex` agree: the record `find` returns is the one at the
      index `findIndex` returns, and `find` returns nothing exactly when
      `findIndex` returns -1. */
  lemma {:induction false} FindAtFindIndex(ws: seq<Workout>, id: string)
    ensures Find(ws, id) == (if FindIndex(ws, id) < 0 then None else Some(ws[FindIndex(ws, id)]))
  {
    if |ws| > 0 && ws[0].id != id {
      FindAtFindIndex(ws[1..], id);
    }
  }

  /** Under unique ids a record found by id is the only record with that id. */
  lemma FindUniqueIsOnly(ws: seq<Workout>, id: string, k: nat)
    requires UniqueIds(ws)
    requires k < |ws| && ws[k].id == id
    ensures Find(ws, id) == Some(ws[k])
  {
    FindAtFindIndex(ws, id);
  }

  // ---------------------------------------------------------------------------
  // Save

  /** Round trip: after saving `w`, looking up `w.id` yields exactly `w`, even
      when the collection already held several records with that id, because
      the replaced record is the first one lookup reaches. */
  lemma FindAfterUpsert(ws: seq<Workout>, w: Workout)
    ensures Find(Upsert(ws, w), w.id) == Some(w)
  {
    var r := Upsert(ws, w);
    FindAtFindIndex(r, w.id);
    var i := FindIndex(ws, w.id);
    if i >= 0 {
      assert r[i].id == w.id;
    } else {
      assert r[|ws|].id == w.id;
    }
  }

  /** Saving one workout leaves the lookup of every other id unchanged. */
  lemma FindOtherAfterUpsert(ws: seq<Workout>, w: Workout, id: string)
    requires id != w.id
    ensures Find(Upsert(ws, w), id) == Find(ws, id)
  {
    var r := Upsert(ws, w);
    FindAtFindIndex(r, id);
    FindAtFindIndex(ws, id);
    var i := FindIndex(ws, w.id);
    var a := FindIndex(ws, id);
    var b := FindIndex(r, id);
    assert forall k | 0 <= k < |ws| :: r[k].id == id <==> ws[k].id == id;
    if a >= 0 {
      assert b >= 0 && b <= a;
    }
    if b >= 0 {
      assert b < |ws| && ws[b].id == id;
      assert a >= 0 && a <= b;
    }
  }

  /** Saving keeps the collection free of duplicate ids. */
  lemma UpsertKeepsIdsUnique(ws: seq<Workout>, w: Workout)
    requires UniqueIds(ws)
    ensures UniqueIds(Upsert(ws, w))
  {
  }

  lemma {:induction false} CountIdAppend(a: seq<Workout>, b: seq<Workout>, id: string)
    ensures CountId(a + b, id) == CountId(a, id) + CountId(b, id)
  {
    if |a| > 0 {
      assert (a + b)[1..] == a[1..] + b;
      CountIdAppend(a[1..], b, id);
    } else {
      assert a + b == b;
    }
  }

  lemma {:induction false} CountIdZero(ws: seq<Workout>, id: string)
    ensures CountId(ws, id) == 0 <==> !HasId(ws, id)
  {
    if |ws| > 0 {
      CountIdZero(ws[1..], id);
      assert forall j | 1 <= j < |ws| :: ws[j] == ws[1..][j - 1];
      if HasId(ws[1..], id) {
        var k :| 0 <= k < |ws[1..]| && ws[1..][k].id == id;
        assert ws[k + 1].id == id;
      }
    }
  }

  /** Replacing one record by another with the same id keeps every id count. */
  lemma {:induction false} CountIdSameIdUpdate(ws: seq<Workout>, i: nat, w: Workout, id: string)
    requires i < |ws| && ws[i].id == w.id
    ensures CountId(ws[i := w], id) == CountId(ws, id)
  {
    if i > 0 {
      assert ws[i := w][1..] == ws[1..][i - 1 := w];
      CountIdSameIdUpdate(ws[1..], i - 1, w, id);
    } else {
      assert ws[i := w][1..] == ws[1..];
    }
  }

  /** Saving never creates a duplicate: afterwards the saved id occurs once if
      it was absent, and as often as before if it was present; no other id's
      count changes. */
  lemma UpsertCounts(ws: seq<Workout>, w: Workout, id: string)
    ensures CountId(Upsert(ws, w), id) ==
      if id == w.id && CountId(ws, id) == 0 then 1 else CountId(ws, id)
  {
    var i := FindIndex(ws, w.id);
    CountIdZero(ws, w.id);
    if i >= 0 {
      CountIdSameIdUpdate(ws, i, w, id);
    } else {
      CountIdAppend(ws, [w], id);
      assert [w][1..] == [];
    }
  }

  /** Saving a batch of workouts, one after the other. */
  function SaveAll(ws: seq<Workout>, batch: seq<Workout>): seq<Workout>
    decreases |batch|
  {
    if |batch| == 0 then ws else SaveAll(Upsert(ws, batch[0]), batch[1..])
  }

  /** Repeated saves under one id: looking the id up afterwards yields the
      value of the last save, whatever the collection held before. */
  lemma {:induction false} SaveAllFindLast(ws: seq<Workout>, batch: seq<Workout>, id: string)
    requires |batch| > 0
    requires forall k | 0 <= k < |batch| :: batch[k].id == id
    ensures Find(SaveAll(ws, batch), id) == Some(batch[|batch| - 1])
    decreases |batch|
  {
    if |batch| == 1 {
      assert batch[1..] == [];
      FindAfterUpsert(ws, batch[0]);
    } else {
      SaveAllFindLast(Upsert(ws, batch[0]), batch[1..], id);
    }
  }

  /** Repeated saves under one id leave a single record with that id, holding
      the value of the last save, when at most one record had the id before
      (a save never removes duplicates that are already stored). */
  lemma {:induction false} SaveAllSameId(ws: seq<Workout>, batch: seq<Workout>, id: string)
    requires |batch| > 0
    requires forall k | 0 <= k < |batch| :: batch[k].id == id
    requires CountId(ws, id) <= 1
    ensures CountId(SaveAll(ws, batch), id) == 1
    ensures Find(SaveAll(ws, batch), id) == Some(batch[|batch| - 1])
    decreases |batch|
  {
    UpsertCounts(ws, batch[0], id);
    SaveAllFindLast(ws, batch, id);
    if |batch| == 1 {
      assert batch[1..] == [];
    } else {
      SaveAllSameId(Upsert(ws, batch[0]), batch[1..], id);
    }
  }

  // ---------------------------------------------------------------------------
  // Delete

  /** Filtering distributes over concatenation; with `WithoutSingleton` this
      pins down that the kept records stay in their original relative order. */
  lemma {:induction false} WithoutAppend(a: seq<Workout>, b: seq<Workout>, id: string)
    ensures Without(a + b, id) == Without(a, id) + Without(b, id)
  {
    if |a| > 0 {
      assert (a + b)[0] == a[0];
      assert (a + b)[1..] == a[1..] + b;
      WithoutAppend(a[1..], b, id);
    } else {
      assert a + b == b;
    }
  }

  /** A single record is kept exactly when its id differs. */
  lemma WithoutSingleton(x: Workout, id: string)
    ensures Without([x], id) == if x.id == id then [] else [x]
  {
    assert [x][1..] == [];
  }

  /** Deleting an id that no record has leaves the collection unchanged. */
  lemma {:induction false} WithoutAbsent(ws: seq<Workout>, id: string)
    requires !HasId(ws, id)
    ensures Without(ws, id) == ws
  {
    if |ws| > 0 {
      assert ws[0].id != id;
      assert forall j | 1 <= j < |ws| :: ws[j] == ws[1..][j - 1];
      WithoutAbsent(ws[1..], id);
      assert [ws[0]] + ws[1..] == ws;
    }
  }

  /** Delete is idempotent. */
  lemma {:induction false} WithoutIdempotent(ws: seq<Workout>, id: string)
    ensures Without(Without(ws, id), id) == Without(ws, id)
  {
    WithoutAbsent(Without(ws, id), id);
  }

  /** Delete shrinks the collection by exactly the number of matching records. */
  lemma {:induction false} WithoutLength(ws: seq<Workout>, id: string)
    ensures |Without(ws, id)| == |ws| - CountId(ws, id)
  {
    if |ws| > 0 {
      WithoutLength(ws[1..], id);
    }
  }

  /** Delete leaves the lookup of every other id unchanged. */
  lemma {:induction false} FindOtherAfterWithout(ws: seq<Workout>, id: string, other: string)
    requires other != id
    ensures Find(Without(ws, id), other) == Find(ws, other)
  {
    if |ws| > 0 {
      FindOtherAfterWithout(ws[1..], id, other);
      if ws[0].id != id {
        assert ([ws[0]] + Without(ws[1..], id))[1..] == Without(ws[1..], id);
      }
    }
  }

  /** Delete keeps the collection free of duplicate ids. */
  lemma {:induction false} WithoutKeepsIdsUnique(ws: seq<Workout>, id: string)
    requires UniqueIds(ws)
    ensures UniqueIds(Without(ws, id))
  {
    if |ws| > 0 {
      assert UniqueIds(ws[1..]);
      WithoutKeepsIdsUnique(ws[1..], id);
      if ws[0].id != id {
        var rest := Without(ws[1..], id);
        assert forall x | x in rest :: x in ws[1..];
        assert forall x | x in ws[1..] :: x.id != ws[0].id;
        assert forall j | 0 <= j < |rest| :: rest[j] in rest;
      }
    }
  }
}
