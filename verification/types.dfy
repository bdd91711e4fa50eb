/**
 The records of the workout tracker: a workout holds an ordered sequence of
 exercises, and each exercise holds an ordered sequence of sets. Every record
 carries a string `id`. Optional fields are `Option`s.
 */
module Types {
  import opened Wrappers

  /** A numeric field of a record. The storage service compares and copies
      numbers but never computes with them, so they are modelled as reals. */
  type Number = real

  /** One logged attempt within an exercise. */
  datatype Set = Set(id: string, reps: Number, weight: Number, completed: bool)

  /** An ordered, named group of sets. `feeling` is meant to be on a 1 to 10
      scale, but nothing enforces it, so any number is carried. */
  datatype Exercise = Exercise(
    id: string,
    name: string,
    sets: seq<Set>,
    restTimeSeconds: Number,
    notes: Option<string>,
    feeling: Option<Number>)

  /** The closed set of values of a workout's `status` field. */
  datatype Status = Active | Completed | Template

  /** The root record and the unit of persistence; `date` is an opaque ISO string. */
  datatype Workout = Workout(
    id: string,
    name: string,
    date: string,
    exercises: seq<Exercise>,
    durationSeconds: Number,
    feeling: Option<Number>,
    notes: Option<string>,
    status: Status)

  /** The string literal a status is stored as. */
  function StatusName(s: Status): (r: string)
    ensures r == "active" || r == "completed" || r == "template"
  {
    match s
    case Active => "active"
    case Completed => "completed"
    case Template => "template"
  }

  /** Reads a stored status string; only the three literals are statuses. */
  function ParseStatus(t: string): (r: Option<Status>)
    ensures r.Some? <==> (t == "active" || t == "completed" || t == "template")
  {
    if t == "active" then Some(Active)
    else if t == "completed" then Some(Completed)
    else if t == "template" then Some(Template)
    else None
  }

  /** Status names and parsing are mutually inverse: every status survives
      being stored as its name, and every name that parses is a status's name. */
  lemma StatusRoundTrip(s: Status, t: string)
    ensures ParseStatus(StatusName(s)) == Some(s)
    ensures ParseStatus(t) == Some(s) ==> StatusName(s) == t
  {
    match s
    case Active =>
    case Completed =>
    case Template =>
  }
}
