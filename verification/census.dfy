/**
 The census table: rows as they come out of the CSV reader (every field
 possibly missing, the two coerced numeric columns already passed through
 `pd.to_numeric(errors='coerce')`), the fully-populated rows that cleaning
 keeps, and the cleaning step itself.
 */
module Census {
  import opened Wrappers

  /**
   One row as read; `None` is pandas' NaN. `age` and `hoursPerWeek` hold the
   result of numeric coercion, so an unparseable entry there is `None` too.
   The other numeric columns are not coerced: an entry in them is kept as its
   text, whatever it says, and only a missing entry is `None`.
   */
  datatype RawRecord = RawRecord(
    age: Option<int>,
    workclass: Option<string>,
    fnlwgt: Option<string>,
    education: Option<string>,
    educationNum: Option<string>,
    maritalStatus: Option<string>,
    occupation: Option<string>,
    relationship: Option<string>,
    race: Option<string>,
    sex: Option<string>,
    capitalGain: Option<string>,
    capitalLoss: Option<string>,
    hoursPerWeek: Option<int>,
    nativeCountry: Option<string>,
    salary: Option<string>)

  /** A row that survived cleaning: every one of the fifteen fields is present. */
  datatype Record = Record(
    age: int,
    workclass: string,
    fnlwgt: string,
    education: string,
    educationNum: string,
    maritalStatus: string,
    occupation: string,
    relationship: string,
    race: string,
    sex: string,
    capitalGain: string,
    capitalLoss: string,
    hoursPerWeek: int,
    nativeCountry: string,
    salary: string)

  /** The cleaned table. */
  type Table = seq<Record>

  /** No field of the row is missing (`dropna` keeps exactly these rows). */
  predicate Complete(raw: RawRecord)
  {
    && raw.age.Some? && raw.workclass.Some? && raw.fnlwgt.Some?
    && raw.education.Some? && raw.educationNum.Some? && raw.maritalStatus.Some?
    && raw.occupation.Some? && raw.relationship.Some? && raw.race.Some?
    && raw.sex.Some? && raw.capitalGain.Some? && raw.capitalLoss.Some?
    && raw.hoursPerWeek.Some? && raw.nativeCountry.Some? && raw.salary.Some?
  }

  /** A clean row seen as a raw row with every field present. */
  function Lift(rec: Record): (raw: RawRecord)
    ensures Complete(raw)
  {
    RawRecord(
      Some(rec.age), Some(rec.workclass), Some(rec.fnlwgt), Some(rec.education),
      Some(rec.educationNum), Some(rec.maritalStatus), Some(rec.occupation),
      Some(rec.relationship), Some(rec.race), Some(rec.sex), Some(rec.capitalGain),
      Some(rec.capitalLoss), Some(rec.hoursPerWeek), Some(rec.nativeCountry),
      Some(rec.salary))
  }

  /** The clean row a raw row stands for, or `None` when some field is missing. */
  function ToRecord(raw: RawRecord): (r: Option<Record>)
    ensures r.Some? <==> Complete(raw)
    ensures r.Some? ==> Lift(r.value) == raw
  {
    if Complete(raw) then
      Some(Record(
        raw.age.value, raw.workclass.value, raw.fnlwgt.value, raw.education.value,
        raw.educationNum.value, raw.maritalStatus.value, raw.occupation.value,
        raw.relationship.value, raw.race.value, raw.sex.value, raw.capitalGain.value,
        raw.capitalLoss.value, raw.hoursPerWeek.value, raw.nativeCountry.value,
        raw.salary.value))
    else None
  }

  /** Converting a clean row to a raw row and back loses nothing. */
  lemma ToRecordLift(rec: Record)
    ensures ToRecord(Lift(rec)) == Some(rec)
  {
  }

  /** `df.dropna()`: the complete rows, converted to clean rows, in their original order. */
  function Clean(raws: seq<RawRecord>): (t: Table)
    ensures |t| <= |raws|
    ensures forall i :: 0 <= i < |t| ==> Lift(t[i]) in raws
  {
    if |raws| == 0 then []
    else
      var front := Clean(raws[..|raws| - 1]);
      match ToRecord(raws[|raws| - 1])
      case Some(rec) => front + [rec]
      case None => front
  }

  /** Positions of the complete rows of `raws`, in increasing order. */
  function KeptIndices(raws: seq<RawRecord>): (ix: seq<nat>)
    ensures forall k :: 0 <= k < |ix| ==> ix[k] < |raws| && Complete(raws[ix[k]])
    ensures forall k, l :: 0 <= k < l < |ix| ==> ix[k] < ix[l]
    ensures forall i :: 0 <= i < |raws| && Complete(raws[i]) ==> i in ix
  {
    if |raws| == 0 then []
    else
      var front := KeptIndices(raws[..|raws| - 1]);
      if Complete(raws[|raws| - 1]) then front + [|raws| - 1] else front
  }

  /**
   Cleaning keeps exactly the complete rows, in order and unaltered: the k-th
   clean row is the k-th complete raw row, field for field.
   */
  lemma {:induction false} CleanKeepsCompleteRows(raws: seq<RawRecord>)
    ensures |Clean(raws)| == |KeptIndices(raws)|
    ensures forall k :: 0 <= k < |Clean(raws)| ==> Lift(Clean(raws)[k]) == raws[KeptIndices(raws)[k]]
  {
    if |raws| > 0 {
      CleanKeepsCompleteRows(raws[..|raws| - 1]);
    }
  }

  /** Cleaning leaves nothing exactly when no row is complete. */
  lemma CleanEmpty(raws: seq<RawRecord>)
    ensures |Clean(raws)| == 0 <==> forall i :: 0 <= i < |raws| ==> !Complete(raws[i])
  {
    CleanKeepsCompleteRows(raws);
    var ix := KeptIndices(raws);
    if |ix| > 0 {
      assert Complete(raws[ix[0]]);
    }
  }
}
