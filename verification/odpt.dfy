/**
 * JSON objects of the ODPT open-data feed as the Python handlers see them: each member is read
 * either with `key in obj` (presence) or with `obj.get(key)` (value, None when absent or null).
 */
module Odpt {
  import opened Wrappers

  /** One member of a JSON object: the key is absent, present with null, or present with a string. */
  datatype Field = Missing | Null | Text(s: string)

  /** `obj.get(key)`. */
  function Get(f: Field): Option<string>
  {
    if f.Text? then Some(f.s) else None
  }

  /**
   * A member whose value is an array or an object: absent, present with null, or present.
   * The handlers read these with `obj.get(key, default)`, which gives the default only when the
   * key is absent; a null value comes back as None and fails at its first use.
   */
  datatype Member<T> = Absent | NullMember | Present(value: T)

  /** `key in obj`. */
  predicate Has(f: Field)
  {
    !f.Missing?
  }

  /** Python truthiness of a value that is None or a string. */
  predicate Truthy(v: Option<string>)
  {
    v.Some? && v.value != ""
  }

  /** An `odpt:trainTimetableObject` entry. */
  datatype RawStop = RawStop(
    departureStation: Field,
    arrivalStation: Field,
    departureTime: Field,
    arrivalTime: Field)

  /** An `odpt:TrainTimetable` object; `stops` is its `odpt:trainTimetableObject` member. */
  datatype RawTrain = RawTrain(
    date: Field,
    issued: Field,
    sameAs: Field,
    railway: Field,
    calendar: Field,
    operator: Field,
    trainType: Field,
    trainNumber: Field,
    originStation: Field,
    railDirection: Field,
    destinationStation: Field,
    stops: Member<seq<RawStop>>)

  /**
   * Whether `for stop_info in train_info.get("odpt:trainTimetableObject", [])` can start:
   * iterating a null value raises `TypeError`.
   */
  predicate StopsIterable(t: RawTrain)
  {
    !t.stops.NullMember?
  }

  /** The stops that loop visits when it can start: none when the member is absent. */
  function StopsOf(t: RawTrain): seq<RawStop>
  {
    if t.stops.Present? then t.stops.value else []
  }

  /**
   * An `odpt:TrainInformation` object; `informationText` is its `odpt:trainInformationText`
   * member, a map from language code to text.
   */
  datatype RawInfo = RawInfo(
    date: Field,
    valid: Field,
    sameAs: Field,
    railway: Field,
    operator: Field,
    timeOfOrigin: Field,
    informationText: Member<map<string, string>>)

  /**
   * Whether `info.get("odpt:trainInformationText", {}).get("ja")` can be evaluated: calling
   * `.get` on a null value raises `AttributeError`.
   */
  predicate TextReadable(raw: RawInfo)
  {
    !raw.informationText.NullMember?
  }

  /** The normalised status record both `get_train_status` functions return, one per raw object. */
  datatype StatusInfo = StatusInfo(
    date: Option<string>,
    valid: Option<string>,
    sameAs: Option<string>,
    railway: Option<string>,
    operator: Option<string>,
    timeOfOrigin: Option<string>,
    status: Option<string>)

  /** `info.get("odpt:trainInformationText", {}).get("ja")` when the text is readable. */
  function JaText(text: Member<map<string, string>>): Option<string>
  {
    if text.Present? && "ja" in text.value then Some(text.value["ja"]) else None
  }

  function ToStatusInfo(raw: RawInfo): StatusInfo
  {
    StatusInfo(Get(raw.date), Get(raw.valid), Get(raw.sameAs), Get(raw.railway),
               Get(raw.operator), Get(raw.timeOfOrigin), JaText(raw.informationText))
  }

}
