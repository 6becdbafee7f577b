/**
 * API/TokyoMetro.py: reshaping of the ODPT train timetable and train information feeds.
 * The HTTP request and JSON decoding are outside the model; the decoded list is the input.
 */
module ApiTokyoMetro {
  import opened Wrappers
  import opened Odpt

  /**
   * A kept stop. `departureTime` / `arrivalTime` are `Missing` exactly when the output dict
   * lacks the `departure_time` / `arrival_time` key.
   */
  datatype Stop = Stop(station: string, departureTime: Field, arrivalTime: Field)

  datatype Train = Train(
    date: Option<string>,
    issued: Option<string>,
    sameAs: Option<string>,
    railway: Option<string>,
    calendar: Option<string>,
    operator: Option<string>,
    trainType: Option<string>,
    trainNumber: Option<string>,
    originStation: Option<string>,
    direction: Option<string>,
    destinationStation: Option<string>,
    stops: seq<Stop>)

  /**
   * One raw stop: the station comes from `odpt:departureStation` whenever that key is present
   * (even when its value is null), otherwise from `odpt:arrivalStation`; the stop is dropped
   * unless that station is a non-empty string. Both times are copied as they are.
   */
  function ToStop(s: RawStop): (r: Option<Stop>)
    ensures Has(s.departureStation) ==> (r.Some? <==> Truthy(Get(s.departureStation)))
    ensures Has(s.departureStation) && r.Some? ==> r.value.station == s.departureStation.s
    ensures !Has(s.departureStation) ==> (r.Some? <==> Truthy(Get(s.arrivalStation)))
    ensures !Has(s.departureStation) && r.Some? ==> r.value.station == s.arrivalStation.s
    ensures r.Some? ==> r.value.departureTime == s.departureTime && r.value.arrivalTime == s.arrivalTime
  {
    var station := if Has(s.departureStation) then Get(s.departureStation) else Get(s.arrivalStation);
    if Truthy(station) then Some(Stop(station.value, s.departureTime, s.arrivalTime)) else None
  }

  /** The stop list of one train: stops without a station are dropped, the rest kept in order. */
  function {:induction false} NormalizeStops(stops: seq<RawStop>): (r: seq<Stop>)
    decreases |stops|
    ensures |r| <= |stops|
    ensures forall j :: 0 <= j < |r| ==> r[j].station != ""
    ensures forall j :: 0 <= j < |r| ==> exists i :: 0 <= i < |stops| && ToStop(stops[i]) == Some(r[j])
    ensures forall i :: 0 <= i < |stops| && ToStop(stops[i]).Some? ==> ToStop(stops[i]).value in r
    ensures (forall i :: 0 <= i < |stops| ==> ToStop(stops[i]).Some?) ==> |r| == |stops|
  {
    if |stops| == 0 then []
    else
      var rest := NormalizeStops(stops[1..]);
      assert forall i :: 1 <= i < |stops| ==> stops[i] == stops[1..][i - 1];
      match ToStop(stops[0])
      case Some(stop) => [stop] + rest
      case None => rest
  }

  /** Normalisation works stop by stop, so the kept stops keep their source order. */
  lemma {:induction false} NormalizeStopsAppend(a: seq<RawStop>, b: seq<RawStop>)
    ensures NormalizeStops(a + b) == NormalizeStops(a) + NormalizeStops(b)
    decreases |a|
  {
    if |a| == 0 {
      assert a + b == b;
    } else {
      assert (a + b)[0] == a[0];
      assert (a + b)[1..] == a[1..] + b;
      NormalizeStopsAppend(a[1..], b);
    }
  }

  function ToTrain(t: RawTrain): Train
  {
    Train(Get(t.date), Get(t.issued), Get(t.sameAs), Get(t.railway), Get(t.calendar),
          Get(t.operator), Get(t.trainType), Get(t.trainNumber), Get(t.originStation),
          Get(t.railDirection), Get(t.destinationStation), NormalizeStops(StopsOf(t)))
  }

  /**
   * `get_train_timetable`: exactly one record per raw train, in the same order, each copying the
   * train's members and normalising its stops. None when some train's stop list is null: the
   * `TypeError` from iterating it is not a `RequestException` and escapes the function.
   */
  function TrainTimetable(data: seq<RawTrain>): (r: Option<seq<Train>>)
    ensures r.None? <==> exists i :: 0 <= i < |data| && !StopsIterable(data[i])
    ensures r.Some? ==> |r.value| == |data|
    ensures r.Some? ==> forall i :: 0 <= i < |data| ==> r.value[i].stops == NormalizeStops(StopsOf(data[i]))
    ensures r.Some? ==> forall i :: 0 <= i < |data| ==>
      r.value[i].date == Get(data[i].date) && r.value[i].issued == Get(data[i].issued)
      && r.value[i].sameAs == Get(data[i].sameAs) && r.value[i].railway == Get(data[i].railway)
      && r.value[i].calendar == Get(data[i].calendar) && r.value[i].operator == Get(data[i].operator)
    ensures r.Some? ==> forall i :: 0 <= i < |data| ==>
      r.value[i].trainType == Get(data[i].trainType) && r.value[i].trainNumber == Get(data[i].trainNumber)
      && r.value[i].originStation == Get(data[i].originStation)
      && r.value[i].direction == Get(data[i].railDirection)
      && r.value[i].destinationStation == Get(data[i].destinationStation)
  {
    if exists i :: 0 <= i < |data| && !StopsIterable(data[i]) then None
    else Some(seq(|data|, i requires 0 <= i < |data| => ToTrain(data[i])))
  }

  /**
   * `get_train_status`: one status record per raw object, copying its members; the status is the
   * Japanese text. None when some object's information text is null: the `AttributeError` from
   * `.get("ja")` is not a `RequestException` and escapes the function.
   */
  function TrainStatus(data: seq<RawInfo>): (r: Option<seq<StatusInfo>>)
    ensures r.None? <==> exists i :: 0 <= i < |data| && !TextReadable(data[i])
    ensures r.Some? ==> |r.value| == |data|
    ensures r.Some? ==> forall i :: 0 <= i < |data| ==>
      (r.value[i].status.Some? <==> data[i].informationText.Present? && "ja" in data[i].informationText.value)
    ensures r.Some? ==> forall i :: 0 <= i < |data| && r.value[i].status.Some? ==>
      r.value[i].status.value == data[i].informationText.value["ja"]
    ensures r.Some? ==> forall i :: 0 <= i < |data| ==>
      r.value[i].date == Get(data[i].date) && r.value[i].valid == Get(data[i].valid)
      && r.value[i].sameAs == Get(data[i].sameAs) && r.value[i].railway == Get(data[i].railway)
      && r.value[i].operator == Get(data[i].operator) && r.value[i].timeOfOrigin == Get(data[i].timeOfOrigin)
  {
    if exists i :: 0 <= i < |data| && !TextReadable(data[i]) then None
    else Some(seq(|data|, i requires 0 <= i < |data| => ToStatusInfo(data[i])))
  }

}
