/**
 * TokyoMetro.py: the earlier top-level version of the feed reshaping. Its timetable keeps one
 * `time` and one `station` per stop, chosen with departure-over-arrival precedence.
 */
module TokyoMetro {
  import opened Wrappers
  import opened Odpt
  import ApiTokyoMetro

  datatype Stop = Stop(time: Option<string>, station: Option<string>)

  datatype Train = Train(
    trainNumber: Option<string>,
    trainType: Option<string>,
    railway: Option<string>,
    originStation: Option<string>,
    destinationStation: Option<string>,
    direction: Option<string>,
    stops: seq<Stop>)

  /**
   * What one raw stop becomes. `KeyError` is the exception raised when the station key
   * that goes with the chosen time key is absent; nothing in the function catches it.
   */
  datatype StopResult = Kept(stop: Stop) | Skipped | KeyError

  /**
   * One raw stop: with a departure time, time and station come from the departure fields even
   * when arrival fields exist; otherwise, with an arrival time, from the arrival fields;
   * a stop with neither time key is dropped.
   */
  function ConvertStop(s: RawStop): (r: StopResult)
    ensures Has(s.departureTime) ==> (r.KeyError? <==> !Has(s.departureStation))
    ensures Has(s.departureTime) && r.Kept? ==>
      r.stop == Stop(Get(s.departureTime), Get(s.departureStation))
    ensures !Has(s.departureTime) && Has(s.arrivalTime) ==> (r.KeyError? <==> !Has(s.arrivalStation))
    ensures !Has(s.departureTime) && Has(s.arrivalTime) && r.Kept? ==>
      r.stop == Stop(Get(s.arrivalTime), Get(s.arrivalStation))
    ensures r.Skipped? <==> !Has(s.departureTime) && !Has(s.arrivalTime)
  {
    if Has(s.departureTime) then
      if Has(s.departureStation) then Kept(Stop(Get(s.departureTime), Get(s.departureStation)))
      else KeyError
    else if Has(s.arrivalTime) then
      if Has(s.arrivalStation) then Kept(Stop(Get(s.arrivalTime), Get(s.arrivalStation)))
      else KeyError
    else Skipped
  }

  /** The stop list of one train, or None when some stop raises `KeyError`. */
  function {:induction false} ConvertStops(stops: seq<RawStop>): (r: Option<seq<Stop>>)
    decreases |stops|
    ensures r.None? <==> exists i :: 0 <= i < |stops| && ConvertStop(stops[i]).KeyError?
    ensures r.Some? ==> |r.value| <= |stops|
  {
    if |stops| == 0 then Some([])
    else
      var rest := ConvertStops(stops[1..]);
      assert forall i :: 1 <= i < |stops| ==> stops[i] == stops[1..][i - 1];
      match ConvertStop(stops[0])
      case KeyError => None
      case Skipped => rest
      case Kept(stop) => if rest.Some? then Some([stop] + rest.value) else None
  }

  /** Without a `KeyError`, the kept stops are exactly the converted stops that have a time key. */
  lemma {:induction false} ConvertStopsKept(stops: seq<RawStop>)
    requires ConvertStops(stops).Some?
    ensures forall j :: 0 <= j < |ConvertStops(stops).value| ==>
      exists i :: 0 <= i < |stops| && ConvertStop(stops[i]) == Kept(ConvertStops(stops).value[j])
    ensures forall i :: 0 <= i < |stops| && ConvertStop(stops[i]).Kept? ==>
      ConvertStop(stops[i]).stop in ConvertStops(stops).value
    decreases |stops|
  {
    if |stops| > 0 {
      var tail := stops[1..];
      assert forall i :: 1 <= i < |stops| ==> stops[i] == tail[i - 1];
      assert ConvertStops(tail).Some?;
      ConvertStopsKept(tail);
    }
  }

  /** Conversion works stop by stop, so the kept stops keep their source order. */
  lemma {:induction false} ConvertStopsAppend(a: seq<RawStop>, b: seq<RawStop>)
    requires ConvertStops(a).Some? && ConvertStops(b).Some?
    ensures ConvertStops(a + b) == Some(ConvertStops(a).value + ConvertStops(b).value)
    decreases |a|
  {
    if |a| == 0 {
      assert a + b == b;
      assert ConvertStops(a) == Some([]);
      assert [] + ConvertStops(b).value == ConvertStops(b).value;
    } else {
      var ab := a + b;
      assert ab[0] == a[0];
      assert ab[1..] == a[1..] + b;
      var head := ConvertStop(a[0]);
      var tailA := ConvertStops(a[1..]);
      assert head != KeyError && tailA.Some?;
      ConvertStopsAppend(a[1..], b);
      var bs := ConvertStops(b).value;
      if head.Kept? {
        assert ConvertStops(a).value == [head.stop] + tailA.value;
        assert ConvertStops(ab).value == [head.stop] + (tailA.value + bs);
        assert [head.stop] + (tailA.value + bs) == ([head.stop] + tailA.value) + bs;
      } else {
        assert ConvertStops(a) == tailA;
        assert ConvertStops(ab) == ConvertStops(ab[1..]);
      }
    }
  }

  /**
   * `get_train_timetable`: one record per raw train in order, or None when an exception escapes:
   * a `KeyError` from a stop, or the `TypeError` from iterating a null stop list.
   */
  function {:induction false} TrainTimetable(data: seq<RawTrain>): (r: Option<seq<Train>>)
    decreases |data|
    ensures r.None? <==> (exists i :: 0 <= i < |data| &&
                           (!StopsIterable(data[i]) || ConvertStops(StopsOf(data[i])).None?))
    ensures r.Some? ==> |r.value| == |data|
    ensures r.Some? ==> forall i :: 0 <= i < |data| ==>
      r.value[i].stops == ConvertStops(StopsOf(data[i])).value
    ensures r.Some? ==> forall i :: 0 <= i < |data| ==>
      r.value[i].trainNumber == Get(data[i].trainNumber) && r.value[i].trainType == Get(data[i].trainType)
      && r.value[i].railway == Get(data[i].railway) && r.value[i].originStation == Get(data[i].originStation)
      && r.value[i].destinationStation == Get(data[i].destinationStation)
      && r.value[i].direction == Get(data[i].railDirection)
  {
    if |data| == 0 then Some([])
    else
      var t := data[0];
      var rest := TrainTimetable(data[1..]);
      assert forall i :: 1 <= i < |data| ==> data[i] == data[1..][i - 1];
      if !StopsIterable(t) then None
      else match ConvertStops(StopsOf(t))
      case None => None
      case Some(stops) =>
        if rest.None? then None
        else
          var train := Train(Get(t.trainNumber), Get(t.trainType), Get(t.railway),
                             Get(t.originStation), Get(t.destinationStation),
                             Get(t.railDirection), stops);
          Some([train] + rest.value)
  }

  /**
   * `get_train_status`: one status record per raw object, copying its members; the status is the
   * Japanese text. None when some object's information text is null and `AttributeError` escapes.
   */
  function TrainStatus(data: seq<RawInfo>): (r: Option<seq<StatusInfo>>)
    ensures r.None? <==> exists i :: 0 <= i < |data| && !TextReadable(data[i])
    ensures r.Some? ==> |r.value| == |data|
    ensures r.Some? ==> forall i :: 0 <= i < |data| ==>
      (r.value[i].status.Some? <==> data[i].informationText.Present? && "ja" in data[i].informationText.value)
    ensures r.Some? ==> forall i :: 0 <= i < |data| && r.value[i].status.Some? ==>
      r.value[i].status.value == data[i].informationText.value["ja"]
    ensures r.Some? ==> forall i :: 0 <= i < |data| ==>
      r.value[i].date == Get(data[i].date) && r.value[i].valid == Get(data[i].valid)
      && r.value[i].sameAs == Get(data[i].sameAs) && r.value[i].railway == Get(data[i].railway)
      && r.value[i].operator == Get(data[i].operator) && r.value[i].timeOfOrigin == Get(data[i].timeOfOrigin)
  {
    if exists i :: 0 <= i < |data| && !TextReadable(data[i]) then None
    else Some(seq(|data|, i requires 0 <= i < |data| => ToStatusInfo(data[i])))
  }

  /** The two copies of `get_train_status` (here and in API/TokyoMetro.py) give the same result. */
  lemma StatusAgreesWithApi(data: seq<RawInfo>)
    ensures TrainStatus(data) == ApiTokyoMetro.TrainStatus(data)
  {
  }

}
