/**
 * cogs/fare_info.py: station-name resolution, the station-name list and its autocomplete,
 * and the direct fare search of the `fare` command with its same-railway fallback.
 * The feeds are inputs (`get_station_information`, `get_fare_information`); messages are outcomes.
 */
module FareInfo {
  import opened Wrappers
  import opened Strings
  import opened Odpt
  import Seqs

  /**
   * The station record `get_station_information` builds, reduced to the members this cog reads.
   * `stationTitle` is the language map of `station_title`, None when that value is null.
   */
  datatype Station = Station(
    id: Option<string>,
    title: Option<string>,
    sameAs: Option<string>,
    railway: Option<string>,
    stationTitle: Option<map<string, string>>)

  /** Every key of the record `get_station_information` builds. */
  const RecordKeys: set<string> := {
    "id", "date", "title", "latitude", "longitude", "same_as", "railway", "operator",
    "station_code", "station_title", "passenger_survey", "station_timetable",
    "connecting_railway", "connecting_station"
  }

  /** `station.get(key)`, for the string members the model keeps and for keys the record lacks. */
  function Lookup(st: Station, key: string): (r: Option<string>)
    requires key in {"id", "title", "same_as", "railway"} || key !in RecordKeys
    ensures key !in RecordKeys ==> r.None?
  {
    if key == "id" then st.id
    else if key == "title" then st.title
    else if key == "same_as" then st.sameAs
    else if key == "railway" then st.railway
    else None
  }

  /** `station.get("station_title") and station.get("station_title").get("ja") == name`. */
  predicate JaTitleIs(st: Station, name: string)
  {
    st.stationTitle.Some? && "ja" in st.stationTitle.value && st.stationTitle.value["ja"] == name
  }

  /** The name test of the lookups: the Japanese title, and `title` only when that test fails. */
  predicate NameMatches(st: Station, name: string)
  {
    JaTitleIs(st, name) || st.title == Some(name)
  }

  /** A station that adds an id to `get_all_station_ids_from_name(name)`. */
  predicate Contributes(st: Station, name: string)
  {
    NameMatches(st, name) && Truthy(st.sameAs)
  }

  /**
   * `get_all_station_ids_from_name`: the non-empty `same_as` of every station carrying the name,
   * in station-list order.
   */
  function {:induction false} AllStationIds(stations: seq<Station>, name: string): (r: seq<string>)
    decreases |stations|
    ensures |r| <= |stations|
    ensures forall j :: 0 <= j < |r| ==> r[j] != ""
    ensures forall j :: 0 <= j < |r| ==>
      exists i :: 0 <= i < |stations| && Contributes(stations[i], name) && stations[i].sameAs == Some(r[j])
    ensures forall i :: 0 <= i < |stations| && Contributes(stations[i], name) ==> stations[i].sameAs.value in r
  {
    if |stations| == 0 then []
    else
      var rest := AllStationIds(stations[1..], name);
      assert forall i :: 1 <= i < |stations| ==> stations[i] == stations[1..][i - 1];
      if Contributes(stations[0], name) then [stations[0].sameAs.value] + rest else rest
  }

  /** The ids are collected station by station, so they follow the station-list order. */
  lemma {:induction false} AllStationIdsAppend(a: seq<Station>, b: seq<Station>, name: string)
    ensures AllStationIds(a + b, name) == AllStationIds(a, name) + AllStationIds(b, name)
    decreases |a|
  {
    if |a| == 0 {
      assert a + b == b;
    } else {
      assert (a + b)[0] == a[0];
      assert (a + b)[1..] == a[1..] + b;
      AllStationIdsAppend(a[1..], b, name);
    }
  }

  /** The first id collected is the `same_as` of the first contributing station. */
  lemma {:induction false} FirstIdIsFirstContributor(stations: seq<Station>, name: string)
    requires |AllStationIds(stations, name)| > 0
    ensures exists i :: (0 <= i < |stations| && Contributes(stations[i], name)
      && stations[i].sameAs == Some(AllStationIds(stations, name)[0])
      && forall k :: 0 <= k < i ==> !Contributes(stations[k], name))
    decreases |stations|
  {
    var ids := AllStationIds(stations, name);
    var tail := stations[1..];
    if Contributes(stations[0], name) {
      assert ids == [stations[0].sameAs.value] + AllStationIds(tail, name);
      assert stations[0].sameAs == Some(ids[0]);
    } else {
      assert ids == AllStationIds(tail, name);
      FirstIdIsFirstContributor(tail, name);
      var i :| 0 <= i < |tail| && Contributes(tail[i], name)
        && tail[i].sameAs == Some(ids[0])
        && forall k :: 0 <= k < i ==> !Contributes(tail[k], name);
      assert stations[i + 1] == tail[i];
      assert forall k :: 1 <= k < i + 1 ==> stations[k] == tail[k - 1];
      assert forall k :: 0 <= k < i + 1 ==> !Contributes(stations[k], name);
    }
  }

  /**
   * The single-id variant (fare_info.py:2-18): the first id of the full list, or "" when the name
   * matches no station with a `same_as`.
   */
  function FirstStationId(stations: seq<Station>, name: string): (r: string)
    ensures r == "" <==> forall i :: 0 <= i < |stations| ==> !Contributes(stations[i], name)
    ensures r != "" ==> exists i :: (0 <= i < |stations| && Contributes(stations[i], name)
      && stations[i].sameAs == Some(r) && forall k :: 0 <= k < i ==> !Contributes(stations[k], name))
  {
    var ids := AllStationIds(stations, name);
    if |ids| > 0 then
      FirstIdIsFirstContributor(stations, name);
      ids[0]
    else ""
  }

  /** Station `i` is the first one carrying the name. */
  predicate FirstMatchAt(stations: seq<Station>, name: string, i: int)
  {
    0 <= i < |stations| && NameMatches(stations[i], name)
    && forall k :: 0 <= k < i ==> !NameMatches(stations[k], name)
  }

  /**
   * `get_station_id_from_name` as written: for the first station carrying the name it reads
   * `owl:sameAs`, a key the record never has, and so always falls back to the record's `id`
   * (None when that member is null); "" when no station carries the name.
   */
  function {:induction false} StationIdAsWritten(stations: seq<Station>, name: string): (r: Option<string>)
    decreases |stations|
    ensures (forall i :: 0 <= i < |stations| ==> !NameMatches(stations[i], name)) ==> r == Some("")
    ensures forall i :: FirstMatchAt(stations, name, i) ==> r == stations[i].id
  {
    if |stations| == 0 then Some("")
    else if NameMatches(stations[0], name) then
      var sameAs := Lookup(stations[0], "owl:sameAs");
      if Truthy(sameAs) then sameAs else Lookup(stations[0], "id")
    else
      var rest := StationIdAsWritten(stations[1..], name);
      assert forall i :: 1 <= i < |stations| ==> stations[i] == stations[1..][i - 1];
      assert forall i :: FirstMatchAt(stations, name, i) ==> FirstMatchAt(stations[1..], name, i - 1);
      rest
  }

  /**
   * `get_station_id_from_name` reading the member the record actually has: the first station
   * carrying the name gives its `same_as` when non-empty, else its `id`; "" when none matches.
   */
  function {:induction false} StationIdFromName(stations: seq<Station>, name: string): (r: Option<string>)
    decreases |stations|
    ensures (forall i :: 0 <= i < |stations| ==> !NameMatches(stations[i], name)) ==> r == Some("")
    ensures forall i :: FirstMatchAt(stations, name, i) ==>
      r == (if Truthy(stations[i].sameAs) then stations[i].sameAs else stations[i].id)
  {
    if |stations| == 0 then Some("")
    else if NameMatches(stations[0], name) then
      var sameAs := Lookup(stations[0], "same_as");
      if Truthy(sameAs) then sameAs else Lookup(stations[0], "id")
    else
      var rest := StationIdFromName(stations[1..], name);
      assert forall i :: 1 <= i < |stations| ==> stations[i] == stations[1..][i - 1];
      assert forall i :: FirstMatchAt(stations, name, i) ==> FirstMatchAt(stations[1..], name, i - 1);
      rest
  }

  /**
   * When the first station carrying the name has a `same_as`, the corrected lookup returns the
   * same id as the single-id variant, that is, the id the fare feed is keyed by.
   */
  lemma StationIdAgreesWithFirstId(stations: seq<Station>, name: string, i: int)
    requires FirstMatchAt(stations, name, i) && Truthy(stations[i].sameAs)
    ensures StationIdFromName(stations, name) == Some(FirstStationId(stations, name))
    ensures FirstStationId(stations, name) in AllStationIds(stations, name)
  {
    var r := FirstStationId(stations, name);
    assert Contributes(stations[i], name);
    if r == "" {
      assert false;
    }
    var m :| 0 <= m < |stations| && Contributes(stations[m], name)
      && stations[m].sameAs == Some(r) && forall k :: 0 <= k < m ==> !Contributes(stations[k], name);
    assert m == i;
  }

  /** A feed-shaped station on which the lookup as written returns the URN id instead of `same_as`. */
  lemma AsWrittenReturnsUrn()
    ensures var ginza := Station(Some("urn:ucode:_00001234"), Some("Ginza"),
                                 Some("odpt.Station:TokyoMetro.Ginza.Ginza"),
                                 Some("odpt.Railway:TokyoMetro.Ginza"), Some(map["ja" := "銀座"]));
      && StationIdAsWritten([ginza], "銀座") == Some("urn:ucode:_00001234")
      && StationIdFromName([ginza], "銀座") == Some("odpt.Station:TokyoMetro.Ginza.Ginza")
      && AllStationIds([ginza], "銀座") == ["odpt.Station:TokyoMetro.Ginza.Ginza"]
  {
    var ginza := Station(Some("urn:ucode:_00001234"), Some("Ginza"),
                         Some("odpt.Station:TokyoMetro.Ginza.Ginza"),
                         Some("odpt.Railway:TokyoMetro.Ginza"), Some(map["ja" := "銀座"]));
    assert FirstMatchAt([ginza], "銀座", 0);
    assert Contributes(ginza, "銀座");
    assert [ginza][1..] == [];
  }

  // ---------------------------------------------------------------------
  // The station-name list and its autocomplete.

  /** `_load_stations`' name for one station: a non-empty Japanese title, else a non-empty `title`. */
  function NameOf(st: Station): Option<string>
  {
    if st.stationTitle.Some? && "ja" in st.stationTitle.value && st.stationTitle.value["ja"] != "" then
      Some(st.stationTitle.value["ja"])
    else if Truthy(st.title) then st.title
    else None
  }

  /** The names appended while loading, one per station that has one, in station order. */
  function {:induction false} CollectNames(stations: seq<Station>): (r: seq<string>)
    decreases |stations|
    ensures forall j :: 0 <= j < |r| ==> exists i :: 0 <= i < |stations| && NameOf(stations[i]) == Some(r[j])
    ensures forall i :: 0 <= i < |stations| && NameOf(stations[i]).Some? ==> NameOf(stations[i]).value in r
  {
    if |stations| == 0 then []
    else
      var rest := CollectNames(stations[1..]);
      assert forall i :: 1 <= i < |stations| ==> stations[i] == stations[1..][i - 1];
      match NameOf(stations[0])
      case Some(n) => [n] + rest
      case None => rest
  }

  /** The cog's state after loading. */
  datatype Directory = Directory(stations: seq<Station>, names: seq<string>)

  /**
   * `_load_stations`: with a non-empty feed, keeps it and builds `sorted(set(names))`;
   * with no feed, both lists stay empty.
   */
  function LoadStations(fetched: Option<seq<Station>>): (r: Directory)
    ensures (fetched.None? || |fetched.value| == 0) ==> r == Directory([], [])
    ensures fetched.Some? && |fetched.value| > 0 ==> r.stations == fetched.value
    ensures StrictlySorted(r.names)
    ensures forall i, j :: 0 <= i < j < |r.names| ==> r.names[i] != r.names[j]
    ensures forall j :: 0 <= j < |r.names| ==>
      exists i :: 0 <= i < |r.stations| && NameOf(r.stations[i]) == Some(r.names[j])
    ensures forall i :: 0 <= i < |r.stations| && NameOf(r.stations[i]).Some? ==>
      NameOf(r.stations[i]).value in r.names
  {
    if fetched.None? || |fetched.value| == 0 then Directory([], [])
    else
      var stations := fetched.value;
      var collected := CollectNames(stations);
      var names := SortedSet(collected);
      StrictlySortedDistinct(names);
      Directory(stations, names)
  }

  /** The name list is the one sorted, duplicate-free arrangement of the collected names. */
  lemma NamesAreSortedSet(fetched: Option<seq<Station>>, names: seq<string>)
    requires fetched.Some? && |fetched.value| > 0
    requires StrictlySorted(names)
    requires forall j :: 0 <= j < |names| ==> names[j] in CollectNames(fetched.value)
    requires forall j :: 0 <= j < |CollectNames(fetched.value)| ==> CollectNames(fetched.value)[j] in names
    ensures LoadStations(fetched).names == names
  {
    SortedUnique(LoadStations(fetched).names, names);
  }

  /** Discord's cap on autocomplete choices. */
  const ChoiceLimit: nat := 25

  /** `current.lower() in station.lower()`. */
  function MatchesName(current: string): string -> bool
  {
    (name: string) => ContainsIgnoringCase(name, current)
  }

  /**
   * `station_autocomplete`: the names containing `current` case-insensitively, in list order,
   * at most 25; an empty `current` gives the first 25 names.
   */
  function StationAutocomplete(names: seq<string>, current: string): (r: seq<string>)
    ensures r == Seqs.Take(Seqs.Filter(MatchesName(current), names), ChoiceLimit)
    ensures |r| <= ChoiceLimit
    ensures forall j :: 0 <= j < |r| ==> r[j] in names && ContainsIgnoringCase(r[j], current)
    ensures Seqs.IsSubseq(r, names)
    ensures StrictlySorted(names) ==> StrictlySorted(r)
    ensures current == "" ==> r == Seqs.Take(names, ChoiceLimit)
    ensures |r| < ChoiceLimit ==>
      forall i :: 0 <= i < |names| && ContainsIgnoringCase(names[i], current) ==> names[i] in r
  {
    var matches :=
      if current != "" then Seqs.Filter(MatchesName(current), names)
      else Seqs.Take(names, ChoiceLimit);
    var r := Seqs.Take(matches, ChoiceLimit);
    if current == "" then
      assert r == Seqs.Take(Seqs.Filter(MatchesName(current), names), ChoiceLimit) by {
        forall i | 0 <= i < |names|
          ensures MatchesName(current)(names[i])
        {
          EmptyQueryMatches(names[i]);
        }
        Seqs.FilterAllPass(MatchesName(current), names);
      }
      assert forall j :: 0 <= j < |r| ==> ContainsIgnoringCase(r[j], current) by {
        forall j | 0 <= j < |r| { EmptyQueryMatches(r[j]); }
      }
      assert Seqs.IsSubseq(r, names) by {
        assert r == names[..|r|];
        Seqs.PrefixIsSubseq(names, |r|);
      }
      assert StrictlySorted(names) ==> StrictlySorted(r) by {
        if StrictlySorted(names) { SubseqSorted(r, names); }
      }
      r
    else
      assert Seqs.IsSubseq(r, names) by { Seqs.PrefixOfSubseq(matches, names, |r|); }
      assert StrictlySorted(names) ==> StrictlySorted(r) by {
        if StrictlySorted(names) { SubseqSorted(r, names); }
      }
      r
  }

  /**
   * With the loaded (duplicate-free) name list, the offered names are the first matches: a
   * matching name is offered whenever some later name is.
   */
  lemma AutocompleteOffersFirstMatches(names: seq<string>, current: string, i: int, j: int)
    requires StrictlySorted(names)
    requires 0 <= i < j < |names|
    ensures ContainsIgnoringCase(names[i], current) && names[j] in StationAutocomplete(names, current) ==>
      names[i] in StationAutocomplete(names, current)
  {
    if ContainsIgnoringCase(names[i], current) && names[j] in StationAutocomplete(names, current) {
      StrictlySortedDistinct(names);
      assert MatchesName(current)(names[i]);
      Seqs.FilterTakeKeepsOrder(MatchesName(current), names, ChoiceLimit, i, j);
    }
  }

  // ---------------------------------------------------------------------
  // The `fare` command.

  /** A record of `get_fare_information`; the four amounts are only displayed. */
  datatype Fare = Fare(
    fromStation: Option<string>,
    toStation: Option<string>,
    icCardFare: Option<int>,
    ticketFare: Option<int>,
    childIcCardFare: Option<int>,
    childTicketFare: Option<int>)

  /** The fare joins stations `a` and `b`, in either direction. */
  predicate Connects(f: Fare, a: string, b: string)
  {
    (f.fromStation == Some(a) && f.toStation == Some(b)) || (f.fromStation == Some(b) && f.toStation == Some(a))
  }

  /** Fare `k` joins departure id `i` and arrival id `j`. */
  predicate Hit(fromIds: seq<string>, toIds: seq<string>, fares: seq<Fare>, i: int, j: int, k: int)
  {
    0 <= i < |fromIds| && 0 <= j < |toIds| && 0 <= k < |fares| && Connects(fares[k], fromIds[i], toIds[j])
  }

  /** The hit the three nested loops stop at: no hit comes before it in (from, to, fare) order. */
  ghost predicate FirstHit(fromIds: seq<string>, toIds: seq<string>, fares: seq<Fare>, i: int, j: int, k: int)
  {
    Hit(fromIds, toIds, fares, i, j, k)
    && forall i2, j2, k2 :: Hit(fromIds, toIds, fares, i2, j2, k2) ==>
         i < i2 || (i == i2 && (j < j2 || (j == j2 && k <= k2)))
  }

  /** The innermost loop: the first fare at or after `k` joining `a` and `b`. */
  function FareScan(fares: seq<Fare>, a: string, b: string, k: nat): (r: Option<nat>)
    requires k <= |fares|
    decreases |fares| - k
    ensures r.Some? ==> (k <= r.value < |fares| && Connects(fares[r.value], a, b)
      && forall m :: k <= m < r.value ==> !Connects(fares[m], a, b))
    ensures r.None? ==> forall m :: k <= m < |fares| ==> !Connects(fares[m], a, b)
  {
    if k == |fares| then None
    else if Connects(fares[k], a, b) then Some(k)
    else FareScan(fares, a, b, k + 1)
  }

  /** The middle loop, over arrival ids from `j` on, for departure id `i`. */
  function ToScan(fromIds: seq<string>, toIds: seq<string>, fares: seq<Fare>, i: nat, j: nat): (r: Option<(nat, nat)>)
    requires i < |fromIds| && j <= |toIds|
    decreases |toIds| - j
    ensures r.Some? ==> j <= r.value.0 && Hit(fromIds, toIds, fares, i, r.value.0, r.value.1)
    ensures r.Some? ==> forall j2, k2 :: Hit(fromIds, toIds, fares, i, j2, k2) && j <= j2 ==>
      r.value.0 < j2 || (r.value.0 == j2 && r.value.1 <= k2)
    ensures r.None? ==> forall j2, k2 :: Hit(fromIds, toIds, fares, i, j2, k2) ==> j2 < j
  {
    if j == |toIds| then None
    else match FareScan(fares, fromIds[i], toIds[j], 0)
      case Some(k) => Some((j, k))
      case None => ToScan(fromIds, toIds, fares, i, j + 1)
  }

  /** The outer loop, over departure ids from `i` on. */
  function FromScan(fromIds: seq<string>, toIds: seq<string>, fares: seq<Fare>, i: nat): (r: Option<(nat, nat, nat)>)
    requires i <= |fromIds|
    decreases |fromIds| - i
    ensures r.Some? ==> i <= r.value.0 && Hit(fromIds, toIds, fares, r.value.0, r.value.1, r.value.2)
    ensures r.Some? ==> forall i2, j2, k2 :: Hit(fromIds, toIds, fares, i2, j2, k2) && i <= i2 ==>
      r.value.0 < i2 || (r.value.0 == i2 && (r.value.1 < j2 || (r.value.1 == j2 && r.value.2 <= k2)))
    ensures r.None? ==> forall i2, j2, k2 :: Hit(fromIds, toIds, fares, i2, j2, k2) ==> i2 < i
  {
    if i == |fromIds| then None
    else match ToScan(fromIds, toIds, fares, i, 0)
      case Some(jk) => Some((i, jk.0, jk.1))
      case None => FromScan(fromIds, toIds, fares, i + 1)
  }

  /**
   * The direct fare search: the first fare joining some (from, to) id pair in either direction,
   * scanning departure ids, then arrival ids, then fares; None exactly when no fare joins any pair.
   */
  function FindFare(fromIds: seq<string>, toIds: seq<string>, fares: seq<Fare>): (r: Option<Fare>)
    ensures r.None? <==> !AnyHit(fromIds, toIds, fares)
    ensures r.Some? ==> exists i, j, k :: FirstHit(fromIds, toIds, fares, i, j, k) && r.value == fares[k]
  {
    match FromScan(fromIds, toIds, fares, 0)
    case Some(t) =>
      assert FirstHit(fromIds, toIds, fares, t.0, t.1, t.2);
      Some(fares[t.2])
    case None => None
  }

  // ---------------------------------------------------------------------
  // The same-railway fallback.

  /** `station.get("same_as") in ids`. */
  predicate SameAsIn(st: Station, ids: seq<string>)
  {
    st.sameAs.Some? && st.sameAs.value in ids
  }

  /** `from_station_info` / `to_station_info` is found: some station has one of the ids. */
  predicate InfoFound(stations: seq<Station>, ids: seq<string>)
  {
    exists i :: 0 <= i < |stations| && SameAsIn(stations[i], ids)
  }

  /** Stations `a` and `b` carry a departure and an arrival id and the same `railway` value. */
  predicate RailPair(stations: seq<Station>, fromIds: seq<string>, toIds: seq<string>, a: int, b: int)
  {
    0 <= a < |stations| && 0 <= b < |stations| && SameAsIn(stations[a], fromIds)
    && SameAsIn(stations[b], toIds) && stations[a].railway == stations[b].railway
  }

  /** The inner loop over arrival-side stations from `b` on, for departure-side station `a`. */
  function PairScanTo(stations: seq<Station>, fromIds: seq<string>, toIds: seq<string>, a: nat, b: nat): (r: Option<nat>)
    requires a < |stations| && b <= |stations|
    decreases |stations| - b
    ensures r.Some? ==> (b <= r.value && RailPair(stations, fromIds, toIds, a, r.value)
      && forall b2 :: b <= b2 < r.value ==> !RailPair(stations, fromIds, toIds, a, b2))
    ensures r.None? ==> forall b2 :: b <= b2 ==> !RailPair(stations, fromIds, toIds, a, b2)
  {
    if b == |stations| then None
    else if RailPair(stations, fromIds, toIds, a, b) then Some(b)
    else PairScanTo(stations, fromIds, toIds, a, b + 1)
  }

  /** The outer loop over departure-side stations from `a` on. */
  function PairScan(stations: seq<Station>, fromIds: seq<string>, toIds: seq<string>, a: nat): (r: Option<(nat, nat)>)
    requires a <= |stations|
    decreases |stations| - a
    ensures r.Some? ==> a <= r.value.0 && RailPair(stations, fromIds, toIds, r.value.0, r.value.1)
    ensures r.Some? ==> forall a2, b2 :: RailPair(stations, fromIds, toIds, a2, b2) && a <= a2 ==>
      r.value.0 < a2 || (r.value.0 == a2 && r.value.1 <= b2)
    ensures r.None? ==> forall a2, b2 :: RailPair(stations, fromIds, toIds, a2, b2) ==> a2 < a
  {
    if a == |stations| then None
    else if !SameAsIn(stations[a], fromIds) then PairScan(stations, fromIds, toIds, a + 1)
    else match PairScanTo(stations, fromIds, toIds, a, 0)
      case Some(b) => Some((a, b))
      case None => PairScan(stations, fromIds, toIds, a + 1)
  }

  /** Once an id list is non-empty, some station carries one of its ids. */
  lemma InfoFoundForIds(stations: seq<Station>, name: string)
    requires |AllStationIds(stations, name)| > 0
    ensures InfoFound(stations, AllStationIds(stations, name))
  {
    var ids := AllStationIds(stations, name);
    var i :| 0 <= i < |stations| && Contributes(stations[i], name) && stations[i].sameAs == Some(ids[0]);
    assert SameAsIn(stations[i], ids);
  }

  /** The prefix stripped from the railway id when reporting a shared line. */
  const RailwayPrefix: string := "odpt.Railway:TokyoMetro."

  /** How the `fare` command ends. */
  datatype FareOutcome =
    | StationNotFound            // a name resolved to no id
    | FaresUnavailable           // the fare feed is missing or empty
    | Direct(fare: Fare)         // the four amounts of this fare are shown
    | SameLine(lineName: string) // both stations lie on this line; no fare is published
    | NoFare                     // no fare and no shared line
    | SearchError                // an exception caught by the handler

  /** Some fare joins some (from, to) id pair. */
  ghost predicate AnyHit(fromIds: seq<string>, toIds: seq<string>, fares: seq<Fare>)
  {
    exists i, j, k :: Hit(fromIds, toIds, fares, i, j, k)
  }

  /** Some departure-side and arrival-side stations share a railway. */
  ghost predicate AnyRailPair(stations: seq<Station>, fromIds: seq<string>, toIds: seq<string>)
  {
    exists a, b :: RailPair(stations, fromIds, toIds, a, b)
  }

  /**
   * The pair the nested loops stop at: no pair with an earlier departure-side station, nor with
   * the same one and an earlier arrival-side station, shares a railway.
   */
  ghost predicate FirstRailPair(stations: seq<Station>, fromIds: seq<string>, toIds: seq<string>, a: int, b: int)
  {
    RailPair(stations, fromIds, toIds, a, b)
    && forall a2, b2 :: RailPair(stations, fromIds, toIds, a2, b2) ==> a < a2 || (a == a2 && b <= b2)
  }

  /** There is at most one first pair. */
  lemma FirstRailPairUnique(stations: seq<Station>, fromIds: seq<string>, toIds: seq<string>, a: int, b: int)
    requires FirstRailPair(stations, fromIds, toIds, a, b)
    ensures forall a2, b2 :: FirstRailPair(stations, fromIds, toIds, a2, b2) ==> a2 == a && b2 == b
  {
  }

  /**
   * The fallback after the direct search found nothing. Once the guard passes, the first pair
   * decides: its railway with the prefix removed is reported, and a null railway makes
   * `.replace` raise, which the handler reports as a search error.
   */
  function SameRailwayOutcome(stations: seq<Station>, fromIds: seq<string>, toIds: seq<string>): (r: FareOutcome)
    ensures r.SameLine? || r.SearchError? || r.NoFare?
    ensures r.NoFare? <==> (!InfoFound(stations, fromIds) || !InfoFound(stations, toIds)
      || !AnyRailPair(stations, fromIds, toIds))
    ensures forall a, b ::
      (InfoFound(stations, fromIds) && InfoFound(stations, toIds) && FirstRailPair(stations, fromIds, toIds, a, b)) ==>
        (if stations[a].railway.None? then r == SearchError
         else r == SameLine(ReplaceAll(stations[a].railway.value, RailwayPrefix, "")))
  {
    if !(InfoFound(stations, fromIds) && InfoFound(stations, toIds)) then NoFare
    else match PairScan(stations, fromIds, toIds, 0)
      case None => NoFare
      case Some(p) =>
        assert FirstRailPair(stations, fromIds, toIds, p.0, p.1);
        FirstRailPairUnique(stations, fromIds, toIds, p.0, p.1);
        match stations[p.0].railway
        case None => SearchError
        case Some(railway) => SameLine(ReplaceAll(railway, RailwayPrefix, ""))
  }

  /** The `fare` command after the station list is loaded; `fares` is None when the fetch failed. */
  function FareSearch(stations: seq<Station>, fromName: string, toName: string, fares: Option<seq<Fare>>): (r: FareOutcome)
    ensures r.StationNotFound? <==>
      |AllStationIds(stations, fromName)| == 0 || |AllStationIds(stations, toName)| == 0
    ensures r.FaresUnavailable? <==> !r.StationNotFound? && (fares.None? || |fares.value| == 0)
    ensures r.Direct? ==> exists i, j, k :: (FirstHit(AllStationIds(stations, fromName),
      AllStationIds(stations, toName), fares.value, i, j, k) && r.fare == fares.value[k])
    ensures !r.StationNotFound? && !r.FaresUnavailable? ==>
      (r.Direct? <==> AnyHit(AllStationIds(stations, fromName), AllStationIds(stations, toName), fares.value))
    ensures !r.StationNotFound? && !r.FaresUnavailable? && !r.Direct? ==>
      r == SameRailwayOutcome(stations, AllStationIds(stations, fromName), AllStationIds(stations, toName))
  {
    var fromIds := AllStationIds(stations, fromName);
    var toIds := AllStationIds(stations, toName);
    if |fromIds| == 0 || |toIds| == 0 then StationNotFound
    else if fares.None? || |fares.value| == 0 then FaresUnavailable
    else match FindFare(fromIds, toIds, fares.value)
      case Some(f) => Direct(f)
      case None => SameRailwayOutcome(stations, fromIds, toIds)
  }

  /**
   * Once both names resolve, the guard on the station records always passes, so the fallback
   * reports a shared line exactly when some pair of stations shares a railway.
   */
  lemma FallbackIgnoresInfoGuard(stations: seq<Station>, fromName: string, toName: string)
    requires |AllStationIds(stations, fromName)| > 0 && |AllStationIds(stations, toName)| > 0
    ensures var fromIds := AllStationIds(stations, fromName);
      var toIds := AllStationIds(stations, toName);
      SameRailwayOutcome(stations, fromIds, toIds).NoFare? <==> !AnyRailPair(stations, fromIds, toIds)
  {
    InfoFoundForIds(stations, fromName);
    InfoFoundForIds(stations, toName);
  }

  /** A railway of the feed, `odpt.Railway:TokyoMetro.<Line>`, is reported as its line suffix. */
  lemma SameLineReportsSuffix(line: string)
    requires !Contains(line, RailwayPrefix)
    ensures ReplaceAll(RailwayPrefix + line, RailwayPrefix, "") == line
  {
    StripLeading(RailwayPrefix, line);
  }

}
