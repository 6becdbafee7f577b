# Transit bot rules, modelled in Dafny

This project models the pure decision logic of a Discord bot that reports
Tokyo Metro and JR West train information. It leaves out the HTTP and Discord
plumbing. The modelled parts are:

- **Delay monitor** (`cogs/delay_monitor.py`). Each periodic tick classifies
  the ODPT train-information records as delayed or normal. It builds the map
  of current delays (the last record per railway wins). It computes which
  delays are new or changed and which are resolved, and replaces the
  remembered state. The `/delay_status` command partitions the records into
  delayed and normal entries, with display names from `format_railway_name`.
- **Fare search** (`cogs/fare_info.py`). It resolves station names to ids
  in three ways: `get_all_station_ids_from_name` collects every id; a
  first-match variant returns one id (lines 2-18, which sit textually inside
  the corrupted import line and are modelled as the function they spell out);
  and `get_station_id_from_name` also returns one id. It loads the sorted, de-duplicated station name
  list and filters it for autocomplete. It looks for a direct fare in either
  direction, then falls back to "same railway" and reports the line name.
- **JR West delay command** (`main.py`). It splits the line list into two
  autocomplete groups, the first 25 lines and the rest, and chunks lines into
  slices of 25 for the select views. It filters
  autocomplete choices case-insensitively, capped at 25. It dispatches the
  `/jr_west_delay` command, and formats the per-train delay report (position
  from the station code, type normalisation, late trains only).
- **ODPT adapters** (`API/TokyoMetro.py` and `TokyoMetro.py`). They reshape
  train-timetable records and train-information records. The second module
  indexes `odpt:trainTimetableObject` entries directly, so a missing stop key
  fails the whole call.

JSON objects are modelled with `Odpt.Field = Missing | Null | Text(s)`, so
that the difference between `dict.get`, `dict[...]` and truthiness tests is
explicit. Array- and object-valued members use `Odpt.Member = Absent |
NullMember | Present(value)`, because `obj.get(key, default)` gives the
default only for an absent key, and a `null` value fails where it is used. Python string operations become the functions in module `Strings`:

| Python | Dafny |
|---|---|
| `split(sep)` | `Split` |
| `split(sep)[0]` | `FirstPiece` |
| `split(sep)[-1]` | `LastPiece` |
| `sep.join(xs)` | `Join` |
| `replace` | `ReplaceAll` |
| `lower` | `Lower` (ASCII only) |
| `sorted(set(...))` | `SortedSet` |

List comprehensions become `Seqs.Filter` and `Seqs.FilterMap`.

## Model

| member | source | states |
|---|---|---|
| DelayMonitor.IsDelayedMeaning | cogs/delay_monitor.py:52 | A status counts as a delay exactly when it is a non-empty text in which neither 正常 nor 平常 occurs anywhere. |
| DelayMonitor.CurrentDelays | cogs/delay_monitor.py:46-57 | A railway is a key of the current-delay map exactly when some record for that railway is delayed. |
| DelayMonitor.CurrentDelaysLastWins | cogs/delay_monitor.py:47-57 | When several delayed records share a railway, the map holds the info of the last one. |
| DelayMonitor.NewDelays | cogs/delay_monitor.py:60-65 | New delays are exactly the current railways that were not delayed before, or whose status text changed. They carry the current info. |
| DelayMonitor.ResolvedDelays | cogs/delay_monitor.py:68-71 | Resolved delays are exactly the previously delayed railways that are no longer delayed. They carry the previous info. |
| DelayMonitor.MonitorTick | cogs/delay_monitor.py:38-78 | A tick is skipped exactly when the fetch failed or returned nothing. A skipped tick keeps the state and notifies nothing. Otherwise the tick's current map is the delay map of the records, its new and resolved maps are the new and resolved delays against the previous state, and the state becomes the current map (the corrected update; see Findings). New and resolved railways are disjoint and come from the previous or current state. |
| DelayMonitor.AsWrittenRenotifies | cogs/delay_monitor.py:74-85 | As written, a tick that has something to send keeps the old state, so a second tick on the same data computes the same new and resolved delays again. |
| DelayMonitor.AsWrittenGinzaRepeats | cogs/delay_monitor.py:74-85 | For one delayed Ginza record and an empty state, the code as written notifies on the first and the second tick, while the corrected update notifies only on the first. |
| DelayMonitor.QuietIffUnchanged | cogs/delay_monitor.py:60-75 | A tick notifies nothing exactly when the previous and current maps have the same railways with the same status texts. |
| DelayMonitor.TickIdempotent | cogs/delay_monitor.py:38-78 | Repeating a tick on the same data sends no notifications and leaves the state as the first tick left it. |
| DelayMonitor.FormatRailwayNameCases | cogs/delay_monitor.py:139-156 | An id without "TokyoMetro." is shown unchanged. Otherwise the piece after the last occurrence of "TokyoMetro." is looked up among the nine known lines, and an unknown piece gets 線 appended. |
| DelayMonitor.FormatRailwayNameIsLine | cogs/delay_monitor.py:142-155 | Every Tokyo Metro railway id is displayed as a name ending in 線. |
| DelayMonitor.FindInFeedId | cogs/delay_monitor.py:142 | In an id of the form odpt.Railway:TokyoMetro.<line>, the first "TokyoMetro." starts at position 13. |
| DelayMonitor.LineSuffixHasNoPrefix | cogs/delay_monitor.py:145-155 | No known line key contains "TokyoMetro.". |
| DelayMonitor.FormatKnownLine | cogs/delay_monitor.py:141-155 | The feed id of each of the nine known lines is displayed as its fixed Japanese name. |
| DelayMonitor.Partition | cogs/delay_monitor.py:225-238 | The partition fails exactly when some record has no railway (the formatter raises). Otherwise every record lands in exactly one of the two lists. |
| DelayMonitor.PartitionIsComprehension | cogs/delay_monitor.py:228-238 | The delay list is the display name and status of each delayed record, and the normal list is the display name of each other record, both in record order. |
| DelayMonitor.NormalEntriesComeFromRecords | cogs/delay_monitor.py:237-238 | Every normal entry is the display name of a record that is not delayed. |
| DelayMonitor.ListedDelaysComeFromRecords | cogs/delay_monitor.py:228-236 | Every listed delay comes from a delayed record, with that record's display name and status text. |
| DelayMonitor.DelayedRecordsAreListed | cogs/delay_monitor.py:228-236 | Every delayed record appears among the listed delays. |
| DelayMonitor.NormalRecordsAreListed | cogs/delay_monitor.py:237-238 | Every record that is not delayed appears among the normal entries. |
| DelayMonitor.DelaysNonEmptyIff | cogs/delay_monitor.py:228-240 | The delay list is non-empty exactly when some record is delayed. |
| DelayMonitor.DelayStatus | cogs/delay_monitor.py:213-269 | The command reports an error exactly when the fetch failed, returned nothing or held a record without a railway. Otherwise it reports delays exactly when some record is delayed. A delay report is never empty, and its fields are the delay list of the partition (display name and status of each delayed record, in record order). The normal list is built but never shown. |
| DelayMonitor.NullTextSkipsTick | cogs/delay_monitor.py:38-80 | A feed object whose information text is null makes the fetch raise. The monitoring tick is then skipped with its state kept, and the status command replies with its error message. |
| DelayMonitor.MonitoredDelaysAreListed | cogs/delay_monitor.py:228-236 | Every railway the monitor holds as delayed has an entry, under its display name, in the status command's delay list. |
| DelayMonitor.ListedDelaysAreMonitored | cogs/delay_monitor.py:228-236 | Every entry in the status command's delay list names a railway the monitor holds as delayed. |
| FareInfo.Lookup | API/TokyoMetro.py:134-149 | A key that the station record builder does not produce reads as absent. |
| FareInfo.AllStationIds | cogs/fare_info.py:20-33 | The ids collected are exactly the same-as values of stations that match the name (Japanese title or title) and have a truthy same-as. They are kept in station order, and each is non-empty. |
| FareInfo.AllStationIdsAppend | cogs/fare_info.py:23-32 | Collecting over a concatenation concatenates the collected ids, so the order follows the stations. |
| FareInfo.FirstIdIsFirstContributor | cogs/fare_info.py:2-18 | The first collected id belongs to the first contributing station. |
| FareInfo.FirstStationId | cogs/fare_info.py:2-18 | The old-style lookup returns "" exactly when no station contributes. Otherwise it returns the same-as of the first contributing station. |
| FareInfo.StationIdAsWritten | cogs/fare_info.py:68-83 | As written, the lookup reads "owl:sameAs", which the station records never contain. So it yields the first matching station's `id`, or "" when nothing matches. |
| FareInfo.StationIdFromName | cogs/fare_info.py:68-83 | With the record key corrected to same_as, the lookup yields the first matching station's same-as when it is truthy and its `id` otherwise, or "" when no station matches. |
| FareInfo.StationIdAgreesWithFirstId | cogs/fare_info.py:68-83 | When the first station matching the name has a truthy same-as, the corrected lookup returns the first id that the multi-id search collects. |
| FareInfo.AsWrittenReturnsUrn | cogs/fare_info.py:74-79 | For a concrete Ginza station record, the lookup as written returns the urn id and not the odpt.Station id. |
| FareInfo.CollectNames | cogs/fare_info.py:54-60 | Each collected name is a station's display name, and every station with one contributes it. The display name is the Japanese station title when that is non-empty, and the title otherwise. |
| FareInfo.LoadStations | cogs/fare_info.py:47-66 | A failed or empty fetch gives the empty list. Otherwise the list is strictly sorted, so it has no duplicates, and holds exactly the collected names. |
| FareInfo.NamesAreSortedSet | cogs/fare_info.py:61 | Any strictly sorted list with the same members as the station names equals the loaded list. |
| FareInfo.StationAutocomplete | cogs/fare_info.py:85-96 | It offers exactly the first 25 names, in list order, that contain the query ignoring case. So each offered name is in the list, an empty query gives the first 25 names, and fewer than 25 matches are all offered. |
| FareInfo.AutocompleteOffersFirstMatches | cogs/fare_info.py:89-91 | In the sorted name list, a matching name that comes before an offered name is offered too. |
| FareInfo.FareScan | cogs/fare_info.py:123-127 | The scan finds a fare exactly when some fare connects the two ids in either direction. The one returned connects them and is the first such. |
| FareInfo.ToScan | cogs/fare_info.py:122-129 | The scan over destination ids finds a fare exactly when some destination id connects to the origin. It returns the first hit in loop order. |
| FareInfo.FromScan | cogs/fare_info.py:120-131 | The scan over origin ids finds a fare exactly when some pair of ids connects. |
| FareInfo.FindFare | cogs/fare_info.py:119-131 | No fare is found exactly when no fare connects any origin id with any destination id. A found fare is the first hit in the nested loop order. |
| FareInfo.PairScanTo | cogs/fare_info.py:161-166 | It finds a pair exactly when some destination station shares the origin station's railway. |
| FareInfo.PairScan | cogs/fare_info.py:159-168 | It finds a pair exactly when some origin and destination station share a railway. |
| FareInfo.InfoFoundForIds | cogs/fare_info.py:147-158 | A non-empty list of ids collected for a name always passes the fallback's station-info guard, because the station that contributed the first id carries it. |
| FareInfo.SameRailwayOutcome | cogs/fare_info.py:146-177 | The fallback reports no fare exactly when the guard fails or no two stations share a railway. Otherwise the nested loops stop at the first pair of stations sharing a railway: the reply is an error exactly when that railway is null, and else the same-line reply carries it with its prefix removed. |
| FareInfo.FareSearch | cogs/fare_info.py:105-181 | The search says "station not found" exactly when an id list is empty, and "fares unavailable" exactly when the fare list is missing or empty. Otherwise it answers directly exactly when a fare connects the stations, and else gives the same-railway fallback's answer. |
| FareInfo.FallbackIgnoresInfoGuard | cogs/fare_info.py:147-158 | For ids found by name, the guard always passes, so the fallback reports no fare exactly when no two stations share a railway. |
| FareInfo.SameLineReportsSuffix | cogs/fare_info.py:165 | A railway id of the form odpt.Railway:TokyoMetro.<line> reports `<line>`. |
| JrWestDelay.SplitIntoGroups | main.py:142-147 | The first group holds the first 25 lines (or all of them), and the two groups concatenate to the list. Unique keys stay unique, and no key appears in both groups. |
| JrWestDelay.Chunks | main.py:118-123 | The lines split into ceil(n/25) chunks of 1 to 25 entries. |
| JrWestDelay.ChunksConcatenate | main.py:118-123 | The chunks concatenated in order give back the list. |
| JrWestDelay.ChunkStarts | main.py:119-120 | Chunk c is exactly the slice from 25c to min(25c+25, n). |
| JrWestDelay.SelectGroup | main.py:161-165 | A group is selected exactly for the names group1 and group2. group1 selects the first group and group2 the second. |
| JrWestDelay.LineAutocomplete | main.py:208-235 | No choices are offered without a group, with an unknown group or without line data. Otherwise it offers the first 25 lines of the group whose label contains the query, ignoring case. |
| JrWestDelay.FindLine | main.py:182-186 | The lookup fails exactly when no entry has the key. Otherwise it returns an entry with that key. |
| JrWestDelay.JrWestDelayCommand | main.py:157-192 | An invalid group is reported exactly for names other than group1 and group2, and the listing exactly when no line is given. The listing is the bullet list of the chosen group (the first 25 lines for group1, the rest for group2). A report is for a line with that key in the chosen group. An invalid line means the key is not in that group. |
| JrWestDelay.StationNames | main.py:49-52 | The station map has exactly the codes of the station list as keys. |
| JrWestDelay.StationNamesLastWins | main.py:49-52 | For a repeated code, the name of the last station with that code wins. |
| JrWestDelay.PositionOfCode | main.py:57-61 | A position "code_rest" is shown as the station name followed by 辺り when the code is known, and as the fixed "somewhere" text otherwise. |
| JrWestDelay.NormalizeType | main.py:67-69 | A type ending in ○ gets 速 as its last character instead. Everything before that is kept, and a type not ending in ○ is unchanged. The result never ends in ○. |
| JrWestDelay.NormalizeTypeIdempotent | main.py:67-69 | Normalising a type twice is the same as normalising it once. |
| JrWestDelay.NormalizeTypeChange | main.py:63-65 | A missing or single-space type change becomes empty, and a JSON null renders as "None". Any other text is kept, and the result is never a single space. |
| JrWestDelay.DelayMessages | main.py:54-78 | There is one message line per late train, in train order, and trains without a delay contribute nothing. |
| JrWestDelay.DelayContent | main.py:36-85 | Without late trains the reply is the header followed by the no-delay text. Otherwise it is the header followed by the late-train lines joined by newlines. |
| ApiTokyoMetro.ToStop | API/TokyoMetro.py:47-60 | The station is the departure station when that key is present and the arrival station otherwise. The stop is kept exactly when that station is truthy, and it carries both times. |
| ApiTokyoMetro.NormalizeStops | API/TokyoMetro.py:46-60 | It keeps exactly the stops with a station. Each kept stop comes from an input object, none is lost, and nothing is dropped when every object has a station. |
| ApiTokyoMetro.NormalizeStopsAppend | API/TokyoMetro.py:46-60 | Normalising a concatenation concatenates the results. |
| ApiTokyoMetro.TrainTimetable | API/TokyoMetro.py:29-62 | The call raises exactly when some record's stop list is null. Otherwise there is one train per record, carrying all eleven copied members of that record and its normalised stops. |
| ApiTokyoMetro.TrainStatus | API/TokyoMetro.py:77-88 | The call raises exactly when some record's information text is null. Otherwise there is one entry per record. It keeps the six copied members, and has a status exactly when the information text has a Japanese entry, which is then the status. |
| TokyoMetro.ConvertStop | TokyoMetro.py:30-39 | A stop with a departure time raises a key error exactly when it lacks a departure station. One with only an arrival time raises exactly when it lacks an arrival station. One with neither time is skipped. |
| TokyoMetro.ConvertStops | TokyoMetro.py:29-39 | Conversion of a stop list fails exactly when some stop raises a key error, and never yields more stops than it was given. |
| TokyoMetro.ConvertStopsKept | TokyoMetro.py:29-39 | Each converted stop is the conversion of some input stop, and every stop that converts is in the result. |
| TokyoMetro.ConvertStopsAppend | TokyoMetro.py:29-39 | When both parts convert, their concatenation converts to the concatenated results. |
| TokyoMetro.TrainTimetable | TokyoMetro.py:17-41 | The timetable fails exactly when some train has a null stop list or a stop that raises a key error. Otherwise there is one train per record, with its six copied members and its converted stops. |
| TokyoMetro.TrainStatus | TokyoMetro.py:56-67 | The call raises exactly when some record's information text is null. Otherwise there is one entry per record. It keeps the six copied members, and has a status exactly when the information text has a Japanese entry, which is then the status. |
| TokyoMetro.StatusAgreesWithApi | TokyoMetro.py:48-72 | The earlier `get_train_status` gives the same result as the one in API/TokyoMetro.py for every feed. |
| Strings.Split | main.py:57 | The pieces of `split(sep)` are never empty as a list, contain no separator, and joined with the separator give back the input. |
| Strings.FirstPiece | main.py:57-59 | `split("_")[0]` is the first piece of the split. It is a prefix without the separator, and the whole input when there is no separator. |
| Strings.LastPiece | cogs/delay_monitor.py:143 | `split("TokyoMetro.")[-1]` has no separator in it. It is the whole input when the input has no separator, and otherwise the input ends with the separator followed by it. |
| Strings.LastPieceIsLastOfSplit | cogs/delay_monitor.py:143 | The piece is exactly the last piece of the split. |
| Strings.ReplaceAll | cogs/fare_info.py:165 | `replace(pat, rep)` is the split on the pattern joined with the replacement, so a string without the pattern is left unchanged. |
| Strings.StripLeading | cogs/fare_info.py:165 | Replacing the prefix in prefix+rest yields rest when rest does not contain the prefix. |
| Strings.SortedSet | cogs/fare_info.py:61 | `sorted(set(xs))` is strictly sorted and has exactly the members of xs. |
| Strings.SortedUnique | cogs/fare_info.py:61 | Two strictly sorted lists with the same members are equal. |
| Strings.SubseqSorted | cogs/fare_info.py:89 | Filtering a sorted list keeps it sorted. |
| Strings.ParseNatToString | main.py:77 | The decimal text of the delay minutes reads back as the same number. |
| Seqs.Filter | cogs/fare_info.py:89 | A filtering comprehension keeps exactly the passing elements, in order. |
| Seqs.FilterKeepsOrder | cogs/fare_info.py:89 | In a list without duplicates, a passing element that comes before a kept element is kept at an earlier position. |
| Seqs.FilterTakeKeepsOrder | cogs/fare_info.py:89-91 | In a list without duplicates, a passing element before one among the first n kept elements is itself among them. |
| Seqs.PrefixIsSubseq | cogs/fare_info.py:91 | A prefix of a list is an order-preserving selection of it. |
| Seqs.FilterMapMembers | main.py:226-229 | Each mapped result comes from a passing element, and every passing element contributes. |
| Seqs.CollectCapped | main.py:225-231 | The loop that stops at 25 choices yields exactly the first 25 mapped matches. |

## Left out

- HTTP requests, JSON decoding and logging. A failed fetch is an input `None`, and decoding errors are not modelled.
- Discord embeds, messages, views and the order in which notifications are sent to channels, including per-channel send errors.
- The `tasks.loop` scheduling, `before_loop`, `on_ready` and `on_error` hooks, and the `set_delay_channel` command with its configuration storage.
- `_cached_lines` (main.py:127-139), because caching does not change any result. Line data is a parameter.
- The `LineSelect` and `LineSelectView` callbacks beyond the chunking (main.py:93-123). The callback's reply is Discord UI, and the report it sends through `get_delay_info` is the one DelayContent models.
- `group_autocomplete` (main.py:199-205), because it returns a constant two-element list.
- Timestamps (`datetime.now`) in embeds.
- `api.py` and `test.py` are not part of this model.
- The fare graph and other ODPT endpoints, because the fare search only reads the flat fare list.
- A JSON `null` for the whole decoded list, since JSON decoding is outside the model. A `null` stop list or information text is modelled. A `null` station title map is falsy and reads like a missing one. A `null` "ja" entry in an information text reads like a missing one, because `.get("ja")` returns None for both.
- The JR West API's `item['no']` is a string and `delayMinutes` a non-negative integer. Other JSON types for these fields are not modelled.
- The exception branches of `jr_west_delay`, `get_delay_info` and `fare` (RequestException and JSONDecodeError messages). They only report a fixed error text.
- The informational "検索しています" message sent before the fare search.
- A `None` railway key inside `send_delay_notifications`. `format_railway_name(None)` would raise inside the per-channel `try` (cogs/delay_monitor.py:88-137) and skip that channel's embeds, and embeds are out of scope. In the code as written that loop is never reached (see Findings).
- Strings.Lower: covers ASCII letters only, because Python's `str.lower` follows the full Unicode case tables.
- DelayMonitor.MonitorTick: models the corrected state update, which remembers the current delays after notifying. As written, a tick that notifies raises before the update and keeps the old state. That behaviour is modelled separately by DelayMonitor.NextPreviousAsWritten (see Findings), and TickIdempotent holds only for the corrected update.
- DelayMonitor.MonitoredDelaysAreListed: relates railways by display name only, because two railway ids can share a display name.

## Findings

| source | as written | input that shows it | evidently intended | confidence | as-written member | corrected member |
|---|---|---|---|---|---|---|
| cogs/delay_monitor.py:74-85 | `send_delay_notifications` starts with `self.config.get_all_delay_channels()`, outside its per-channel `try`. `Config` (env/config.py) defines only the two tokens and no such method. The AttributeError reaches the handler at line 80, so `self.previous_delays = current_delays` (line 78) never runs on a tick that has something to send. | An empty remembered state and one record for odpt.Railway:TokyoMetro.Ginza with status 遅延, on two consecutive ticks | Remember the current delays after notifying, so that the second tick is quiet | high; not executed | DelayMonitor.NextPreviousAsWritten, DelayMonitor.AsWrittenRenotifies, DelayMonitor.AsWrittenGinzaRepeats | DelayMonitor.MonitorTick, DelayMonitor.TickIdempotent |
| cogs/fare_info.py:74-79 | `get_station_id_from_name` reads `station.get("owl:sameAs")`, but the station records built at API/TokyoMetro.py:140 store that value under `same_as`. So the lookup always falls back to `station["id"]` (the urn id) for the first matching station. | A station record with id "urn:ucode:_00001234", same_as "odpt.Station:TokyoMetro.Ginza.Ginza" and Japanese title 銀座, looked up by the name 銀座 | Return the `same_as` id, the odpt.Station id that the fare records use | high; not executed | FareInfo.StationIdAsWritten, FareInfo.AsWrittenReturnsUrn | FareInfo.StationIdFromName, FareInfo.StationIdAgreesWithFirstId |
