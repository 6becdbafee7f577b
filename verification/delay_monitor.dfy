/**
 * cogs/delay_monitor.py: classification of status texts, the once-a-minute diff of delayed
 * railways against the previous tick, railway display names, and the `delay_status` report.
 * Discord embeds, channels, the `tasks.loop` scheduling and timestamps are outside the model.
 */
module DelayMonitor {
  import opened Wrappers
  import opened Strings
  import opened Odpt
  import Seqs
  import ApiTokyoMetro

  /**
   * A status counts as a delay when it is a non-empty text mentioning neither
   * "正常" (normal) nor "平常" (regular service).
   */
  predicate IsDelayed(status: Option<string>)
  {
    status.Some? && status.value != "" && !Contains(status.value, "正常") && !Contains(status.value, "平常")
  }

  /** The delay test spelled out: no position of the text starts either word. */
  lemma IsDelayedMeaning(status: Option<string>)
    ensures IsDelayed(status) <==>
      status.Some? && status.value != ""
      && (forall i: nat :: !OccursAt(status.value, "正常", i))
      && (forall i: nat :: !OccursAt(status.value, "平常", i))
  {
  }

  /** The value stored per delayed railway. */
  datatype DelayInfo = DelayInfo(status: string, timeOfOrigin: Option<string>, railway: Option<string>)

  /** Delayed railways keyed by railway id; a record without `odpt:railway` is keyed by None. */
  type Delays = map<Option<string>, DelayInfo>

  predicate DelayedAt(infos: seq<StatusInfo>, i: int)
  {
    0 <= i < |infos| && IsDelayed(infos[i].status)
  }

  function InfoOf(x: StatusInfo): DelayInfo
    requires IsDelayed(x.status)
  {
    DelayInfo(x.status.value, x.timeOfOrigin, x.railway)
  }

  /**
   * `current_delays`: the delayed records keyed by railway; when a railway repeats, the later
   * record overwrites the earlier one.
   */
  function {:induction false} CurrentDelays(infos: seq<StatusInfo>): (r: Delays)
    decreases |infos|
    ensures forall k :: k in r <==> exists i :: DelayedAt(infos, i) && infos[i].railway == k
  {
    if |infos| == 0 then map[]
    else
      var front := infos[..|infos| - 1];
      var x := infos[|infos| - 1];
      var m := CurrentDelays(front);
      assert forall i :: 0 <= i < |front| ==> infos[i] == front[i];
      assert forall i :: DelayedAt(front, i) ==> DelayedAt(infos, i);
      if IsDelayed(x.status) then
        var r := m[x.railway := InfoOf(x)];
        assert DelayedAt(infos, |infos| - 1);
        r
      else
        m
  }

  /** The information kept for a railway is that of its last delayed record. */
  lemma {:induction false} CurrentDelaysLastWins(infos: seq<StatusInfo>, i: int)
    requires DelayedAt(infos, i)
    requires forall j :: i < j < |infos| ==> !(DelayedAt(infos, j) && infos[j].railway == infos[i].railway)
    ensures infos[i].railway in CurrentDelays(infos)
    ensures CurrentDelays(infos)[infos[i].railway] == InfoOf(infos[i])
    decreases |infos|
  {
    var front := infos[..|infos| - 1];
    if i < |infos| - 1 {
      assert front[i] == infos[i];
      assert forall j :: i < j < |front| ==> front[j] == infos[j];
      assert DelayedAt(front, i);
      CurrentDelaysLastWins(front, i);
    }
  }

  /** `new_delays`: current railways that are new or whose status text changed. */
  function NewDelays(previous: Delays, current: Delays): (r: Delays)
    ensures r.Keys <= current.Keys
    ensures forall k :: k in r ==> r[k] == current[k]
    ensures forall k :: k in current ==>
      (k in r <==> k !in previous || previous[k].status != current[k].status)
  {
    map k | k in current && (k !in previous || previous[k].status != current[k].status) :: current[k]
  }

  /** `resolved_delays`: previous railways no longer delayed, with their previous information. */
  function ResolvedDelays(previous: Delays, current: Delays): (r: Delays)
    ensures r.Keys == previous.Keys - current.Keys
    ensures forall k :: k in r ==> r[k] == previous[k]
  {
    map k | k in previous && k !in current :: previous[k]
  }

  /** The outcome of one run of the monitoring task. */
  datatype Tick =
    | Skipped                                                   // no status list: early return
    | Checked(newDelays: Delays, resolved: Delays, current: Delays)

  /** Whether the tick sends notifications. */
  predicate Notifies(t: Tick)
  {
    t.Checked? && (|t.newDelays| > 0 || |t.resolved| > 0)
  }

  /** The `previous_delays` the next tick sees. */
  function NextPrevious(previous: Delays, t: Tick): Delays
  {
    if t.Checked? then t.current else previous
  }

  /**
   * One tick: `fetched` is the result of `get_train_status`, None when the request failed or the
   * call raised (the handler at line 80 catches it before anything changes).
   * An empty or missing list skips the tick; otherwise the stored state becomes the current delays.
   */
  function MonitorTick(previous: Delays, fetched: Option<seq<StatusInfo>>): (r: Tick)
    ensures r.Skipped? <==> fetched.None? || |fetched.value| == 0
    ensures r.Skipped? ==> NextPrevious(previous, r) == previous && !Notifies(r)
    ensures r.Checked? ==> (r.current == CurrentDelays(fetched.value)
      && r.newDelays == NewDelays(previous, r.current) && r.resolved == ResolvedDelays(previous, r.current))
    ensures r.Checked? ==> NextPrevious(previous, r) == CurrentDelays(fetched.value)
    ensures r.Checked? ==> r.newDelays.Keys !! r.resolved.Keys
    ensures r.Checked? ==> r.newDelays.Keys + r.resolved.Keys <= previous.Keys + r.current.Keys
  {
    if fetched.None? || |fetched.value| == 0 then Skipped
    else
      var current := CurrentDelays(fetched.value);
      Checked(NewDelays(previous, current), ResolvedDelays(previous, current), current)
  }

  /** Nothing is new and nothing resolved exactly when the delayed railways and their texts are unchanged. */
  lemma QuietIffUnchanged(previous: Delays, current: Delays)
    ensures (|NewDelays(previous, current)| == 0 && |ResolvedDelays(previous, current)| == 0) <==>
      (current.Keys == previous.Keys && forall k :: k in previous ==> previous[k].status == current[k].status)
  {
    var n := NewDelays(previous, current);
    var res := ResolvedDelays(previous, current);
    if |n| == 0 && |res| == 0 {
      forall k | k in current
        ensures k in previous && previous[k].status == current[k].status
      {
        assert k !in n;
      }
      forall k | k in previous
        ensures k in current
      {
        assert k !in res;
      }
    }
  }

  /** A second tick with the same status list sends nothing and keeps the same state. */
  lemma TickIdempotent(previous: Delays, fetched: Option<seq<StatusInfo>>)
    ensures var t1 := MonitorTick(previous, fetched);
            var t2 := MonitorTick(NextPrevious(previous, t1), fetched);
            !Notifies(t2) && NextPrevious(NextPrevious(previous, t1), t2) == NextPrevious(previous, t1)
  {
    var t1 := MonitorTick(previous, fetched);
    if t1.Checked? {
      QuietIffUnchanged(t1.current, t1.current);
    }
  }

  /**
   * The state after a tick as the code stands. `send_delay_notifications` starts with
   * `self.config.get_all_delay_channels()` (cogs/delay_monitor.py:85), outside its per-channel
   * `try`, and `Config` (env/config.py) defines no such method. The AttributeError reaches the
   * handler at line 80, so the update at line 78 is skipped whenever the tick has something to send.
   */
  function NextPreviousAsWritten(previous: Delays, t: Tick): Delays
  {
    if Notifies(t) then previous else NextPrevious(previous, t)
  }

  /**
   * As written, a tick with something to send keeps the old state, so the next tick on the same
   * data finds the same new and resolved delays and tries to send them again.
   */
  lemma AsWrittenRenotifies(previous: Delays, fetched: Option<seq<StatusInfo>>)
    ensures var t1 := MonitorTick(previous, fetched);
            Notifies(t1) ==>
              NextPreviousAsWritten(previous, t1) == previous
              && MonitorTick(NextPreviousAsWritten(previous, t1), fetched) == t1
  {
  }

  /** A delayed Ginza line with nothing remembered: as written it is reported on every tick. */
  lemma AsWrittenGinzaRepeats()
    ensures var ginza := StatusInfo(None, None, None, Some("odpt.Railway:TokyoMetro.Ginza"), None, None, Some("遅延"));
            var t1 := MonitorTick(map[], Some([ginza]));
            var t2 := MonitorTick(NextPreviousAsWritten(map[], t1), Some([ginza]));
            var t3 := MonitorTick(NextPrevious(map[], t1), Some([ginza]));
            Notifies(t1) && Notifies(t2) && !Notifies(t3)
  {
    var ginza := StatusInfo(None, None, None, Some("odpt.Railway:TokyoMetro.Ginza"), None, None, Some("遅延"));
    var text := "遅延";
    assert text[0..2][0] == '遅';
    assert !OccursAt(text, "正常", 0) && !OccursAt(text, "平常", 0);
    assert IsDelayed(ginza.status);
    assert DelayedAt([ginza], 0);
    var t1 := MonitorTick(map[], Some([ginza]));
    assert ginza.railway in t1.current;
    assert ginza.railway in t1.newDelays;
    TickIdempotent(map[], Some([ginza]));
  }

  // ---------------------------------------------------------------------
  // Railway display names.

  const MetroPrefix: string := "TokyoMetro."

  /** Display names of the nine Tokyo Metro lines, keyed by the id suffix after "TokyoMetro.". */
  const LineNames: map<string, string> := map[
    "Ginza" := "銀座線",
    "Marunouchi" := "丸ノ内線",
    "Hibiya" := "日比谷線",
    "Tozai" := "東西線",
    "Chiyoda" := "千代田線",
    "Yurakucho" := "有楽町線",
    "Hanzomon" := "半蔵門線",
    "Namboku" := "南北線",
    "Fukutoshin" := "副都心線"
  ]

  /**
   * `format_railway_name`: an id mentioning "TokyoMetro." becomes the Japanese name of the line
   * suffix after its last "TokyoMetro.", or that suffix plus "線" when the line is not one of
   * the nine; any other id is returned unchanged.
   */
  function FormatRailwayName(railway: string): string
  {
    if Contains(railway, MetroPrefix) then
      var line := LastPiece(railway, MetroPrefix);
      if line in LineNames then LineNames[line] else line + "線"
    else railway
  }

  /**
   * The cases of `format_railway_name`: the suffix used is the text after the last "TokyoMetro.",
   * a known suffix gets its fixed name, an unknown one gets "線" appended.
   */
  lemma FormatRailwayNameCases(railway: string)
    ensures !Contains(railway, MetroPrefix) ==> FormatRailwayName(railway) == railway
    ensures Contains(railway, MetroPrefix) ==>
      var line := LastPiece(railway, MetroPrefix);
      EndsWith(railway, MetroPrefix + line) && !Contains(line, MetroPrefix)
      && (line in LineNames ==> FormatRailwayName(railway) == LineNames[line])
      && (line !in LineNames ==> FormatRailwayName(railway) == line + "線")
  {
  }

  /** Every id mentioning "TokyoMetro." is displayed as a "線" (line) name. */
  lemma FormatRailwayNameIsLine(railway: string)
    requires Contains(railway, MetroPrefix)
    ensures EndsWith(FormatRailwayName(railway), "線")
  {
    var line := LastPiece(railway, MetroPrefix);
    if line !in LineNames {
      assert (line + "線")[|line + "線"| - 1..] == "線";
    }
  }

  /** The first "TokyoMetro." of a feed id starts right after "odpt.Railway:", which holds no 'T'. */
  lemma FindInFeedId(line: string)
    ensures FindFrom("odpt.Railway:" + MetroPrefix + line, MetroPrefix, 0) == Some(13)
  {
    var head := "odpt.Railway:";
    var id := head + MetroPrefix + line;
    forall j: nat | j < |head|
      ensures !OccursAt(id, MetroPrefix, j)
    {
      assert id[j] == head[j] != 'T';
      if j + |MetroPrefix| <= |id| {
        assert id[j..j + |MetroPrefix|][0] == id[j];
      }
    }
    assert id[13..24] == MetroPrefix;
    assert OccursAt(id, MetroPrefix, 13);
  }

  /** None of the nine line suffixes contains "TokyoMetro." again. */
  lemma LineSuffixHasNoPrefix(line: string)
    requires line in LineNames
    ensures !Contains(line, MetroPrefix)
  {
  }

  /** The ids of the feed, `odpt.Railway:TokyoMetro.<Line>`, get the fixed Japanese names. */
  lemma FormatKnownLine(line: string)
    requires line in LineNames
    ensures FormatRailwayName("odpt.Railway:" + MetroPrefix + line) == LineNames[line]
  {
    var id := "odpt.Railway:" + MetroPrefix + line;
    FindInFeedId(line);
    LineSuffixHasNoPrefix(line);
    assert id[24..] == line;
    assert LastPiece(id, MetroPrefix) == LastPiece(line, MetroPrefix) == line;
  }

  // ---------------------------------------------------------------------
  // The `delay_status` command.

  datatype DelayEntry = DelayEntry(railway: string, status: string)

  /** Both lists `delay_status` builds: delayed lines with their texts, and normally running lines. */
  datatype StatusLists = StatusLists(delays: seq<DelayEntry>, normal: seq<string>)

  /**
   * The partition loop of `delay_status`, using the monitor's predicate. None when a record has
   * no railway: `format_railway_name(None)` raises, and the command reports an error.
   */
  function {:induction false} Partition(infos: seq<StatusInfo>): (r: Option<StatusLists>)
    decreases |infos|
    ensures r.None? <==> exists i :: 0 <= i < |infos| && infos[i].railway.None?
    ensures r.Some? ==> |r.value.delays| + |r.value.normal| == |infos|
  {
    if |infos| == 0 then Some(StatusLists([], []))
    else
      var x := infos[0];
      var rest := Partition(infos[1..]);
      assert forall i :: 1 <= i < |infos| ==> infos[i] == infos[1..][i - 1];
      if x.railway.None? then None
      else if rest.None? then None
      else
        var name := FormatRailwayName(x.railway.value);
        if IsDelayed(x.status) then
          Some(StatusLists([DelayEntry(name, x.status.value)] + rest.value.delays, rest.value.normal))
        else
          Some(StatusLists(rest.value.delays, [name] + rest.value.normal))
  }

  /** The display name of a record; `delay_status` only reaches it for records with a railway. */
  function DisplayName(x: StatusInfo): string
  {
    if x.railway.Some? then FormatRailwayName(x.railway.value) else ""
  }

  /** The delay entry of a record; only delayed records, which have a status, are turned into one. */
  function EntryOf(x: StatusInfo): DelayEntry
  {
    DelayEntry(DisplayName(x), if x.status.Some? then x.status.value else "")
  }

  predicate DelayedRecord(x: StatusInfo)
  {
    IsDelayed(x.status)
  }

  predicate NormalRecord(x: StatusInfo)
  {
    !IsDelayed(x.status)
  }

  /**
   * The two lists are the comprehensions `[entry(x) for x in infos if delayed(x)]` and
   * `[name(x) for x in infos if not delayed(x)]`: each keeps its records in order.
   */
  lemma {:induction false} PartitionIsComprehension(infos: seq<StatusInfo>)
    requires Partition(infos).Some?
    ensures Partition(infos).value.delays == Seqs.FilterMap(DelayedRecord, EntryOf, infos)
    ensures Partition(infos).value.normal == Seqs.FilterMap(NormalRecord, DisplayName, infos)
    decreases |infos|
  {
    if |infos| > 0 {
      var x := infos[0];
      var tail := infos[1..];
      assert infos == [x] + tail;
      var rest := Partition(tail).value;
      PartitionIsComprehension(tail);
      Seqs.FilterMapCons(DelayedRecord, EntryOf, x, tail);
      Seqs.FilterMapCons(NormalRecord, DisplayName, x, tail);
      if IsDelayed(x.status) {
        assert Partition(infos).value == StatusLists([EntryOf(x)] + rest.delays, rest.normal);
      } else {
        assert Partition(infos).value == StatusLists(rest.delays, [DisplayName(x)] + rest.normal);
      }
    }
  }

  /** Every normal entry is the display name of a record that is not delayed. */
  lemma NormalEntriesComeFromRecords(infos: seq<StatusInfo>)
    requires Partition(infos).Some?
    ensures forall j :: 0 <= j < |Partition(infos).value.normal| ==>
      exists i :: (0 <= i < |infos| && !IsDelayed(infos[i].status) && infos[i].railway.Some?
        && Partition(infos).value.normal[j] == FormatRailwayName(infos[i].railway.value))
  {
    var normal := Partition(infos).value.normal;
    PartitionIsComprehension(infos);
    Seqs.FilterMapMembers(NormalRecord, DisplayName, infos);
    forall j | 0 <= j < |normal|
      ensures exists i :: (0 <= i < |infos| && !IsDelayed(infos[i].status) && infos[i].railway.Some?
        && normal[j] == FormatRailwayName(infos[i].railway.value))
    {
      var i :| 0 <= i < |infos| && NormalRecord(infos[i]) && normal[j] == DisplayName(infos[i]);
      assert infos[i].railway.Some?;
    }
  }

  /** Every listed delay comes from a delayed record, under its display name and with its text. */
  lemma {:induction false} ListedDelaysComeFromRecords(infos: seq<StatusInfo>)
    requires Partition(infos).Some?
    ensures forall j :: 0 <= j < |Partition(infos).value.delays| ==>
      exists i :: (DelayedAt(infos, i) && infos[i].status == Some(Partition(infos).value.delays[j].status)
        && infos[i].railway.Some?
        && Partition(infos).value.delays[j].railway == FormatRailwayName(infos[i].railway.value))
  {
    var delays := Partition(infos).value.delays;
    PartitionIsComprehension(infos);
    Seqs.FilterMapMembers(DelayedRecord, EntryOf, infos);
    forall j | 0 <= j < |delays|
      ensures exists i :: (DelayedAt(infos, i) && infos[i].status == Some(delays[j].status)
        && infos[i].railway.Some? && delays[j].railway == FormatRailwayName(infos[i].railway.value))
    {
      var i :| 0 <= i < |infos| && DelayedRecord(infos[i]) && delays[j] == EntryOf(infos[i]);
      assert infos[i].railway.Some?;
      assert DelayedAt(infos, i);
    }
  }

  /** Every delayed record is listed with its display name and text. */
  lemma {:induction false} DelayedRecordsAreListed(infos: seq<StatusInfo>)
    requires Partition(infos).Some?
    ensures forall i :: DelayedAt(infos, i) ==>
      infos[i].railway.Some?
      && DelayEntry(FormatRailwayName(infos[i].railway.value), infos[i].status.value) in Partition(infos).value.delays
    decreases |infos|
  {
    if |infos| > 0 {
      var tail := infos[1..];
      DelayedRecordsAreListed(tail);
      forall i | DelayedAt(infos, i) && i > 0
        ensures DelayedAt(tail, i - 1)
      {
        assert infos[i] == tail[i - 1];
      }
    }
  }

  /** Every record that is not delayed is listed among the normally running lines. */
  lemma {:induction false} NormalRecordsAreListed(infos: seq<StatusInfo>)
    requires Partition(infos).Some?
    ensures forall i :: 0 <= i < |infos| && !IsDelayed(infos[i].status) ==>
      infos[i].railway.Some? && FormatRailwayName(infos[i].railway.value) in Partition(infos).value.normal
    decreases |infos|
  {
    if |infos| > 0 {
      var tail := infos[1..];
      NormalRecordsAreListed(tail);
      assert forall i :: 1 <= i < |infos| ==> infos[i] == tail[i - 1];
    }
  }

  /** The delay list is non-empty exactly when some record is delayed. */
  lemma DelaysNonEmptyIff(infos: seq<StatusInfo>)
    requires Partition(infos).Some?
    ensures |Partition(infos).value.delays| > 0 <==> exists i :: DelayedAt(infos, i)
  {
    var split := Partition(infos).value;
    if exists i :: DelayedAt(infos, i) {
      var i :| DelayedAt(infos, i);
      DelayedRecordsAreListed(infos);
      assert DelayEntry(FormatRailwayName(infos[i].railway.value), infos[i].status.value) in split.delays;
    }
    if |split.delays| > 0 {
      ListedDelaysComeFromRecords(infos);
      var i :| DelayedAt(infos, i) && infos[i].status == Some(split.delays[0].status)
        && infos[i].railway.Some? && split.delays[0].railway == FormatRailwayName(infos[i].railway.value);
    }
  }

  /** What `delay_status` reports. */
  datatype StatusReport =
    | Failed                              // no status list, or a record without railway
    | NoDelays                            // "現在、遅延は発生していません"
    | Delayed(entries: seq<DelayEntry>)   // one field per delayed line

  function DelayStatus(fetched: Option<seq<StatusInfo>>): (r: StatusReport)
    ensures r.Failed? <==> (fetched.None? || |fetched.value| == 0
      || exists i :: 0 <= i < |fetched.value| && fetched.value[i].railway.None?)
    ensures r.Delayed? ==> |r.entries| > 0
    ensures r.Delayed? ==> r.entries == Partition(fetched.value).value.delays
    ensures !r.Failed? ==> (r.Delayed? <==> exists i :: DelayedAt(fetched.value, i))
  {
    if fetched.None? || |fetched.value| == 0 then Failed
    else match Partition(fetched.value)
      case None => Failed
      case Some(split) =>
        DelaysNonEmptyIff(fetched.value);
        if |split.delays| > 0 then Delayed(split.delays) else NoDelays
  }

  /**
   * A null `odpt:trainInformationText` in the feed makes `get_train_status` raise: the monitoring
   * task skips the tick, keeping its state and sending nothing, and `delay_status` replies with
   * its error message (the handler at line 262).
   */
  lemma NullTextSkipsTick(previous: Delays, raw: seq<RawInfo>, i: nat)
    requires i < |raw| && raw[i].informationText.NullMember?
    ensures MonitorTick(previous, ApiTokyoMetro.TrainStatus(raw)) == Skipped
    ensures NextPrevious(previous, MonitorTick(previous, ApiTokyoMetro.TrainStatus(raw))) == previous
    ensures DelayStatus(ApiTokyoMetro.TrainStatus(raw)) == Failed
  {
    assert !TextReadable(raw[i]);
  }

  /**
   * The report and the monitor agree, first direction: every railway the monitor holds as a
   * current delay is listed by `delay_status` under its display name.
   */
  lemma MonitoredDelaysAreListed(infos: seq<StatusInfo>, k: Option<string>)
    requires Partition(infos).Some?
    requires k in CurrentDelays(infos)
    ensures k.Some?
    ensures exists e :: e in Partition(infos).value.delays && e.railway == FormatRailwayName(k.value)
  {
    var i :| DelayedAt(infos, i) && infos[i].railway == k;
    DelayedRecordsAreListed(infos);
    var e := DelayEntry(FormatRailwayName(infos[i].railway.value), infos[i].status.value);
    assert e in Partition(infos).value.delays;
  }

  /**
   * Second direction: every line `delay_status` lists as delayed is the display name of a railway
   * the monitor holds as a current delay.
   */
  lemma ListedDelaysAreMonitored(infos: seq<StatusInfo>, j: int)
    requires Partition(infos).Some?
    requires 0 <= j < |Partition(infos).value.delays|
    ensures exists k :: (k in CurrentDelays(infos) && k.Some?
      && Partition(infos).value.delays[j].railway == FormatRailwayName(k.value))
  {
    var split := Partition(infos).value;
    ListedDelaysComeFromRecords(infos);
    var i :| DelayedAt(infos, i) && infos[i].status == Some(split.delays[j].status)
      && infos[i].railway.Some? && split.delays[j].railway == FormatRailwayName(infos[i].railway.value);
    var k := infos[i].railway;
    assert k in CurrentDelays(infos);
  }

}
