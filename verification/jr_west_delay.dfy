/**
 * main.py: the JR West line picker and delay report. The master data's `lines` object is an
 * ordered sequence of (key, line) entries; the train and station feeds of one line are inputs.
 */
module JrWestDelay {
  import opened Wrappers
  import opened Strings
  import opened Odpt
  import Seqs

  /** A value of the master data's `lines` object. */
  datatype Line = Line(name: string, range: string, pos: string)

  /** One key/value pair of `lines`, in document order. */
  datatype LineEntry = LineEntry(key: string, line: Line)

  /** The keys of a Python dict are distinct; this is the shape every `lines` value has. */
  predicate UniqueKeys(lines: seq<LineEntry>)
  {
    forall i, j :: 0 <= i < j < |lines| ==> lines[i].key != lines[j].key
  }

  /** Discord's cap on the options of a select and on autocomplete choices. */
  const GroupSize: nat := 25

  /** `f"{line['name']}({line['range']})"`, the label of a select option or a choice. */
  function Label(line: Line): string
  {
    line.name + "(" + line.range + ")"
  }

  // ---------------------------------------------------------------------
  // Groups and select chunks.

  datatype Groups = Groups(group1: seq<LineEntry>, group2: seq<LineEntry>)

  /** `split_lines_into_groups`: the first 25 entries, and the rest. */
  function SplitIntoGroups(lines: seq<LineEntry>): (r: Groups)
    ensures |r.group1| == Seqs.Min(GroupSize, |lines|)
    ensures r.group1 + r.group2 == lines
    ensures |lines| <= GroupSize ==> r.group2 == []
    ensures UniqueKeys(lines) ==> UniqueKeys(r.group1) && UniqueKeys(r.group2)
    ensures UniqueKeys(lines) ==>
      forall i, j :: 0 <= i < |r.group1| && 0 <= j < |r.group2| ==> r.group1[i].key != r.group2[j].key
  {
    var n := Seqs.Min(GroupSize, |lines|);
    assert forall j :: 0 <= j < |lines| - n ==> lines[n..][j] == lines[n + j];
    Groups(lines[..n], lines[n..])
  }

  /**
   * The selects of `LineSelectView`: consecutive slices of 25 entries; the `if not chunk: break`
   * never fires because every slice the range yields is non-empty.
   */
  function {:induction false} Chunks(items: seq<LineEntry>): (r: seq<seq<LineEntry>>)
    decreases |items|
    ensures |r| == (|items| + GroupSize - 1) / GroupSize
    ensures forall c :: 0 <= c < |r| ==> 0 < |r[c]| <= GroupSize
  {
    if |items| == 0 then []
    else
      var n := Seqs.Min(GroupSize, |items|);
      [items[..n]] + Chunks(items[n..])
  }

  /** The chunks, concatenated in order, give back the whole list: no entry is lost or repeated. */
  lemma {:induction false} ChunksConcatenate(items: seq<LineEntry>)
    ensures Seqs.Flatten(Chunks(items)) == items
    decreases |items|
  {
    if |items| > 0 {
      var n := Seqs.Min(GroupSize, |items|);
      var chunks := Chunks(items);
      assert chunks[1..] == Chunks(items[n..]);
      ChunksConcatenate(items[n..]);
      assert items[..n] + items[n..] == items;
    }
  }

  /** Every chunk but the last is full, so chunk `c` starts at entry `GroupSize * c`. */
  lemma {:induction false} ChunkStarts(items: seq<LineEntry>, c: nat)
    requires c < |Chunks(items)|
    ensures GroupSize * c < |items|
    ensures Chunks(items)[c] == items[GroupSize * c..Seqs.Min(GroupSize * c + GroupSize, |items|)]
    decreases c
  {
    var n := Seqs.Min(GroupSize, |items|);
    if c > 0 {
      var rest := items[n..];
      assert Chunks(items)[c] == Chunks(rest)[c - 1];
      ChunkStarts(rest, c - 1);
      var lo := GroupSize * (c - 1);
      var hi := Seqs.Min(lo + GroupSize, |rest|);
      assert n == GroupSize && GroupSize * c == n + lo;
      assert Seqs.Min(GroupSize * c + GroupSize, |items|) == n + hi;
      assert Chunks(rest)[c - 1] == rest[lo..hi];
      Seqs.SliceOfSuffix(items, n, lo, hi);
      assert items[GroupSize * c..Seqs.Min(GroupSize * c + GroupSize, |items|)] == items[n + lo..n + hi];
    } else {
      assert Chunks(items)[0] == items[..n];
    }
  }

  /** The group named by the command's `group` argument. */
  function SelectGroup(groups: Groups, group: string): (r: Option<seq<LineEntry>>)
    ensures r.Some? <==> group == "group1" || group == "group2"
    ensures group == "group1" ==> r == Some(groups.group1)
    ensures group == "group2" ==> r == Some(groups.group2)
  {
    if group == "group1" then Some(groups.group1)
    else if group == "group2" then Some(groups.group2)
    else None
  }

  // ---------------------------------------------------------------------
  // `line_autocomplete`.

  datatype Choice = Choice(name: string, value: string)

  function ChoiceOf(e: LineEntry): Choice
  {
    Choice(Label(e.line), e.key)
  }

  /** `current.lower() in name.lower()` for the entry's label. */
  function MatchesQuery(current: string): LineEntry -> bool
  {
    (e: LineEntry) => ContainsIgnoringCase(Label(e.line), current)
  }

  /** Reference definition: a choice for every matching entry, in map order, without the cap. */
  function MatchingChoices(entries: seq<LineEntry>, current: string): seq<Choice>
  {
    Seqs.FilterMap(MatchesQuery(current), ChoiceOf, entries)
  }

  /**
   * `line_autocomplete`: the matching entries of the chosen group in map order, stopping at the
   * 25th; no choices when the group argument is missing, empty or unknown, or the fetch failed.
   */
  method LineAutocomplete(lines: Option<seq<LineEntry>>, group: Option<string>, current: string)
    returns (choices: seq<Choice>)
    ensures group.None? || group == Some("") || lines.None? ==> choices == []
    ensures group.Some? && group.value != "group1" && group.value != "group2" ==> choices == []
    ensures lines.Some? && group.Some? && (group.value == "group1" || group.value == "group2") ==>
      choices == Seqs.Take(MatchingChoices(SelectGroup(SplitIntoGroups(lines.value), group.value).value, current), GroupSize)
    ensures |choices| <= GroupSize
    ensures forall j :: 0 <= j < |choices| ==> ContainsIgnoringCase(choices[j].name, current)
  {
    if group.None? || group.value == "" || lines.None? {
      return [];
    }
    var selected := SelectGroup(SplitIntoGroups(lines.value), group.value);
    if selected.None? {
      return [];
    }
    choices := Seqs.CollectCapped(MatchesQuery(current), ChoiceOf, selected.value, GroupSize);
    ghost var all := MatchingChoices(selected.value, current);
    Seqs.FilterMapMembers(MatchesQuery(current), ChoiceOf, selected.value);
    forall j | 0 <= j < |choices|
      ensures ContainsIgnoringCase(choices[j].name, current)
    {
      assert choices[j] == all[j];
      var i :| 0 <= i < |selected.value| && MatchesQuery(current)(selected.value[i])
        && all[j] == ChoiceOf(selected.value[i]);
    }
  }

  // ---------------------------------------------------------------------
  // The `jr_west_delay` command.

  /** `lines[key]`, None when the key is absent. */
  function FindLine(entries: seq<LineEntry>, key: string): (r: Option<Line>)
    ensures r.None? <==> forall i :: 0 <= i < |entries| ==> entries[i].key != key
    ensures r.Some? ==> exists i :: 0 <= i < |entries| && entries[i].key == key && entries[i].line == r.value
  {
    if |entries| == 0 then None
    else if entries[0].key == key then Some(entries[0].line)
    else
      var r := FindLine(entries[1..], key);
      assert forall i :: 1 <= i < |entries| ==> entries[i] == entries[1..][i - 1];
      r
  }

  /** The bullet list shown when no line is given. */
  function LineListing(entries: seq<LineEntry>): (r: string)
  {
    "以下の路線から選択してください：\n"
      + Join(seq(|entries|, i requires 0 <= i < |entries| => "• " + Label(entries[i].line)), "\n")
  }

  /** What the command replies with, the delay report itself aside. */
  datatype Reply =
    | InvalidGroup           // "無効なグループが選択されました。"
    | LineList(text: string) // the line listing of the group
    | InvalidLine            // "無効な路線が選択されました。"
    | Report(line: Line)     // `get_delay_info` for this line

  /** `jr_west_delay` once the master data has been fetched. */
  function JrWestDelayCommand(lines: seq<LineEntry>, group: string, line: Option<string>): (r: Reply)
    ensures r.InvalidGroup? <==> group != "group1" && group != "group2"
    ensures r.LineList? <==> !r.InvalidGroup? && line.None?
    ensures r.LineList? ==>
      r.text == LineListing(if group == "group1" then SplitIntoGroups(lines).group1 else SplitIntoGroups(lines).group2)
    ensures r.Report? ==> exists i :: (0 <= i < |lines| && lines[i].key == line.value
      && lines[i].line == r.line
      && (group == "group1" <==> i < GroupSize))
    ensures r.InvalidLine? ==> UniqueKeys(lines) ==> forall i :: (0 <= i < |lines| && lines[i].key == line.value ==>
      (group == "group1" <==> GroupSize <= i))
  {
    var groups := SplitIntoGroups(lines);
    match SelectGroup(groups, group)
    case None => InvalidGroup
    case Some(selected) =>
      if line.None? then LineList(LineListing(selected))
      else match FindLine(selected, line.value)
        case None => InvalidLine
        case Some(l) =>
          var n := |groups.group1|;
          assert forall i :: 0 <= i < |groups.group2| ==> groups.group2[i] == lines[n + i];
          Report(l)
  }

  // ---------------------------------------------------------------------
  // `get_delay_info`: the text of one line's report.

  /** `item["dest"]`: an object whose `text` is shown, or the text itself. */
  datatype Dest = DestObject(text: string) | DestText(s: string)

  /**
   * A train of the line's feed; `typeChange` is Missing when the key is absent and Null for a
   * JSON null.
   */
  datatype TrainItem = TrainItem(
    no: string,
    delayMinutes: int,
    pos: string,
    displayType: string,
    typeChange: Field,
    dest: Dest)

  /** `station["info"]` of the line's station feed. */
  datatype StationSt = StationSt(code: string, name: string)

  /** The `dictst` comprehension: code to name, a later station overriding an earlier one. */
  function StationNames(stations: seq<StationSt>): (r: map<string, string>)
    decreases |stations|
    ensures forall i :: 0 <= i < |stations| ==> stations[i].code in r
    ensures forall c :: c in r ==> exists i :: 0 <= i < |stations| && stations[i].code == c
  {
    if |stations| == 0 then map[]
    else
      var init := stations[..|stations| - 1];
      var last := stations[|stations| - 1];
      assert forall i :: 0 <= i < |init| ==> init[i] == stations[i];
      StationNames(init)[last.code := last.name]
  }

  /** The name stored for a code is that of the last station carrying the code. */
  lemma {:induction false} StationNamesLastWins(stations: seq<StationSt>, i: int)
    requires 0 <= i < |stations|
    requires forall k :: i < k < |stations| ==> stations[k].code != stations[i].code
    ensures StationNames(stations)[stations[i].code] == stations[i].name
    decreases |stations|
  {
    if i < |stations| - 1 {
      var init := stations[..|stations| - 1];
      assert init[i] == stations[i];
      StationNamesLastWins(init, i);
    }
  }

  const Nowhere: string := "どこかよくわかんない"

  /** The train's position: the station for the code before the first "_", or the fallback text. */
  function Position(pos: string, names: map<string, string>): string
  {
    var code := FirstPiece(pos, "_");
    if code in names then names[code] + "辺り" else Nowhere
  }

  /** A position written `<code>_<rest>` is looked up by `<code>`. */
  lemma PositionOfCode(code: string, rest: string, names: map<string, string>)
    requires !Contains(code, "_")
    ensures Position(code + "_" + rest, names) == (if code in names then names[code] + "辺り" else Nowhere)
  {
    var s := code + "_" + rest;
    assert OccursAt(s, "_", |code|);
    var r := FirstPiece(s, "_");
    assert OccursAt(s, "_", |r|);
    if |r| < |code| {
      assert code[|r|] == s[|r|];
      assert OccursAt(code, "_", |r|);
    }
    assert r == s[..|code|] == code;
  }

  /** A display type ending in "○" has that last character replaced by "速". */
  function NormalizeType(t: string): (r: string)
    ensures |r| == |t|
    ensures !EndsWith(r, "○")
    ensures forall i :: 0 <= i < |t| - 1 ==> r[i] == t[i]
    ensures !EndsWith(t, "○") ==> r == t
    ensures EndsWith(t, "○") ==> |r| > 0 && r[|r| - 1] == '速'
  {
    if EndsWith(t, "○") then t[..|t| - 1] + "速" else t
  }

  lemma NormalizeTypeIdempotent(t: string)
    ensures NormalizeType(NormalizeType(t)) == NormalizeType(t)
  {
  }

  /** `item.get("typeChange", "")` as shown: absent or a single blank gives "", null shows as "None". */
  function NormalizeTypeChange(tc: Field): (r: string)
    ensures r != " "
    ensures tc.Missing? || tc == Text(" ") ==> r == ""
    ensures tc.Text? && tc.s != " " ==> r == tc.s
    ensures tc.Null? ==> r == "None"
  {
    match tc
    case Missing => ""
    case Null => "None"
    case Text(s) => if s == " " then "" else s
  }

  function DestText(d: Dest): string
  {
    match d
    case DestObject(text) => text
    case DestText(s) => s
  }

  predicate IsLate(t: TrainItem)
  {
    t.delayMinutes > 0
  }

  /** The message line of one delayed train. */
  function TrainLine(t: TrainItem, names: map<string, string>): string
    requires IsLate(t)
  {
    NormalizeType(t.displayType) + " " + DestText(t.dest) + "行き " + NormalizeTypeChange(t.typeChange)
      + " " + t.no + " " + NatToString(t.delayMinutes) + "分遅れ " + Position(t.pos, names)
  }

  /** `delay_messages`: one line per train with a positive delay, in feed order. */
  function {:induction false} DelayMessages(trains: seq<TrainItem>, names: map<string, string>): (r: seq<string>)
    decreases |trains|
    ensures var late := Seqs.Filter(IsLate, trains);
      |r| == |late| && forall j :: 0 <= j < |r| ==> r[j] == TrainLine(late[j], names)
  {
    if |trains| == 0 then []
    else
      var rest := DelayMessages(trains[1..], names);
      if IsLate(trains[0]) then [TrainLine(trains[0], names)] + rest else rest
  }

  const NoDelayText: string := "現在、遅延情報はありません。"

  function Header(lineName: string, lineRange: string): string
  {
    "**" + lineName + "(" + lineRange + ")**\n"
  }

  /** `get_delay_info` after both fetches succeeded. */
  function DelayContent(lineName: string, lineRange: string, trains: seq<TrainItem>, stations: seq<StationSt>): (r: string)
    ensures (forall i :: 0 <= i < |trains| ==> !IsLate(trains[i])) ==>
      r == Header(lineName, lineRange) + NoDelayText
    ensures (exists i :: 0 <= i < |trains| && IsLate(trains[i])) ==>
      r == Header(lineName, lineRange) + Join(DelayMessages(trains, StationNames(stations)), "\n")
  {
    var msgs := DelayMessages(trains, StationNames(stations));
    var late := Seqs.Filter(IsLate, trains);
    assert |late| > 0 ==> late[0] in trains;
    Header(lineName, lineRange) + (if |msgs| > 0 then Join(msgs, "\n") else NoDelayText)
  }

}
