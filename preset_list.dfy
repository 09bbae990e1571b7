/**
 * The preset list: telling grouped presets from a flat list, which preset is
 * highlighted for the current value, and what a click reports.
 */
module PresetList {
  import opened Wrappers
  import opened DateFns
  import opened Types
  import opened DateUtils
  import opened Presets

  /** An element of the list the caller passes: a preset, or a group of presets. */
  datatype PresetItem = Item(preset: PresetRange) | Group(group: PresetGroup)

  /** A list is taken as grouped when it is not empty and its first element is a group. */
  function IsGroupedPresets(items: seq<PresetItem>): (r: bool)
    ensures |items| == 0 ==> !r
    ensures r <==> |items| > 0 && items[0].Group?
  {
    |items| > 0 && items[0].Group?
  }

  /** Whether every element is a group, or every element is a preset. */
  predicate IsUniform(items: seq<PresetItem>)
  {
    (forall i :: 0 <= i < |items| ==> items[i].Group?) ||
    (forall i :: 0 <= i < |items| ==> items[i].Item?)
  }

  /** Only the first element decides: whatever follows it does not change the verdict. */
  lemma GroupedLooksAtFirstOnly(items: seq<PresetItem>, rest: seq<PresetItem>)
    requires |items| > 0
    ensures IsGroupedPresets(items) == IsGroupedPresets([items[0]] + rest)
    ensures IsUniform(items) ==>
              (IsGroupedPresets(items) <==> forall i :: 0 <= i < |items| ==> items[i].Group?)
  {
    if IsUniform(items) && !IsGroupedPresets(items) {
      assert items[0].Item?;
    }
  }

  /** A preset is highlighted when the range it yields now equals the value, day by day. */
  predicate IsPresetSelected(preset: PresetRange, value: DateRange, now: Date)
  {
    AreRangesEqual(GetValue(preset.getValue, now), value)
  }

  /** A click on a preset reports the range the preset yields, unchanged. */
  function HandlePresetClick(preset: PresetRange, now: Date): (r: DateRange)
    ensures r == GetValue(preset.getValue, now)
    ensures IsPresetSelected(preset, r, now)
  {
    RangeEqualityIsEquivalence(GetValue(preset.getValue, now), GetValue(preset.getValue, now), GetValue(preset.getValue, now));
    GetValue(preset.getValue, now)
  }

  /** Highlighting depends on the days of the value's bounds only. */
  lemma HighlightIgnoresTimeOfDay(preset: PresetRange, v: DateRange, w: DateRange, now: Date)
    requires DayBounds(v) == DayBounds(w)
    ensures IsPresetSelected(preset, v, now) == IsPresetSelected(preset, w, now)
  {
  }

  /** "Today" is highlighted exactly when the value starts and ends on the current day. */
  lemma TodayHighlightedIff(value: DateRange, now: Date)
    ensures IsPresetSelected(DefaultPresets[0], value, now) <==>
              value.startDate.Some? && value.endDate.Some? &&
              value.startDate.value.day == now.day && value.endDate.value.day == now.day
  {
    DayPresets(now, 1);
  }

  /**
   * On a Saturday the Sunday-to-Saturday week is also the last seven days, so
   * choosing either highlights both "Last 7 days" and "This week".
   */
  lemma SaturdayHighlightsTwoPresets(now: Date)
    requires GetDay(now) == 6
    ensures var v := GetValue(ThisWeek, now);
            IsPresetSelected(DefaultPresets[2], v, now) && IsPresetSelected(DefaultPresets[6], v, now)
    ensures var v := GetValue(LastDays(7), now);
            IsPresetSelected(DefaultPresets[2], v, now) && IsPresetSelected(DefaultPresets[6], v, now)
  {
    DayPresets(now, 7);
    WeekPresets(now);
    assert StartOfWeek(now, 0).day == now.day - 6;
  }

  // ---------------------------------------------------------------------
  // What the list shows

  /** A row of the list: a group heading (with a divider above all but the first) or a preset. */
  datatype Row =
    | Heading(name: string, divider: bool)
    | Choice(name: string, shortcut: Option<string>, selected: bool)

  /** The row of one preset; its shortcut is shown when shortcuts are on and it is a non-empty text. */
  function PresetRow(p: PresetRange, value: DateRange, now: Date, showShortcuts: bool): Row
  {
    Choice(p.name,
           if showShortcuts && p.shortcut.Some? && p.shortcut.value != "" then p.shortcut else None,
           IsPresetSelected(p, value, now))
  }

  function PresetRows(ps: seq<PresetRange>, value: DateRange, now: Date, showShortcuts: bool): (r: seq<Row>)
    ensures |r| == |ps|
    ensures forall i :: 0 <= i < |ps| ==> r[i] == PresetRow(ps[i], value, now, showShortcuts)
  {
    seq(|ps|, i requires 0 <= i < |ps| => PresetRow(ps[i], value, now, showShortcuts))
  }

  /** Rows of a flat list; `None` when an element is a group, which a flat list cannot render. */
  function FlatRows(items: seq<PresetItem>, value: DateRange, now: Date, showShortcuts: bool): Option<seq<Row>>
    decreases |items|
  {
    if |items| == 0 then Some([])
    else if items[0].Group? then None
    else match FlatRows(items[1..], value, now, showShortcuts)
      case None => None
      case Some(rest) => Some([PresetRow(items[0].preset, value, now, showShortcuts)] + rest)
  }

  /** Rows of a grouped list from position `first` on; `None` when an element is a bare preset. */
  function GroupRows(items: seq<PresetItem>, first: bool, value: DateRange, now: Date, showShortcuts: bool): Option<seq<Row>>
    decreases |items|
  {
    if |items| == 0 then Some([])
    else if items[0].Item? then None
    else
      var g := items[0].group;
      match GroupRows(items[1..], false, value, now, showShortcuts)
      case None => None
      case Some(rest) => Some([Heading(g.name, !first)] + PresetRows(g.presets, value, now, showShortcuts) + rest)
  }

  /** What the list renders: grouped when the first element is a group, flat otherwise. */
  function RenderRows(items: seq<PresetItem>, value: DateRange, now: Date, showShortcuts: bool): Option<seq<Row>>
  {
    if IsGroupedPresets(items) then GroupRows(items, true, value, now, showShortcuts)
    else FlatRows(items, value, now, showShortcuts)
  }

  /** The preset rows among `rows`, in order. */
  function Choices(rows: seq<Row>): (r: seq<Row>)
    ensures forall i :: 0 <= i < |r| ==> r[i].Choice?
  {
    if |rows| == 0 then []
    else if rows[0].Choice? then [rows[0]] + Choices(rows[1..])
    else Choices(rows[1..])
  }

  lemma {:induction false} ChoicesOfConcat(a: seq<Row>, b: seq<Row>)
    ensures Choices(a + b) == Choices(a) + Choices(b)
    decreases |a|
  {
    if |a| == 0 {
      assert a + b == b;
    } else {
      assert (a + b)[0] == a[0];
      assert (a + b)[1..] == a[1..] + b;
      ChoicesOfConcat(a[1..], b);
      if a[0].Choice? {
        assert Choices(a + b) == [a[0]] + Choices(a[1..] + b);
      } else {
        assert Choices(a + b) == Choices(a[1..] + b);
      }
    }
  }

  lemma {:induction false} ChoicesOfPresetRows(ps: seq<PresetRange>, value: DateRange, now: Date, showShortcuts: bool)
    ensures Choices(PresetRows(ps, value, now, showShortcuts)) == PresetRows(ps, value, now, showShortcuts)
    decreases |ps|
  {
    var rows := PresetRows(ps, value, now, showShortcuts);
    if |ps| > 0 {
      ChoicesOfPresetRows(ps[1..], value, now, showShortcuts);
      assert rows[1..] == PresetRows(ps[1..], value, now, showShortcuts);
    }
  }

  /** The presets of all groups, in order. */
  function AllPresets(gs: seq<PresetGroup>): seq<PresetRange>
  {
    if |gs| == 0 then [] else gs[0].presets + AllPresets(gs[1..])
  }

  function AsGroups(gs: seq<PresetGroup>): (r: seq<PresetItem>)
    ensures |r| == |gs| && forall i :: 0 <= i < |gs| ==> r[i] == Group(gs[i])
  {
    seq(|gs|, i requires 0 <= i < |gs| => Group(gs[i]))
  }

  function AsItems(ps: seq<PresetRange>): (r: seq<PresetItem>)
    ensures |r| == |ps| && forall i :: 0 <= i < |ps| ==> r[i] == Item(ps[i])
  {
    seq(|ps|, i requires 0 <= i < |ps| => Item(ps[i]))
  }

  /** A flat list of presets renders one row per preset, in order. */
  lemma {:induction false} FlatListRendersEveryPreset(ps: seq<PresetRange>, value: DateRange, now: Date, showShortcuts: bool)
    ensures RenderRows(AsItems(ps), value, now, showShortcuts) == Some(PresetRows(ps, value, now, showShortcuts))
    decreases |ps|
  {
    if |ps| > 0 {
      FlatListRendersEveryPreset(ps[1..], value, now, showShortcuts);
      assert AsItems(ps)[1..] == AsItems(ps[1..]);
      assert PresetRows(ps, value, now, showShortcuts) ==
             [PresetRow(ps[0], value, now, showShortcuts)] + PresetRows(ps[1..], value, now, showShortcuts);
    }
  }

  lemma PresetRowsOfConcat(a: seq<PresetRange>, b: seq<PresetRange>, value: DateRange, now: Date, showShortcuts: bool)
    ensures PresetRows(a + b, value, now, showShortcuts) ==
            PresetRows(a, value, now, showShortcuts) + PresetRows(b, value, now, showShortcuts)
  {
  }

  /** The rows of a non-empty grouped list: the first group's heading and presets, then the rest. */
  lemma GroupRowsStep(gs: seq<PresetGroup>, first: bool, value: DateRange, now: Date, showShortcuts: bool)
    requires |gs| > 0
    requires GroupRows(AsGroups(gs[1..]), false, value, now, showShortcuts).Some?
    ensures GroupRows(AsGroups(gs), first, value, now, showShortcuts) ==
            Some([Heading(gs[0].name, !first)] + PresetRows(gs[0].presets, value, now, showShortcuts) +
                 GroupRows(AsGroups(gs[1..]), false, value, now, showShortcuts).value)
  {
    assert AsGroups(gs)[1..] == AsGroups(gs[1..]);
  }

  /** A grouped list shows the presets of all its groups, in order, each highlighted as in a flat list. */
  lemma {:induction false} GroupedChoicesAreFlatRows(gs: seq<PresetGroup>, first: bool, value: DateRange, now: Date, showShortcuts: bool)
    ensures GroupRows(AsGroups(gs), first, value, now, showShortcuts).Some?
    ensures Choices(GroupRows(AsGroups(gs), first, value, now, showShortcuts).value) ==
            PresetRows(AllPresets(gs), value, now, showShortcuts)
    decreases |gs|
  {
    if |gs| > 0 {
      GroupedChoicesAreFlatRows(gs[1..], false, value, now, showShortcuts);
      GroupRowsStep(gs, first, value, now, showShortcuts);
      var head := [Heading(gs[0].name, !first)];
      var mine := PresetRows(gs[0].presets, value, now, showShortcuts);
      var rest := GroupRows(AsGroups(gs[1..]), false, value, now, showShortcuts).value;
      ChoicesOfConcat(head + mine, rest);
      ChoicesOfConcat(head, mine);
      ChoicesOfPresetRows(gs[0].presets, value, now, showShortcuts);
      PresetRowsOfConcat(gs[0].presets, AllPresets(gs[1..]), value, now, showShortcuts);
    }
  }

  /** Four groups hold their presets in turn. */
  lemma AllPresetsOfFour(gs: seq<PresetGroup>)
    requires |gs| == 4
    ensures AllPresets(gs) == gs[0].presets + gs[1].presets + gs[2].presets + gs[3].presets
  {
    assert AllPresets(gs[3..]) == gs[3].presets + AllPresets(gs[4..]);
    assert AllPresets(gs[2..]) == gs[2].presets + AllPresets(gs[3..]);
    assert AllPresets(gs[1..]) == gs[1].presets + AllPresets(gs[2..]);
  }

  /** The built-in groups hold exactly the built-in presets, in order. */
  lemma GroupedPresetsCoverDefaults()
    ensures AllPresets(GroupedPresets) == DefaultPresets
  {
    GroupsPartitionDefaults();
    AllPresetsOfFour(GroupedPresets);
  }

  /** The grouped built-in presets show the same rows, with the same highlights, as the flat built-in list. */
  lemma GroupedDefaultsMatchFlatDefaults(value: DateRange, now: Date, showShortcuts: bool)
    ensures IsGroupedPresets(AsGroups(GroupedPresets))
    ensures RenderRows(AsGroups(GroupedPresets), value, now, showShortcuts).Some?
    ensures RenderRows(AsItems(DefaultPresets), value, now, showShortcuts).Some?
    ensures Choices(RenderRows(AsGroups(GroupedPresets), value, now, showShortcuts).value) ==
            RenderRows(AsItems(DefaultPresets), value, now, showShortcuts).value
  {
    GroupedChoicesAreFlatRows(GroupedPresets, true, value, now, showShortcuts);
    GroupsPartitionDefaults();
    GroupedPresetsCoverDefaults();
    FlatListRendersEveryPreset(DefaultPresets, value, now, showShortcuts);
  }
}
