/** The asset-list line pattern `reAssetList` (parsers/assets.go:36-47).

    A line is a name, a tab, a quantity, then up to eight optional columns,
    each introduced by a tab, in this order: group, category, size, slot,
    volume (followed by " m3"), meta level, tech level, price estimate
    (followed by " ISK"). No group can contain a tab, so each group that
    takes part takes exactly one tab-separated column.

    Which optional groups take part is decided as Go's leftmost-first
    matching decides it: a greedy `?` tries "present" before "absent", and
    the first assignment (in that search order) that accounts for every
    column is the match. `Assign` is that search. */
module AssetGrammar {
  import opened Wrappers
  import opened TabColumns

  // Positions of the optional columns, in pattern order.
  const GroupCol := 0
  const CategoryCol := 1
  const SizeCol := 2
  const SlotCol := 3
  const VolumeCol := 4
  const MetaLevelCol := 5
  const TechLevelCol := 6
  const PriceCol := 7
  const OptionalCount := 8

  predicate IsDigit(c: char) { '0' <= c <= '9' }

  /** `[\S ]`: RE2's `\s` is `[\t\n\f\r ]`, so this admits every character
      except tab, newline, form feed and carriage return. */
  predicate IsTextChar(c: char) { c != '\t' && c != '\n' && c != '\U{000C}' && c != '\r' }

  /** `[\d,'\.\ ]`, the quantity and price characters. */
  predicate IsAmountChar(c: char) { IsDigit(c) || c == ',' || c == '\'' || c == '.' || c == ' ' }

  /** `[\d ,\.]`, the volume characters. */
  predicate IsVolumeChar(c: char) { IsDigit(c) || c == ' ' || c == ',' || c == '.' }

  /** `[\d ]`, the characters of a numbered slot. */
  predicate IsSlotNumberChar(c: char) { IsDigit(c) || c == ' ' }

  predicate AllText(s: string) { forall i :: 0 <= i < |s| ==> IsTextChar(s[i]) }
  predicate AllAmount(s: string) { forall i :: 0 <= i < |s| ==> IsAmountChar(s[i]) }
  predicate AllVolume(s: string) { forall i :: 0 <= i < |s| ==> IsVolumeChar(s[i]) }
  predicate AllDigits(s: string) { forall i :: 0 <= i < |s| ==> IsDigit(s[i]) }
  predicate AllSlotNumber(s: string) { forall i :: 0 <= i < |s| ==> IsSlotNumberChar(s[i]) }

  /** `XLarge|Large|Medium|Small|` */
  const SizeValues: set<string> := {"XLarge", "Large", "Medium", "Small", ""}

  /** `High|Medium|Low|Rigs|[\d ]*` */
  predicate IsSlotValue(v: string)
  {
    v in {"High", "Medium", "Low", "Rigs"} || AllSlotNumber(v)
  }

  /** Whether `v` can be the capture of optional column `g`. */
  predicate GroupOk(g: nat, v: string)
  {
    if g == GroupCol || g == CategoryCol then AllText(v)
    else if g == SizeCol then v in SizeValues
    else if g == SlotCol then IsSlotValue(v)
    else if g == VolumeCol then AllVolume(v)
    else if g == MetaLevelCol || g == TechLevelCol then AllDigits(v)
    else if g == PriceCol then v != [] && AllAmount(v)
    else false
  }

  /** The column text that carries capture `v` of optional column `g`. */
  function Column(g: nat, v: string): string
  {
    if g == VolumeCol then v + " m3" else if g == PriceCol then v + " ISK" else v
  }

  /** `col` without the literal `suffix` that must end it. */
  function StripSuffix(col: string, suffix: string): (r: Option<string>)
    ensures r.Some? ==> r.value + suffix == col
  {
    var n := |col| - |suffix|;
    if 0 <= n && col[n..] == suffix then
      assert col == col[..n] + col[n..];
      Some(col[..n])
    else None
  }

  lemma StripAppended(v: string, suffix: string)
    ensures StripSuffix(v + suffix, suffix) == Some(v)
  {
    var col := v + suffix;
    assert col[|v|..] == suffix && col[..|v|] == v;
  }

  /** The capture optional column `g` takes from `col`, if it can take it. */
  function Capture(g: nat, col: string): (r: Option<string>)
    ensures r.Some? ==> GroupOk(g, r.value) && Column(g, r.value) == col
  {
    var v := if g == VolumeCol then StripSuffix(col, " m3")
             else if g == PriceCol then StripSuffix(col, " ISK")
             else Some(col);
    if v.Some? && GroupOk(g, v.value) then v else None
  }

  /** Every capture is recovered from the column that carries it. */
  lemma CaptureColumn(g: nat, v: string)
    requires GroupOk(g, v)
    ensures Capture(g, Column(g, v)) == Some(v)
  {
    if g == VolumeCol {
      StripAppended(v, " m3");
    } else if g == PriceCol {
      StripAppended(v, " ISK");
    }
  }

  /** No column carrying a well-formed capture contains a tab. */
  lemma ColumnNoTab(g: nat, v: string)
    requires GroupOk(g, v)
    ensures NoTab(Column(g, v))
  {
    var col := Column(g, v);
    forall i | 0 <= i < |col| ensures col[i] != '\t' {
      if i < |v| {
        assert col[i] == v[i];
      }
    }
  }

  /** Leftmost-first assignment of the columns `cols` to the optional groups
      `g`, `g + 1`, ... : the group takes the next column when it can and the
      rest still matches, otherwise it is skipped. Each entry of the result
      is the group's capture, or None when the group did not take part. */
  function Assign(cols: seq<string>, g: nat): (r: Option<seq<Option<string>>>)
    requires g <= OptionalCount
    ensures r.Some? ==> |r.value| == OptionalCount - g
    ensures r.Some? ==> ValidFrom(r.value, g)
    decreases OptionalCount - g
  {
    if cols == [] then Some(seq(OptionalCount - g, _ => None))
    else if g == OptionalCount then None
    else
      var taken := Capture(g, cols[0]);
      var after := if taken.Some? then Assign(cols[1..], g + 1) else None;
      if after.Some? then Some([taken] + after.value)
      else
        match Assign(cols, g + 1)
        case Some(skipped) => Some([None] + skipped)
        case None => None
  }

  /** The columns an assignment accounts for, in order. */
  function Present(opt: seq<Option<string>>, g: nat): seq<string>
    decreases |opt|
  {
    if opt == [] then []
    else (if opt[0].Some? then [Column(g, opt[0].value)] else []) + Present(opt[1..], g + 1)
  }

  /** Every capture of `opt` (which starts at group `g`) is well formed. */
  ghost predicate ValidFrom(opt: seq<Option<string>>, g: nat)
  {
    forall k :: 0 <= k < |opt| && opt[k].Some? ==> GroupOk(g + k, opt[k].value)
  }

  lemma {:induction false} PresentNoTab(opt: seq<Option<string>>, g: nat)
    requires ValidFrom(opt, g)
    ensures forall k :: 0 <= k < |Present(opt, g)| ==> NoTab(Present(opt, g)[k])
    decreases |opt|
  {
    if opt != [] {
      ValidTail(opt, g);
      PresentNoTab(opt[1..], g + 1);
      if opt[0].Some? {
        assert GroupOk(g + 0, opt[0].value);
        ColumnNoTab(g, opt[0].value);
      }
    }
  }

  /** Soundness of the search: an assignment it finds accounts for exactly
      the given columns, and each capture is well formed. */
  lemma {:induction false} AssignSound(cols: seq<string>, g: nat)
    requires g <= OptionalCount
    requires Assign(cols, g).Some?
    ensures Present(Assign(cols, g).value, g) == cols
    ensures ValidFrom(Assign(cols, g).value, g)
    decreases OptionalCount - g
  {
    var opt := Assign(cols, g).value;
    if cols == [] {
      PresentNone(OptionalCount - g, g);
    } else {
      var taken := Capture(g, cols[0]);
      var after := if taken.Some? then Assign(cols[1..], g + 1) else None;
      if after.Some? {
        AssignSound(cols[1..], g + 1);
        assert opt == [taken] + after.value;
        assert opt[1..] == after.value;
        assert cols == [cols[0]] + cols[1..];
      } else {
        AssignSound(cols, g + 1);
        assert opt[1..] == Assign(cols, g + 1).value;
      }
    }
  }

  lemma {:induction false} PresentNone(n: nat, g: nat)
    ensures Present(seq(n, _ => None), g) == []
    decreases n
  {
    if n > 0 {
      var opt: seq<Option<string>> := seq(n, _ => None);
      assert opt[1..] == seq(n - 1, _ => None);
      PresentNone(n - 1, g + 1);
    }
  }

  /** Completeness of the search: whenever some assignment of well-formed
      captures accounts for the columns, the search finds one. */
  lemma {:induction false} AssignComplete(opt: seq<Option<string>>, g: nat)
    requires g <= OptionalCount && |opt| == OptionalCount - g
    requires ValidFrom(opt, g)
    ensures Assign(Present(opt, g), g).Some?
    decreases OptionalCount - g
  {
    var cols := Present(opt, g);
    if cols != [] {
      ValidTail(opt, g);
      AssignComplete(opt[1..], g + 1);
      if opt[0].Some? {
        assert GroupOk(g + 0, opt[0].value);
        CaptureColumn(g, opt[0].value);
        assert cols[1..] == Present(opt[1..], g + 1);
        AssignTake(cols, g);
      } else {
        assert cols == Present(opt[1..], g + 1);
        AssignSkip(cols, g);
      }
    }
  }

  /** The order in which the pattern tries assignments: group by group, a
      group taking part before it being skipped. `a` comes no later than
      `b` when they are equal, or at the first group where they differ `a`
      takes part and `b` does not. */
  predicate NoLaterThan(a: seq<Option<string>>, b: seq<Option<string>>)
    decreases |a|
  {
    a == b
    || (a != [] && b != [] &&
        ((a[0].Some? && b[0].None?) || (a[0] == b[0] && NoLaterThan(a[1..], b[1..]))))
  }

  /** The search is leftmost-first: among all admissible assignments that
      account for the same columns, the one it finds comes first in the
      order the pattern tries them. */
  lemma {:induction false} AssignFirst(opt: seq<Option<string>>, g: nat)
    requires g <= OptionalCount && |opt| == OptionalCount - g
    requires ValidFrom(opt, g)
    ensures Assign(Present(opt, g), g).Some?
    ensures NoLaterThan(Assign(Present(opt, g), g).value, opt)
    decreases OptionalCount - g
  {
    var cols := Present(opt, g);
    AssignComplete(opt, g);
    var r := Assign(cols, g).value;
    if cols == [] {
      PresentEmpty(opt, g);
      assert r == opt;
    } else {
      ValidTail(opt, g);
      AssignFirst(opt[1..], g + 1);
      if opt[0].Some? {
        var v := opt[0].value;
        assert GroupOk(g + 0, v);
        CaptureColumn(g, v);
        assert cols[0] == Column(g, v) && cols[1..] == Present(opt[1..], g + 1);
        assert r == [opt[0]] + Assign(cols[1..], g + 1).value;
        assert r[1..] == Assign(cols[1..], g + 1).value;
      } else {
        assert cols == Present(opt[1..], g + 1);
        var taken := Capture(g, cols[0]);
        var after := if taken.Some? then Assign(cols[1..], g + 1) else None;
        if after.Some? {
          assert r[0].Some?;
        } else {
          assert r == [None] + Assign(cols, g + 1).value;
          assert r[1..] == Assign(cols, g + 1).value;
        }
      }
    }
  }

  /** A column several groups admit goes to the first of them: "Medium", a
      valid group, size and slot, is read as the group. */
  lemma MediumIsGroup()
    ensures Assign(["Medium"], GroupCol) == Some([Some("Medium")] + seq(OptionalCount - 1, _ => None))
  {
    assert AllText("Medium");
    assert Capture(GroupCol, "Medium") == Some("Medium");
  }

  /** An assignment that accounts for no column has no group taking part. */
  lemma {:induction false} PresentEmpty(opt: seq<Option<string>>, g: nat)
    requires Present(opt, g) == []
    ensures opt == seq(|opt|, _ => None)
    decreases |opt|
  {
    if opt != [] {
      assert opt[0].None?;
      PresentEmpty(opt[1..], g + 1);
      assert opt == [opt[0]] + opt[1..];
    }
  }

  lemma ValidTail(opt: seq<Option<string>>, g: nat)
    requires opt != [] && ValidFrom(opt, g)
    ensures ValidFrom(opt[1..], g + 1)
  {
    forall k | 0 <= k < |opt[1..]| && opt[1..][k].Some?
      ensures GroupOk(g + 1 + k, opt[1..][k].value)
    {
      assert opt[1..][k] == opt[k + 1];
    }
  }

  /** The search takes a column for group `g` when the rest then matches. */
  lemma AssignTake(cols: seq<string>, g: nat)
    requires g < OptionalCount && cols != []
    requires Capture(g, cols[0]).Some? && Assign(cols[1..], g + 1).Some?
    ensures Assign(cols, g).Some?
  {
  }

  /** The search skips group `g` when the columns match from `g + 1`. */
  lemma AssignSkip(cols: seq<string>, g: nat)
    requires g < OptionalCount && cols != []
    requires Assign(cols, g + 1).Some?
    ensures Assign(cols, g).Some?
  {
  }

  /** One matched line: the name, the quantity text, and the captures of the
      eight optional columns. */
  datatype AssetRow = AssetRow(name: string, quantity: string, optional: seq<Option<string>>)
  {
    /** Go's submatch for optional column `g`: the empty string when the
        group did not take part. */
    function Captured(g: nat): (c: string)
      ensures g < |optional| && optional[g].Some? ==> c == optional[g].value
      ensures g >= |optional| || optional[g].None? ==> c == ""
    {
      if g < |optional| && optional[g].Some? then optional[g].value else ""
    }
  }

  ghost predicate WellFormedRow(row: AssetRow)
  {
    && AllText(row.name)
    && AllAmount(row.quantity)
    && |row.optional| == OptionalCount
    && ValidFrom(row.optional, 0)
  }

  /** `reAssetList.FindStringSubmatch(line)`, as a row or no match. */
  function MatchAssetLine(line: string): (r: Option<AssetRow>)
    ensures r.Some? ==> |Columns(line)| >= 2
    ensures r.Some? ==> r.value.name == line[..TabIndex(line)] && r.value.quantity == Columns(line)[1]
    ensures r.Some? ==> |r.value.optional| == OptionalCount
  {
    MatchColumns(Columns(line))
  }

  /** The pattern applied to a line already split at its tabs. */
  function MatchColumns(cols: seq<string>): (r: Option<AssetRow>)
    ensures r.Some? ==> |cols| >= 2 && r.value.name == cols[0] && r.value.quantity == cols[1]
    ensures r.Some? ==> AllText(r.value.name) && AllAmount(r.value.quantity)
    ensures r.Some? ==> |r.value.optional| == OptionalCount
  {
    if |cols| < 2 || !AllText(cols[0]) || !AllAmount(cols[1]) then None
    else
      match Assign(cols[2..], 0)
      case None => None
      case Some(opt) => Some(AssetRow(cols[0], cols[1], opt))
  }

  /** The line a row is read from: its columns joined with tabs. */
  function RowLine(row: AssetRow): string
  {
    JoinTabs(RowColumns(row))
  }

  function RowColumns(row: AssetRow): seq<string>
  {
    [row.name, row.quantity] + Present(row.optional, 0)
  }

  lemma MatchColumnsSound(cols: seq<string>)
    requires MatchColumns(cols).Some?
    ensures |cols| >= 2
    ensures WellFormedRow(MatchColumns(cols).value)
    ensures RowColumns(MatchColumns(cols).value) == cols
  {
    var opt := Assign(cols[2..], 0).value;
    assert MatchColumns(cols).value == AssetRow(cols[0], cols[1], opt);
    AssignSound(cols[2..], 0);
    assert [cols[0], cols[1]] + cols[2..] == cols;
  }

  /** A matched line is exactly its row written back out; its name is the
      text before the first tab, and that tab exists. */
  lemma MatchSound(line: string)
    requires MatchAssetLine(line).Some?
    ensures var row := MatchAssetLine(line).value;
      && WellFormedRow(row)
      && RowLine(row) == line
      && TabIndex(line) < |line|
      && row.name == line[..TabIndex(line)]
  {
    var cols := Columns(line);
    MatchColumnsSound(cols);
    JoinColumns(line);
  }

  /** Every well-formed row is recognised when written out as a line, and
      the row read back has the same name and quantity and writes out to
      the same line. */
  lemma MatchComplete(row: AssetRow)
    requires WellFormedRow(row)
    ensures MatchAssetLine(RowLine(row)).Some?
    ensures MatchAssetLine(RowLine(row)).value.name == row.name
    ensures MatchAssetLine(RowLine(row)).value.quantity == row.quantity
    ensures RowLine(MatchAssetLine(RowLine(row)).value) == RowLine(row)
  {
    var cols := RowColumns(row);
    PresentNoTab(row.optional, 0);
    assert forall k :: 0 <= k < |cols| ==> NoTab(cols[k]) by {
      forall k | 0 <= k < |cols| ensures NoTab(cols[k]) {
        if k >= 2 {
          assert cols[k] == Present(row.optional, 0)[k - 2];
        }
      }
    }
    ColumnsJoin(cols);
    assert cols[2..] == Present(row.optional, 0);
    AssignComplete(row.optional, 0);
    MatchSound(RowLine(row));
  }

  /** A line with no tab after the name cannot match. */
  lemma NoTabNoMatch(line: string)
    requires NoTab(line)
    ensures MatchAssetLine(line).None?
  {
    SingleColumn(line);
  }

  /** The value sets the pattern allows for its enumerated and numeric
      columns; a group that did not take part reads as "". */
  lemma CapturedValues(line: string)
    requires MatchAssetLine(line).Some?
    ensures var row := MatchAssetLine(line).value;
      && row.Captured(SizeCol) in SizeValues
      && IsSlotValue(row.Captured(SlotCol))
      && AllVolume(row.Captured(VolumeCol))
      && AllDigits(row.Captured(MetaLevelCol))
      && AllDigits(row.Captured(TechLevelCol))
      && AllAmount(row.Captured(PriceCol))
      && AllText(row.Captured(GroupCol))
      && AllText(row.Captured(CategoryCol))
      && AllAmount(row.quantity)
  {
    MatchSound(line);
    var row := MatchAssetLine(line).value;
    assert row.optional[SizeCol].Some? ==> GroupOk(0 + SizeCol, row.optional[SizeCol].value);
    assert row.optional[SlotCol].Some? ==> GroupOk(0 + SlotCol, row.optional[SlotCol].value);
    assert row.optional[VolumeCol].Some? ==> GroupOk(0 + VolumeCol, row.optional[VolumeCol].value);
    assert row.optional[MetaLevelCol].Some? ==> GroupOk(0 + MetaLevelCol, row.optional[MetaLevelCol].value);
    assert row.optional[TechLevelCol].Some? ==> GroupOk(0 + TechLevelCol, row.optional[TechLevelCol].value);
    assert row.optional[PriceCol].Some? ==> GroupOk(0 + PriceCol, row.optional[PriceCol].value);
    assert row.optional[GroupCol].Some? ==> GroupOk(0 + GroupCol, row.optional[GroupCol].value);
    assert row.optional[CategoryCol].Some? ==> GroupOk(0 + CategoryCol, row.optional[CategoryCol].value);
  }
}
