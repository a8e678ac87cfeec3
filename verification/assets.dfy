/** The asset-list parser (parsers/assets.go).

    `ParseAssets` matches every buffered line against the asset-list
    pattern, turns each match into an `AssetItem`, sorts the items by their
    rendering and hands back the lines that did not match.

    The helpers the parser calls but that are not part of this model are
    parameters: `toInt` (ToInt), `cleanTypeName` (CleanTypeName) and `key`,
    the rendering `fmt.Sprintf("%v", item)` that the sort compares. */
module Assets {
  import opened Wrappers
  import opened Sorting
  import opened AssetGrammar
  import opened LineBuffer

  /** `AssetItem`. Volume and price estimate stay the decimal text of their
      columns: the floating-point conversion is not part of this model. */
  datatype AssetItem = AssetItem(
    name: string,
    quantity: int,
    volume: string,
    group: string,
    category: string,
    size: string,
    slot: string,
    metaLevel: string,
    techLevel: string,
    priceEstimate: string)

  /** `AssetList`: the items and the indices of the lines they came from. */
  class AssetList {
    var items: seq<AssetItem>
    var lines: seq<int>

    constructor ()
      ensures items == [] && lines == []
    {
      items, lines := [], [];
    }

    /** One item per claimed line, no line claimed twice, no zero quantity. */
    ghost predicate Valid()
      reads this
    {
      && |items| == |lines|
      && (forall x :: multiset(lines)[x] <= 1)
      && (forall k :: 0 <= k < |items| ==> items[k].quantity != 0)
    }

    function Name(): (n: string)
      ensures n == "assets"
    {
      "assets"
    }

    function Lines(): (r: seq<int>)
      reads this
      ensures r == lines
      ensures Valid() ==> |r| == |items| && forall x :: multiset(r)[x] <= 1
    {
      lines
    }
  }

  /** The quantity rule: a quantity that reads as zero becomes 1. */
  function QuantityOrOne(n: int): (q: int)
    ensures q != 0
    ensures n != 0 ==> q == n
    ensures n == 0 ==> q == 1
  {
    if n == 0 then 1 else n
  }

  /** The item built from one matched row. */
  function AssetItemOf(row: AssetRow, toInt: string -> int, cleanTypeName: string -> string): (item: AssetItem)
    ensures item.quantity != 0
  {
    AssetItem(
      cleanTypeName(row.name),
      QuantityOrOne(toInt(row.quantity)),
      row.Captured(VolumeCol),
      row.Captured(GroupCol),
      row.Captured(CategoryCol),
      row.Captured(SizeCol),
      row.Captured(SlotCol),
      row.Captured(MetaLevelCol),
      row.Captured(TechLevelCol),
      row.Captured(PriceCol))
  }

  /** What an item says about the line it came from: its name is the cleaned
      text before the first tab (and a tab follows it), its quantity is never
      zero, and its enumerated and numeric columns hold only the values the
      pattern allows. */
  lemma AssetItemFromLine(line: string, toInt: string -> int, cleanTypeName: string -> string)
    requires MatchAssetLine(line).Some?
    ensures var row := MatchAssetLine(line).value;
      var item := AssetItemOf(row, toInt, cleanTypeName);
      && TabColumns.TabIndex(line) < |line|
      && item.name == cleanTypeName(line[..TabColumns.TabIndex(line)])
      && |TabColumns.Columns(line)| >= 2
      && row.quantity == TabColumns.Columns(line)[1]
      && item.quantity != 0
      && (toInt(row.quantity) != 0 ==> item.quantity == toInt(row.quantity))
      && item.size in SizeValues
      && IsSlotValue(item.slot)
      && AllDigits(item.metaLevel)
      && AllDigits(item.techLevel)
      && AllVolume(item.volume)
      && AllAmount(item.priceEstimate)
      && AllText(item.group) && AllText(item.category)
  {
    MatchSound(line);
    CapturedValues(line);
  }

  /** The item each matched line of `m` yields, by line index. */
  function ItemsByLine(m: map<int, string>, toInt: string -> int, cleanTypeName: string -> string): (items: map<int, AssetItem>)
    ensures items.Keys == MatchedRows(m, MatchAssetLine).Keys
    ensures forall v :: v in items.Values ==> v.quantity != 0
  {
    var rows := MatchedRows(m, MatchAssetLine);
    map i | i in rows :: AssetItemOf(rows[i], toInt, cleanTypeName)
  }

  /** `ParseAssets`. The input buffer is left as it was. */
  method ParseAssets(input: Input, toInt: string -> int, cleanTypeName: string -> string, key: AssetItem -> string)
    returns (assets: AssetList, rest: Input)
    ensures fresh(assets) && fresh(rest)
    ensures assets.Valid()
    ensures multiset(assets.lines) == multiset(MatchedRows(input.lines, MatchAssetLine).Keys)
    ensures Within(assets.lines, ItemsByLine(input.lines, toInt, cleanTypeName))
    ensures multiset(assets.items) == multiset(ValuesAt(assets.lines, ItemsByLine(input.lines, toInt, cleanTypeName)))
    ensures SortedBy(assets.items, KeyOrder(key))
    ensures rest.lines == input.lines - MatchedRows(input.lines, MatchAssetLine).Keys
  {
    ghost var byLine := ItemsByLine(input.lines, toInt, cleanTypeName);
    assets := new AssetList();
    var matches, restLines := RegexParseLines(input.lines, MatchAssetLine);
    MatchedItems(input.lines, matches, toInt, cleanTypeName);
    var lines := MatchedLines(matches);
    var items := [];
    var i := 0;
    while i < |matches|
      invariant 0 <= i <= |matches|
      invariant Within(lines[..i], byLine)
      invariant items == ValuesAt(lines[..i], byLine)
    {
      var match_ := matches[i];
      var qty := toInt(match_.row.quantity);
      if qty == 0 {
        qty := 1;
      }
      items := items + [AssetItem(
        cleanTypeName(match_.row.name),
        qty,
        match_.row.Captured(VolumeCol),
        match_.row.Captured(GroupCol),
        match_.row.Captured(CategoryCol),
        match_.row.Captured(SizeCol),
        match_.row.Captured(SlotCol),
        match_.row.Captured(MetaLevelCol),
        match_.row.Captured(TechLevelCol),
        match_.row.Captured(PriceCol))];
      ValuesAtExtend(lines, byLine, i);
      i := i + 1;
    }
    assert lines[..i] == lines;
    items := SortByKey(items, key);
    NoRepeats(lines, MatchedRows(input.lines, MatchAssetLine).Keys);
    NonZeroQuantities(items, lines, byLine);
    assets.items, assets.lines := items, lines;
    rest := new Input(restLines);
  }

  /** Items read from lines whose items all have a quantity keep that
      property in any order. */
  lemma NonZeroQuantities(items: seq<AssetItem>, ls: seq<int>, byLine: map<int, AssetItem>)
    requires Within(ls, byLine)
    requires forall v :: v in byLine.Values ==> v.quantity != 0
    requires multiset(items) == multiset(ValuesAt(ls, byLine))
    ensures forall k :: 0 <= k < |items| ==> items[k].quantity != 0
  {
    ValuesAtValues(ls, byLine);
    forall k | 0 <= k < |items|
      ensures items[k].quantity != 0
    {
      assert items[k] in multiset(ValuesAt(ls, byLine));
      assert items[k] in byLine.Values;
    }
  }

  /** Each match's line yields, in `ItemsByLine`, the item built from the match. */
  lemma MatchedItems(m: map<int, string>, matches: seq<Match<AssetRow>>, toInt: string -> int, cleanTypeName: string -> string)
    requires forall k :: 0 <= k < |matches| ==>
      matches[k].line in m && MatchAssetLine(m[matches[k].line]) == Some(matches[k].row)
    ensures Within(MatchedLines(matches), ItemsByLine(m, toInt, cleanTypeName))
    ensures forall k :: 0 <= k < |matches| ==>
      var byLine := ItemsByLine(m, toInt, cleanTypeName);
      matches[k].line in byLine && byLine[matches[k].line] == AssetItemOf(matches[k].row, toInt, cleanTypeName)
  {
  }

  /** A line with no tab is never claimed: it stays in the rest. */
  lemma UntabbedLineStays(m: map<int, string>, i: int)
    requires i in m && TabColumns.NoTab(m[i])
    ensures i in m - MatchedRows(m, MatchAssetLine).Keys
  {
    NoTabNoMatch(m[i]);
  }

  /** What output order does not depend on: any two runs of the parser
      over the same buffer, whatever order they claimed the lines in,
      return the same items, and position by position items with the same
      rendering. Items with equal renderings may change places between
      runs; only with a rendering that tells distinct items apart are the
      two item sequences equal. */
  lemma AssetsOrderIndependent(m: map<int, string>, ls1: seq<int>, ls2: seq<int>,
                               items1: seq<AssetItem>, items2: seq<AssetItem>,
                               toInt: string -> int, cleanTypeName: string -> string, key: AssetItem -> string)
    requires Within(ls1, ItemsByLine(m, toInt, cleanTypeName))
    requires multiset(ls1) == multiset(MatchedRows(m, MatchAssetLine).Keys) == multiset(ls2)
    requires multiset(items1) == multiset(ValuesAt(ls1, ItemsByLine(m, toInt, cleanTypeName)))
    requires Within(ls2, ItemsByLine(m, toInt, cleanTypeName))
    requires multiset(items2) == multiset(ValuesAt(ls2, ItemsByLine(m, toInt, cleanTypeName)))
    requires SortedBy(items1, KeyOrder(key)) && SortedBy(items2, KeyOrder(key))
    ensures multiset(items1) == multiset(items2)
    ensures |items1| == |items2| && forall i :: 0 <= i < |items1| ==> key(items1[i]) == key(items2[i])
    ensures Injective(key) ==> items1 == items2
  {
    ValuesAtPermutation(ls1, ls2, ItemsByLine(m, toInt, cleanTypeName));
    SortedSameKeys(items1, items2, key);
    if Injective(key) {
      KeyOrderIsAntisymmetric(key);
      SortedUnique(items1, items2, KeyOrder(key));
    }
  }
}
