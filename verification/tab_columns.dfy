/** Splitting a line into its tab-separated columns.

    Every capture group of the asset-list pattern excludes the tab
    character and each group is introduced by a tab, so a line matches the
    pattern exactly when its tab-separated columns match the groups one by
    one. This module provides the split and its inverse. */
module TabColumns {

  predicate NoTab(s: string)
  {
    forall i :: 0 <= i < |s| ==> s[i] != '\t'
  }

  /** Index of the first tab in `s`, or `|s|` when there is none. */
  function TabIndex(s: string): (k: nat)
    ensures k <= |s|
    ensures k < |s| ==> s[k] == '\t'
    ensures NoTab(s[..k])
  {
    if s == [] || s[0] == '\t' then 0
    else
      var k := 1 + TabIndex(s[1..]);
      assert s[..k] == [s[0]] + s[1..][..k - 1];
      k
  }

  /** The tab-separated columns of `s`; the first is the text before the first tab. */
  function Columns(s: string): (cols: seq<string>)
    ensures |cols| >= 1
    ensures cols[0] == s[..TabIndex(s)]
    ensures forall k :: 0 <= k < |cols| ==> NoTab(cols[k])
    decreases |s|
  {
    var k := TabIndex(s);
    if k == |s| then [s] else [s[..k]] + Columns(s[k + 1..])
  }

  function JoinTabs(cols: seq<string>): string
    requires |cols| >= 1
    decreases |cols|
  {
    if |cols| == 1 then cols[0] else cols[0] + "\t" + JoinTabs(cols[1..])
  }

  lemma {:induction false} JoinColumns(s: string)
    ensures JoinTabs(Columns(s)) == s
    decreases |s|
  {
    var k := TabIndex(s);
    if k < |s| {
      var t := s[k + 1..];
      JoinColumns(t);
      assert Columns(s)[1..] == Columns(t);
      assert s == s[..k] + [s[k]] + t;
    }
  }

  /** A line without a tab is a single column. */
  lemma SingleColumn(s: string)
    requires NoTab(s)
    ensures Columns(s) == [s]
  {
  }

  /** The first tab of `c + "\t" + t` is the one after `c` when `c` has none. */
  lemma TabIndexAfter(c: string, t: string)
    requires NoTab(c)
    ensures TabIndex(c + "\t" + t) == |c|
  {
    var s := c + "\t" + t;
    var k := TabIndex(s);
    assert s[|c|] == '\t';
  }

  lemma {:induction false} ColumnsJoin(cols: seq<string>)
    requires |cols| >= 1
    requires forall k :: 0 <= k < |cols| ==> NoTab(cols[k])
    ensures Columns(JoinTabs(cols)) == cols
    decreases |cols|
  {
    if |cols| == 1 {
      SingleColumn(cols[0]);
    } else {
      var c, rest := cols[0], cols[1..];
      assert forall k :: 0 <= k < |rest| ==> NoTab(rest[k]) by {
        assert forall k :: 0 <= k < |rest| ==> rest[k] == cols[k + 1];
      }
      ColumnsJoin(rest);
      var t := JoinTabs(rest);
      assert JoinTabs(cols) == c + "\t" + t;
      ColumnsCons(c, t);
      assert cols == [c] + rest;
    }
  }

  /** A tab-free column, a tab and more text split into that column and
      the columns of the text. */
  lemma ColumnsCons(c: string, t: string)
    requires NoTab(c)
    ensures Columns(c + "\t" + t) == [c] + Columns(t)
  {
    var s := c + "\t" + t;
    TabIndexAfter(c, t);
    assert s[..|c|] == c && s[|c| + 1..] == t;
  }
}
