/** The shared line buffer every parser claims lines from, and the
    pattern-driven claiming the parsers share. */
module LineBuffer {
  import opened Wrappers
  import opened Sorting

  /** `Input`: line index to line text. A Go map is a reference, so a parser
      that deletes entries from it changes the caller's buffer too; here the
      map is the field of an object, and a parser that deletes says so with
      `modifies`. */
  class Input {
    var lines: map<int, string>

    constructor (lines: map<int, string>)
      ensures this.lines == lines
    {
      this.lines := lines;
    }
  }

  /** One element of a match list: the line index and what the pattern
      captured from that line. */
  datatype Match<R> = Match(line: int, row: R)

  /** The captures of the lines of `m` that `matcher` accepts, by line index. */
  function MatchedRows<R>(m: map<int, string>, matcher: string -> Option<R>): map<int, R>
  {
    map i | i in m && matcher(m[i]).Some? :: matcher(m[i]).value
  }

  /** `regexMatchedLines`: the line index of each match, in match order. */
  function MatchedLines<R>(matches: seq<Match<R>>): (lines: seq<int>)
    ensures |lines| == |matches|
    ensures forall k :: 0 <= k < |matches| ==> lines[k] == matches[k].line
  {
    seq(|matches|, k requires 0 <= k < |matches| => matches[k].line)
  }

  /** `regexParseLines(re, input)`: visits the buffer in Go's unspecified
      map order, collecting a match for every line the pattern accepts and
      keeping every other line, unchanged, in `rest`. Each accepted line is
      matched exactly once. */
  method RegexParseLines<R>(m: map<int, string>, matcher: string -> Option<R>)
    returns (matches: seq<Match<R>>, rest: map<int, string>)
    ensures forall k :: 0 <= k < |matches| ==>
      matches[k].line in m && matcher(m[matches[k].line]) == Some(matches[k].row)
    ensures multiset(MatchedLines(matches)) == multiset(MatchedRows(m, matcher).Keys)
    ensures rest == m - MatchedRows(m, matcher).Keys
  {
    matches, rest := [], map[];
    var todo := m.Keys;
    EmptyVisit(m, matcher);
    while todo != {}
      invariant Visited(m, matcher, todo, matches, rest)
      decreases |todo|
    {
      HasMember(todo);
      var i :| i in todo;
      var line := m[i];
      match matcher(line) {
        case Some(row) =>
          ClaimStep(m, matcher, todo, matches, rest, i);
          matches := matches + [Match(i, row)];
        case None =>
          SkipStep(m, matcher, todo, matches, rest, i);
          rest := rest[i := line];
      }
      todo := todo - {i};
    }
    FullVisit(m, matcher, matches, rest);
  }

  /** A non-empty set of line indices has a member to visit next. */
  lemma HasMember(s: set<int>)
    requires s != {}
    ensures exists i :: i in s
  {
    if forall i :: i !in s {
      assert false;
    }
  }

  /** The loop's invariant: the lines outside `todo` have been visited; the
      accepted ones are in `matches`, once each, the others in `rest`. */
  ghost predicate Visited<R>(m: map<int, string>, matcher: string -> Option<R>, todo: set<int>,
                             matches: seq<Match<R>>, rest: map<int, string>)
  {
    && todo <= m.Keys
    && (forall k :: 0 <= k < |matches| ==>
          matches[k].line in m && matcher(m[matches[k].line]) == Some(matches[k].row))
    && multiset(MatchedLines(matches)) == multiset(MatchedRows(m, matcher).Keys - todo)
    && rest == (m - todo) - MatchedRows(m, matcher).Keys
  }

  lemma EmptyVisit<R>(m: map<int, string>, matcher: string -> Option<R>)
    ensures Visited(m, matcher, m.Keys, [], map[])
  {
    assert MatchedRows(m, matcher).Keys - m.Keys == {};
    assert (m - m.Keys) - MatchedRows(m, matcher).Keys == map[];
  }

  lemma ClaimStep<R>(m: map<int, string>, matcher: string -> Option<R>, todo: set<int>,
                     matches: seq<Match<R>>, rest: map<int, string>, i: int)
    requires Visited(m, matcher, todo, matches, rest)
    requires i in todo && matcher(m[i]).Some?
    ensures Visited(m, matcher, todo - {i}, matches + [Match(i, matcher(m[i]).value)], rest)
  {
    var claimed := MatchedRows(m, matcher).Keys;
    var x := Match(i, matcher(m[i]).value);
    MatchedLinesSnoc(matches, x);
    assert i in claimed;
    ClaimedGrows(claimed, todo, i);
    RestUnchanged(m, claimed, todo, i);
  }

  lemma MatchedLinesSnoc<R>(matches: seq<Match<R>>, x: Match<R>)
    ensures multiset(MatchedLines(matches + [x])) == multiset(MatchedLines(matches)) + multiset{x.line}
  {
    assert MatchedLines(matches + [x]) == MatchedLines(matches) + [x.line];
  }

  lemma ClaimedGrows(claimed: set<int>, todo: set<int>, i: int)
    requires i in claimed && i in todo
    ensures multiset(claimed - (todo - {i})) == multiset(claimed - todo) + multiset{i}
  {
    assert claimed - (todo - {i}) == (claimed - todo) + {i};
  }

  lemma RestUnchanged(m: map<int, string>, claimed: set<int>, todo: set<int>, i: int)
    requires i in claimed
    ensures (m - (todo - {i})) - claimed == (m - todo) - claimed
  {
  }

  lemma SkipStep<R>(m: map<int, string>, matcher: string -> Option<R>, todo: set<int>,
                    matches: seq<Match<R>>, rest: map<int, string>, i: int)
    requires Visited(m, matcher, todo, matches, rest)
    requires i in todo && matcher(m[i]).None?
    ensures Visited(m, matcher, todo - {i}, matches, rest[i := m[i]])
  {
    var claimed := MatchedRows(m, matcher).Keys;
    assert i !in claimed;
    assert claimed - (todo - {i}) == claimed - todo;
    assert (m - (todo - {i})) - claimed == ((m - todo) - claimed)[i := m[i]];
  }

  lemma FullVisit<R>(m: map<int, string>, matcher: string -> Option<R>,
                     matches: seq<Match<R>>, rest: map<int, string>)
    requires Visited(m, matcher, {}, matches, rest)
    ensures multiset(MatchedLines(matches)) == multiset(MatchedRows(m, matcher).Keys)
    ensures rest == m - MatchedRows(m, matcher).Keys
  {
    assert MatchedRows(m, matcher).Keys - {} == MatchedRows(m, matcher).Keys;
    assert m - {} == m;
  }

  /** Claimed lines and the rest split the buffer: every line is either
      accepted (and claimed) or handed back unchanged, never both. */
  lemma ClaimsPartitionInput<R>(m: map<int, string>, matcher: string -> Option<R>)
    ensures MatchedRows(m, matcher).Keys !! (m - MatchedRows(m, matcher).Keys).Keys
    ensures MatchedRows(m, matcher).Keys + (m - MatchedRows(m, matcher).Keys).Keys == m.Keys
    ensures forall i :: i in m ==> (i in MatchedRows(m, matcher) <==> matcher(m[i]).Some?)
  {
  }

  /** Every line of `ls` is a line of `m`. */
  predicate Within<V>(ls: seq<int>, m: map<int, V>)
  {
    forall k :: 0 <= k < |ls| ==> ls[k] in m
  }

  lemma WithinSlice<V>(ls: seq<int>, m: map<int, V>, i: int, j: int)
    requires Within(ls, m) && 0 <= i <= j <= |ls|
    ensures Within(ls[i..j], m)
  {
    assert forall k :: 0 <= k < j - i ==> ls[i..j][k] == ls[i + k];
  }

  lemma WithinConcat<V>(a: seq<int>, b: seq<int>, m: map<int, V>)
    requires Within(a, m) && Within(b, m)
    ensures Within(a + b, m)
  {
    assert forall k :: 0 <= k < |a| ==> (a + b)[k] == a[k];
    assert forall k :: |a| <= k < |a + b| ==> (a + b)[k] == b[k - |a|];
  }

  /** The values `m` holds at the lines `ls`, in that order. */
  function ValuesAt<V>(ls: seq<int>, m: map<int, V>): (vs: seq<V>)
    requires Within(ls, m)
    ensures |vs| == |ls|
  {
    if ls == [] then []
    else
      WithinSlice(ls, m, 0, |ls| - 1);
      ValuesAt(ls[..|ls| - 1], m) + [m[ls[|ls| - 1]]]
  }

  /** Reading one more line appends its value. */
  lemma ValuesAtExtend<V>(ls: seq<int>, m: map<int, V>, i: int)
    requires Within(ls, m) && 0 <= i < |ls|
    ensures Within(ls[..i], m) && Within(ls[..i + 1], m)
    ensures ValuesAt(ls[..i + 1], m) == ValuesAt(ls[..i], m) + [m[ls[i]]]
  {
    WithinSlice(ls, m, 0, i);
    WithinSlice(ls, m, 0, i + 1);
    assert ls[..i + 1][..i] == ls[..i];
  }

  /** Every value read is a value of the map. */
  lemma {:induction false} ValuesAtValues<V>(ls: seq<int>, m: map<int, V>)
    requires Within(ls, m)
    ensures forall v :: v in ValuesAt(ls, m) ==> v in m.Values
    decreases |ls|
  {
    if ls != [] {
      WithinSlice(ls, m, 0, |ls| - 1);
      ValuesAtValues(ls[..|ls| - 1], m);
    }
  }

  /** Lines that are a set's elements in some order repeat none. */
  lemma NoRepeats(ls: seq<int>, s: set<int>)
    requires multiset(ls) == multiset(s)
    ensures forall x :: multiset(ls)[x] <= 1
  {
  }

  lemma {:induction false} ValuesAtAppend<V>(a: seq<int>, b: seq<int>, m: map<int, V>)
    requires Within(a, m) && Within(b, m)
    ensures Within(a + b, m)
    ensures ValuesAt(a + b, m) == ValuesAt(a, m) + ValuesAt(b, m)
    decreases |b|
  {
    WithinConcat(a, b, m);
    if b != [] {
      var b' := b[..|b| - 1];
      WithinSlice(b, m, 0, |b| - 1);
      assert (a + b)[..|a + b| - 1] == a + b';
      ValuesAtAppend(a, b', m);
    } else {
      assert a + b == a;
    }
  }

  /** Reading the same lines in another order gives the same values in
      another order. */
  lemma {:induction false} ValuesAtPermutation<V>(ls1: seq<int>, ls2: seq<int>, m: map<int, V>)
    requires Within(ls1, m)
    requires multiset(ls1) == multiset(ls2)
    ensures Within(ls2, m)
    ensures multiset(ValuesAt(ls1, m)) == multiset(ValuesAt(ls2, m))
    decreases |ls1|
  {
    SameLines(ls1, ls2, m);
    if ls1 != [] {
      var n := |ls1| - 1;
      var x, init := ls1[n], ls1[..n];
      var j := Position(ls2, x, ls1);
      RemovePosition(ls1, ls2, j);
      var rest := ls2[..j] + ls2[j + 1..];
      WithinSlice(ls1, m, 0, n);
      var vf, vb := ValuesAtSplit(ls2, j, m);
      ValuesAtPermutation(init, rest, m);
      assert ValuesAt(ls1, m) == ValuesAt(init, m) + [m[x]];
      Reinsert(ValuesAt(init, m), vf, vb, m[x]);
    }
  }

  /** The values read from `ls` are those read before index `j`, the value
      at `j`, and those read after it; leaving out index `j` leaves out
      exactly its value. */
  lemma ValuesAtSplit<V>(ls: seq<int>, j: int, m: map<int, V>) returns (vf: seq<V>, vb: seq<V>)
    requires Within(ls, m) && 0 <= j < |ls|
    ensures Within(ls[..j] + ls[j + 1..], m)
    ensures ValuesAt(ls, m) == vf + [m[ls[j]]] + vb
    ensures ValuesAt(ls[..j] + ls[j + 1..], m) == vf + vb
  {
    var front, back, x := ls[..j], ls[j + 1..], ls[j];
    WithinSlice(ls, m, 0, j);
    WithinSlice(ls, m, j + 1, |ls|);
    WithinSlice(ls, m, j, j + 1);
    assert ls[j..j + 1] == [x];
    vf, vb := ValuesAt(front, m), ValuesAt(back, m);
    ValuesAtAppend(front, back, m);
    ValuesAtAppend(front, [x], m);
    ValuesAtAppend(front + [x], back, m);
    assert ValuesAt([x], m) == [m[x]];
    assert ls == front + [x] + back;
  }

  lemma SameLines<V>(ls1: seq<int>, ls2: seq<int>, m: map<int, V>)
    requires Within(ls1, m)
    requires multiset(ls1) == multiset(ls2)
    ensures Within(ls2, m)
  {
    forall k | 0 <= k < |ls2|
      ensures ls2[k] in m
    {
      assert ls2[k] in multiset(ls1);
    }
  }
}
