/** The ship-fitting parser (parsers/fitting.go).

    A fitting is recognised by its section headers ("High power",
    "Drones", ...). `ParseFitting` deletes every header line from the shared
    buffer, hands what is left to the listing parser and re-sorts what that
    parser returns.

    The listing parser is not part of this model: it is the parameter
    `parseListing`, a function from the buffer to its result and the lines
    it leaves over. `key` is the rendering `fmt.Sprintf("%v", item)` that the
    item sort compares. */
module FittingParser {
  import opened Sorting
  import opened LineBuffer
  import opened Wrappers
  import opened TabColumns
  import opened AssetGrammar

  /** `fittingBlacklist`: the section headers of a fitting. */
  const FittingBlacklist: set<string> :=
    {"High power", "Medium power", "Low power", "Rig Slot", "Sub System", "Charges", "Drones", "Fuel"}

  /** The lines of `m` that are, exactly, a section header. */
  function HeaderLines(m: map<int, string>): (hs: set<int>)
    ensures hs <= m.Keys
    ensures forall i :: i in m ==> (i in hs <==> m[i] in FittingBlacklist)
  {
    set i | i in m && m[i] in FittingBlacklist
  }

  /** The buffer with its header lines deleted. */
  function Stripped(m: map<int, string>): (s: map<int, string>)
    ensures s.Keys == m.Keys - HeaderLines(m)
    ensures forall i :: i in s ==> s[i] == m[i] && s[i] !in FittingBlacklist
  {
    m - HeaderLines(m)
  }

  /** What the listing parser returns: a `Listing`, or any other parser result. */
  datatype ListingResult<Item> = Listing(items: seq<Item>, lines: seq<int>) | OtherResult

  /** `Fitting`: the listed items and the lines claimed, headers included. */
  class Fitting<Item> {
    var items: seq<Item>
    var lines: seq<int>

    constructor (items: seq<Item>, lines: seq<int>)
      ensures this.items == items && this.lines == lines
    {
      this.items, this.lines := items, lines;
    }

    function Name(): (n: string)
      ensures n == "fitting"
    {
      "fitting"
    }

    function Lines(): (r: seq<int>)
      reads this
      ensures r == lines
    {
      lines
    }
  }

  /** The outcome of `ParseFitting`: no header (Go's nil result), a fitting,
      or the fatal error raised when the listing parser returns something
      other than a listing. */
  datatype FittingOutcome<Item> = NotFitting | Detected(fitting: Fitting<Item>) | ListingDefect

  /** `ParseFitting`. The header lines are deleted from the caller's buffer
      in every case; the rest handed back is the listing parser's. */
  method ParseFitting<Item(!new)>(input: Input, parseListing: map<int, string> -> (ListingResult<Item>, map<int, string>),
                                  key: Item -> string)
    returns (r: FittingOutcome<Item>, rest: Input)
    modifies input
    ensures input.lines == Stripped(old(input.lines))
    ensures r.NotFitting? <==> HeaderLines(old(input.lines)) == {}
    ensures r.NotFitting? ==> rest == input && input.lines == old(input.lines)
    ensures r.ListingDefect? <==>
      HeaderLines(old(input.lines)) != {} && parseListing(input.lines).0.OtherResult?
    ensures r.Detected? ==>
      var (listing, listingRest) := parseListing(input.lines);
      && listing.Listing?
      && fresh(r.fitting) && fresh(rest)
      && multiset(r.fitting.items) == multiset(listing.items)
      && SortedBy(r.fitting.items, KeyOrder(key))
      && multiset(r.fitting.lines) == multiset(HeaderLines(old(input.lines))) + multiset(listing.lines)
      && SortedBy(r.fitting.lines, IntOrder)
      && rest.lines == listingRest
  {
    ghost var m0 := input.lines;
    var headers: seq<int> := [];
    var isFitting := false;
    var todo := input.lines.Keys;
    EmptyScan(m0);
    while todo != {}
      invariant Scanned(m0, todo, headers, input.lines)
      invariant isFitting <==> headers != []
      decreases |todo|
    {
      HasMember(todo);
      var i :| i in todo;
      var line := input.lines[i];
      if line in FittingBlacklist {
        HeaderStep(m0, todo, headers, input.lines, i);
        isFitting := true;
        headers := headers + [i];
        input.lines := input.lines - {i};
      } else {
        OtherStep(m0, todo, headers, input.lines, i);
      }
      todo := todo - {i};
    }
    FullScan(m0, headers, input.lines);
    if !isFitting {
      return NotFitting, input;
    }

    var (listing, listingRest) := parseListing(input.lines);
    match listing {
      case OtherResult =>
        r, rest := ListingDefect, input;
      case Listing(items, listingLines) =>
        var sortedItems := SortByKey(items, key);
        var sortedLines := SortInts(headers + listingLines);
        var fitting := new Fitting(sortedItems, sortedLines);
        rest := new Input(listingRest);
        r := Detected(fitting);
    }
  }

  /** The header loop's invariant: the lines outside `todo` have been
      looked at; the headers among them are in `headers` and deleted. */
  ghost predicate Scanned(m0: map<int, string>, todo: set<int>, headers: seq<int>, current: map<int, string>)
  {
    && todo <= current.Keys
    && current == m0 - (HeaderLines(m0) - todo)
    && multiset(headers) == multiset(HeaderLines(m0) - todo)
  }

  lemma EmptyScan(m0: map<int, string>)
    ensures Scanned(m0, m0.Keys, [], m0)
  {
    assert HeaderLines(m0) - m0.Keys == {};
    assert m0 - {} == m0;
  }

  lemma HeaderStep(m0: map<int, string>, todo: set<int>, headers: seq<int>, current: map<int, string>, i: int)
    requires Scanned(m0, todo, headers, current)
    requires i in todo && current[i] in FittingBlacklist
    ensures Scanned(m0, todo - {i}, headers + [i], current - {i})
  {
    var h := HeaderLines(m0);
    assert i in h;
    assert h - (todo - {i}) == (h - todo) + {i};
    assert current - {i} == m0 - (h - (todo - {i}));
  }

  lemma OtherStep(m0: map<int, string>, todo: set<int>, headers: seq<int>, current: map<int, string>, i: int)
    requires Scanned(m0, todo, headers, current)
    requires i in todo && current[i] !in FittingBlacklist
    ensures Scanned(m0, todo - {i}, headers, current)
  {
    var h := HeaderLines(m0);
    assert i !in h;
    assert h - (todo - {i}) == h - todo;
  }

  lemma FullScan(m0: map<int, string>, headers: seq<int>, current: map<int, string>)
    requires Scanned(m0, {}, headers, current)
    ensures current == Stripped(m0)
    ensures multiset(headers) == multiset(HeaderLines(m0))
    ensures headers == [] <==> HeaderLines(m0) == {}
  {
    assert HeaderLines(m0) - {} == HeaderLines(m0);
    if headers != [] {
      assert headers[0] in multiset(headers);
    }
  }

  /** Deleting the headers leaves none: the listing parser never sees a
      header line, and a second pass over the stripped buffer finds no
      fitting. */
  lemma StrippedHasNoHeader(m: map<int, string>)
    ensures HeaderLines(Stripped(m)) == {}
    ensures Stripped(Stripped(m)) == Stripped(m)
    ensures Stripped(m).Keys == m.Keys - HeaderLines(m)
  {
    assert Stripped(m) - {} == Stripped(m);
  }

  /** A header is never an asset-list line: none of the headers holds a
      tab, and the asset-list pattern needs one after the name. */
  lemma HeaderNotAssetLine(line: string)
    requires line in FittingBlacklist
    ensures MatchAssetLine(line).None?
  {
    assert NoTab(line);
    NoTabNoMatch(line);
  }

  /** What the listing parser is expected to do with the buffer it gets:
      claim some of its lines and hand back the others, unchanged. */
  ghost predicate ListingObeys<Item>(m: map<int, string>, listing: ListingResult<Item>, rest: map<int, string>)
  {
    && rest.Keys <= m.Keys
    && (forall i :: i in rest ==> rest[i] == m[i])
    && (listing.Listing? ==> multiset(listing.lines) == multiset(m.Keys - rest.Keys))
  }

  /** With a listing parser that keeps to `ListingObeys`, the fitting's
      lines and the rest split the original buffer: each line is claimed
      once, as a header or by the listing, or handed back unchanged. */
  lemma FittingClaimsPartition<Item>(m: map<int, string>, listing: ListingResult<Item>, rest: map<int, string>)
    requires listing.Listing?
    requires ListingObeys(Stripped(m), listing, rest)
    ensures multiset(HeaderLines(m)) + multiset(listing.lines) == multiset(m.Keys - rest.Keys)
    ensures HeaderLines(m) !! rest.Keys
    ensures forall i :: i in rest ==> i in m && rest[i] == m[i] && m[i] !in FittingBlacklist
  {
    var h, s := HeaderLines(m), Stripped(m);
    StrippedHasNoHeader(m);
    var claimed := s.Keys - rest.Keys;
    assert m.Keys - rest.Keys == h + claimed;
    DisjointUnion(h, claimed);
  }

  lemma DisjointUnion(a: set<int>, b: set<int>)
    requires a !! b
    ensures multiset(a + b) == multiset(a) + multiset(b)
  {
  }

  /** The fitting does not depend on the order in which the buffer was
      visited: two fittings built from the same headers and the same
      listing have the same lines and, position by position, items with
      the same rendering; with a rendering that tells distinct items apart,
      the same items. */
  lemma FittingOrderIndependent<Item(!new)>(key: Item -> string, items1: seq<Item>, items2: seq<Item>,
                                            lines1: seq<int>, lines2: seq<int>)
    requires multiset(items1) == multiset(items2)
    requires SortedBy(items1, KeyOrder(key)) && SortedBy(items2, KeyOrder(key))
    requires multiset(lines1) == multiset(lines2)
    requires SortedBy(lines1, IntOrder) && SortedBy(lines2, IntOrder)
    ensures lines1 == lines2
    ensures |items1| == |items2| && forall i :: 0 <= i < |items1| ==> key(items1[i]) == key(items2[i])
    ensures Injective(key) ==> items1 == items2
  {
    IntOrderIsAntisymmetric();
    SortedUnique(lines1, lines2, IntOrder);
    SortedSameKeys(items1, items2, key);
    if Injective(key) {
      KeyOrderIsAntisymmetric(key);
      SortedUnique(items1, items2, KeyOrder(key));
    }
  }

}
