/** The read-only cache subcommands: `cache inspect` and `cache search QUERY`.

    Console output is the sequence of strings handed to print(), in order
    (print adds one newline after each). The regular-expression search is
    the parameter `matches(query, text)`. */
module Commands {
  import opened Wrappers
  import opened JsonValue
  import opened CacheData
  import opened Render

  /** What a command printed before it finished, and the exception that
      ended it early, if any. */
  datatype Run = Run(printed: seq<string>, failure: Option<Error>)

  /** The selection used by `cache inspect`: every block is printed. */
  function Always(contents: string): bool {
    true
  }

  /** The selection used by `cache search`: the query matches the contents text. */
  function MatchesQuery(matches: (string, string) -> bool, query: string): string -> bool {
    contents => matches(query, contents)
  }

  /** The loop body shared by inspect and search over the yielded entries:
      build each entry's block and print it when `select` holds of its
      contents; a document that is not a dict raises and ends the loop. */
  function Report(es: seq<Entry>, select: string -> bool, showNum: real -> string): (r: Run)
    ensures |r.printed| <= |es|
  {
    if es == [] then Run([], None)
    else
      match Block(es[0], showNum)
      case Err(e) => Run([], Some(e))
      case Ok(b) =>
        var rest := Report(es[1..], select, showNum);
        var shown := if select(Contents(es[0].doc.fields, showNum)) then [b] else [];
        Run(shown + rest.printed, rest.failure)
  }

  /** A command reading the lazy scan: an exception in the loop body comes
      first, otherwise the scan's own exception (raised when the loop asks
      for the next entry) ends the command. */
  function Consume(scan: Scan, report: Run): (r: Run)
    ensures r.printed == report.printed
    ensures r.failure.None? <==> report.failure.None? && scan.failure.None?
    ensures report.failure.Some? ==> r.failure == report.failure
    ensures report.failure.None? ==> r.failure == scan.failure
  {
    Run(report.printed, if report.failure.Some? then report.failure else scan.failure)
  }

  /** `cache inspect`. */
  function Inspect(files: seq<Entry>, showNum: real -> string): (r: Run)
    ensures |r.printed| <= |files|
  {
    var scan := GetCacheData(files, DefaultFilter);
    Consume(scan, Report(scan.yielded, Always, showNum))
  }

  /** `cache search QUERY`. */
  function Search(files: seq<Entry>, query: string, matches: (string, string) -> bool,
                  showNum: real -> string): (r: Run)
    ensures |r.printed| <= |files|
  {
    var scan := GetCacheData(files, DefaultFilter);
    Consume(scan, Report(scan.yielded, MatchesQuery(matches, query), showNum))
  }

  /** A document as the external library caches it: a dict, or a list whose
      first element, if any, is a dict. */
  predicate CacheDocument(j: Json) {
    j.Obj? || (j.Arr? && (j.items == [] || j.items[0].Obj?))
  }

  /** Over dict documents, the loop body raises nothing and, with every
      block selected, prints each entry's title and contents in order. */
  lemma {:induction false} ReportPrintsEveryBlock(es: seq<Entry>, showNum: real -> string)
    requires forall k :: 0 <= k < |es| ==> es[k].doc.Obj?
    ensures Report(es, Always, showNum).failure.None?
    ensures |Report(es, Always, showNum).printed| == |es|
    ensures forall k :: 0 <= k < |es| ==>
              Report(es, Always, showNum).printed[k] == Title(es[k].path) + Contents(es[k].doc.fields, showNum)
  {
    if es != [] {
      ReportPrintsEveryBlock(es[1..], showNum);
      assert forall k :: 1 <= k < |es| ==> es[k] == es[1..][k - 1];
    }
  }

  /** The blocks printed with any selection appear, in the same order, among
      the blocks printed with every block selected, and both runs end with
      the same exception. */
  lemma {:induction false} ReportSelectsSubsequence(es: seq<Entry>, select: string -> bool, showNum: real -> string)
    ensures IsSubsequence(Report(es, select, showNum).printed, Report(es, Always, showNum).printed)
    ensures Report(es, select, showNum).failure == Report(es, Always, showNum).failure
  {
    if es != [] && Block(es[0], showNum).Ok? {
      ReportSelectsSubsequence(es[1..], select, showNum);
      var a := Report(es, select, showNum).printed;
      var b := Report(es, Always, showNum).printed;
      var ra := Report(es[1..], select, showNum).printed;
      var rb := Report(es[1..], Always, showNum).printed;
      assert b == [Block(es[0], showNum).value] + rb && b[1..] == rb;
      if select(Contents(es[0].doc.fields, showNum)) {
        assert a == [b[0]] + ra && a[1..] == ra;
      } else {
        assert a == ra;
        assert a == [] || IsSubsequence(a, b[1..]);
      }
    }
  }

  /** Over dict documents, a text is printed exactly when it is the block
      of an entry whose contents satisfy `select`. */
  lemma {:induction false} ReportSelectsExactly(es: seq<Entry>, select: string -> bool, showNum: real -> string)
    requires forall k :: 0 <= k < |es| ==> es[k].doc.Obj?
    ensures Report(es, select, showNum).failure.None?
    ensures forall b :: b in Report(es, select, showNum).printed <==>
              exists k :: 0 <= k < |es| && select(Contents(es[k].doc.fields, showNum))
                          && b == Title(es[k].path) + Contents(es[k].doc.fields, showNum)
  {
    if es != [] {
      ReportSelectsExactly(es[1..], select, showNum);
      assert forall k :: 1 <= k < |es| ==> es[k] == es[1..][k - 1];
      var r := Report(es, select, showNum).printed;
      forall b | b in r
        ensures exists k :: 0 <= k < |es| && select(Contents(es[k].doc.fields, showNum))
                            && b == Title(es[k].path) + Contents(es[k].doc.fields, showNum)
      {
        if b !in Report(es[1..], select, showNum).printed {
          assert select(Contents(es[0].doc.fields, showNum));
        } else {
          var k :| 0 <= k < |es[1..]| && select(Contents(es[1..][k].doc.fields, showNum))
                   && b == Title(es[1..][k].path) + Contents(es[1..][k].doc.fields, showNum);
          assert es[k + 1] == es[1..][k];
        }
      }
      forall b | exists k :: 0 <= k < |es| && select(Contents(es[k].doc.fields, showNum))
                             && b == Title(es[k].path) + Contents(es[k].doc.fields, showNum)
        ensures b in r
      {
        var k :| 0 <= k < |es| && select(Contents(es[k].doc.fields, showNum))
                 && b == Title(es[k].path) + Contents(es[k].doc.fields, showNum);
        if k > 0 {
          assert es[1..][k - 1] == es[k];
          assert b in Report(es[1..], select, showNum).printed;
        }
      }
    }
  }

  /** `a` is `b` with some elements left out. */
  predicate IsSubsequence<T(==)>(a: seq<T>, b: seq<T>) {
    if a == [] then true
    else if b == [] then false
    else (a[0] == b[0] && IsSubsequence(a[1..], b[1..])) || IsSubsequence(a, b[1..])
  }

  /** When every cached document is a dict or a list led by a dict, the scan
      raises nothing and every entry it yields holds a dict. */
  lemma CacheDocumentsScanToObjects(files: seq<Entry>)
    requires forall i :: 0 <= i < |files| ==> CacheDocument(files[i].doc)
    ensures GetCacheData(files, DefaultFilter).failure.None?
    ensures forall k :: 0 <= k < |GetCacheData(files, DefaultFilter).yielded| ==>
              GetCacheData(files, DefaultFilter).yielded[k].doc.Obj?
  {
    var ix := DefaultScanKeepsNonEmpty(files);
  }

  /** `cache inspect` over cached documents prints exactly one block per
      non-empty file, and raises nothing. */
  lemma InspectBlockCount(files: seq<Entry>, showNum: real -> string)
    requires forall i :: 0 <= i < |files| ==> CacheDocument(files[i].doc)
    ensures Inspect(files, showNum).failure.None?
    ensures |Inspect(files, showNum).printed| == NonEmptyCount(files)
  {
    CacheDocumentsScanToObjects(files);
    DefaultScanCount(files);
    ReportPrintsEveryBlock(GetCacheData(files, DefaultFilter).yielded, showNum);
  }

  /** The print loop prints the blocks of the entries before the first
      document that is not a dict, then raises AttributeError there. */
  lemma {:induction false} ReportStopsAtNonObject(es: seq<Entry>, select: string -> bool,
                                                  showNum: real -> string, k: nat)
    requires k < |es| && !es[k].doc.Obj?
    requires forall i :: 0 <= i < k ==> es[i].doc.Obj?
    ensures Report(es, select, showNum).failure == Some(NotAnObject)
    ensures Report(es, select, showNum).printed == Report(es[..k], select, showNum).printed
  {
    if k > 0 {
      assert es[..k][0] == es[0] && es[..k][1..] == es[1..][..k - 1];
      ReportStopsAtNonObject(es[1..], select, showNum, k - 1);
    }
  }

  /** When the scan yields a document that is not a dict, `cache inspect`
      prints the blocks of the entries before the first such document, in
      scan order, and then raises AttributeError. */
  lemma InspectStopsAtNonObject(files: seq<Entry>, showNum: real -> string, k: nat)
    requires k < |GetCacheData(files, DefaultFilter).yielded|
    requires !GetCacheData(files, DefaultFilter).yielded[k].doc.Obj?
    requires forall i :: 0 <= i < k ==> GetCacheData(files, DefaultFilter).yielded[i].doc.Obj?
    ensures Inspect(files, showNum).failure == Some(NotAnObject)
    ensures var ys := GetCacheData(files, DefaultFilter).yielded;
            && |Inspect(files, showNum).printed| == k
            && forall j :: 0 <= j < k ==>
                 ys[j].doc.Obj? && Inspect(files, showNum).printed[j] == Title(ys[j].path) + Contents(ys[j].doc.fields, showNum)
  {
    var ys := GetCacheData(files, DefaultFilter).yielded;
    ReportStopsAtNonObject(ys, Always, showNum, k);
    ReportPrintsEveryBlock(ys[..k], showNum);
  }

  /** `cache search` raises AttributeError at the same document as `cache inspect`. */
  lemma SearchStopsAtNonObject(files: seq<Entry>, query: string, matches: (string, string) -> bool,
                               showNum: real -> string, k: nat)
    requires k < |GetCacheData(files, DefaultFilter).yielded|
    requires !GetCacheData(files, DefaultFilter).yielded[k].doc.Obj?
    requires forall i :: 0 <= i < k ==> GetCacheData(files, DefaultFilter).yielded[i].doc.Obj?
    ensures Search(files, query, matches, showNum).failure == Some(NotAnObject)
  {
    ReportStopsAtNonObject(GetCacheData(files, DefaultFilter).yielded, MatchesQuery(matches, query), showNum, k);
  }

  /** When every yielded document is a dict, `cache inspect` prints, for
      each entry the scan yields, its title line followed by its contents,
      in scan order, and ends with the scan's exception. */
  lemma InspectPrintsBlocks(files: seq<Entry>, showNum: real -> string)
    requires forall k :: 0 <= k < |GetCacheData(files, DefaultFilter).yielded| ==>
               GetCacheData(files, DefaultFilter).yielded[k].doc.Obj?
    ensures var ys := GetCacheData(files, DefaultFilter).yielded;
            && Inspect(files, showNum).failure == GetCacheData(files, DefaultFilter).failure
            && |Inspect(files, showNum).printed| == |ys|
            && forall k :: 0 <= k < |ys| ==>
                 Inspect(files, showNum).printed[k] == Title(ys[k].path) + Contents(ys[k].doc.fields, showNum)
  {
    ReportPrintsEveryBlock(GetCacheData(files, DefaultFilter).yielded, showNum);
  }

  /** `cache search` prints a subsequence of what `cache inspect` prints and
      ends the same way: every block it prints is inspect's block, unchanged. */
  lemma SearchWithinInspect(files: seq<Entry>, query: string, matches: (string, string) -> bool,
                            showNum: real -> string)
    ensures IsSubsequence(Search(files, query, matches, showNum).printed, Inspect(files, showNum).printed)
    ensures Search(files, query, matches, showNum).failure == Inspect(files, showNum).failure
  {
    ReportSelectsSubsequence(GetCacheData(files, DefaultFilter).yielded, MatchesQuery(matches, query), showNum);
  }

  /** When every yielded document is a dict, `cache search` ends with the
      scan's exception and prints a block exactly when the query matches
      that entry's contents text, the title line excluded. */
  lemma SearchPrintsMatches(files: seq<Entry>, query: string, matches: (string, string) -> bool,
                            showNum: real -> string)
    requires forall k :: 0 <= k < |GetCacheData(files, DefaultFilter).yielded| ==>
               GetCacheData(files, DefaultFilter).yielded[k].doc.Obj?
    ensures Search(files, query, matches, showNum).failure == GetCacheData(files, DefaultFilter).failure
    ensures var ys := GetCacheData(files, DefaultFilter).yielded;
            forall b :: b in Search(files, query, matches, showNum).printed <==>
              exists k :: 0 <= k < |ys| && ys[k].doc.Obj? && matches(query, Contents(ys[k].doc.fields, showNum))
                          && b == Title(ys[k].path) + Contents(ys[k].doc.fields, showNum)
  {
    ReportSelectsExactly(GetCacheData(files, DefaultFilter).yielded, MatchesQuery(matches, query), showNum);
  }

  /** The elements of `xs` whose flag in `mask` is set, in order. */
  function Keep<T>(xs: seq<T>, mask: seq<bool>): seq<T> {
    if xs == [] || mask == [] then []
    else (if mask[0] then [xs[0]] else []) + Keep(xs[1..], mask[1..])
  }

  /** Per entry: is it a dict whose contents `select` accepts? */
  function Mask(es: seq<Entry>, select: string -> bool, showNum: real -> string): (r: seq<bool>)
    ensures |r| == |es|
    ensures forall k :: 0 <= k < |es| ==> (r[k] <==> es[k].doc.Obj? && select(Contents(es[k].doc.fields, showNum)))
  {
    seq(|es|, k requires 0 <= k < |es| => es[k].doc.Obj? && select(Contents(es[k].doc.fields, showNum)))
  }

  /** A selection prints exactly the blocks the unselected run prints whose
      contents it accepts, in order. */
  lemma {:induction false} ReportKeepsSelected(es: seq<Entry>, select: string -> bool, showNum: real -> string)
    ensures Report(es, select, showNum).printed
         == Keep(Report(es, Always, showNum).printed, Mask(es, select, showNum))
  {
    if es != [] && Block(es[0], showNum).Ok? {
      ReportKeepsSelected(es[1..], select, showNum);
      var m := Mask(es, select, showNum);
      assert m[1..] == Mask(es[1..], select, showNum);
      var all := Report(es, Always, showNum).printed;
      assert all[0] == Block(es[0], showNum).value && all[1..] == Report(es[1..], Always, showNum).printed;
    }
  }

  /** `cache search` prints exactly the blocks `cache inspect` prints whose
      contents the query matches, in the same order, and ends the same way. */
  lemma SearchKeepsMatchingBlocks(files: seq<Entry>, query: string, matches: (string, string) -> bool,
                                  showNum: real -> string)
    ensures Search(files, query, matches, showNum).printed
         == Keep(Inspect(files, showNum).printed,
                 Mask(GetCacheData(files, DefaultFilter).yielded, MatchesQuery(matches, query), showNum))
    ensures Search(files, query, matches, showNum).failure == Inspect(files, showNum).failure
  {
    var ys := GetCacheData(files, DefaultFilter).yielded;
    ReportKeepsSelected(ys, MatchesQuery(matches, query), showNum);
    ReportSelectsSubsequence(ys, MatchesQuery(matches, query), showNum);
  }

  /** A query that matches every text makes `cache search` print what
      `cache inspect` prints. */
  lemma SearchMatchingAllIsInspect(files: seq<Entry>, query: string,
                                                      matches: (string, string) -> bool, showNum: real -> string)
    requires forall t :: matches(query, t)
    ensures Search(files, query, matches, showNum) == Inspect(files, showNum)
  {
    var ys := GetCacheData(files, DefaultFilter).yielded;
    ReportSameSelection(ys, MatchesQuery(matches, query), Always, showNum);
  }

  /** Two selections that agree on every text print the same. */
  lemma {:induction false} ReportSameSelection(es: seq<Entry>, s1: string -> bool, s2: string -> bool,
                                               showNum: real -> string)
    requires forall t :: s1(t) == s2(t)
    ensures Report(es, s1, showNum) == Report(es, s2, showNum)
  {
    if es != [] {
      ReportSameSelection(es[1..], s1, s2, showNum);
    }
  }
}
