/** The cache scanner: enumerates the cached JSON files, filters each parsed
    document and normalises the survivors to a single document.

    The directory walk, file opening and JSON parsing are outside the model:
    the cache directory arrives as the sequence of (path, parsed document)
    pairs in the order the recursive glob lists them. The scanner is a
    generator in the source, so it is modelled as the entries it yields
    before the first exception together with that exception, if any. */
module CacheData {
  import opened Wrappers
  import opened JsonValue

  /** A file path, as its string form. */
  type Path = string

  /** One cached file: its path and its parsed document. */
  datatype Entry = Entry(path: Path, doc: Json)

  /** The exceptions the cache commands can raise on a parsed document. */
  datatype Error =
    | LenUndefined    // len() of None, a bool or a number: TypeError
    | EmptyListIndex  // [0] of an empty list: IndexError
    | NotAnObject     // .items() of a document that is not a dict: AttributeError

  /** A document filter; an Err is the exception the filter raised. */
  type Filter = Json -> Result<bool, Error>

  /** The scanner's default filter, `len(x) != 0`. */
  function DefaultFilter(j: Json): (r: Result<bool, Error>)
    ensures r == Err(LenUndefined) <==> j.Null? || j.Bool? || j.Num?
    ensures r == Ok(false) <==> j in {Str(""), Arr([]), Obj([])}
  {
    match Len(j)
    case None => Err(LenUndefined)
    case Some(n) => Ok(n != 0)
  }

  /** The filter `lambda x: True`. */
  function AcceptAll(j: Json): Result<bool, Error> {
    Ok(true)
  }

  /** A list document becomes its first element; any other document is kept. */
  function Normalise(j: Json): (r: Result<Json, Error>)
    ensures r.Err? <==> j == Arr([])
    ensures r.Err? ==> r.error == EmptyListIndex
    ensures j.Arr? && r.Ok? ==> r.value == j.items[0]
    ensures !j.Arr? ==> r == Ok(j)
  {
    if j.Arr? then
      if |j.items| == 0 then Err(EmptyListIndex) else Ok(j.items[0])
    else Ok(j)
  }

  /** What the scanner does with one file: raise, skip it, or yield an entry.
      It raises exactly when the file does not pass, skips it exactly when
      the filter rejects it, and otherwise yields the normalised document
      under the file's path. */
  function Visit(f: Entry, filter: Filter): (r: Result<Option<Entry>, Error>)
    ensures r.Err? <==> !Passes(f, filter)
    ensures r.Err? && filter(f.doc).Err? ==> r.error == filter(f.doc).error
    ensures r.Err? && filter(f.doc).Ok? ==> r.error == EmptyListIndex
    ensures r == Ok(None) <==> filter(f.doc) == Ok(false)
    ensures r.Ok? && r.value.Some? ==> YieldsAs(f, filter, r.value.value)
  {
    match filter(f.doc)
    case Err(e) => Err(e)
    case Ok(keep) =>
      if !keep then Ok(None)
      else
        match Normalise(f.doc)
        case Err(e) => Err(e)
        case Ok(d) => Ok(Some(Entry(f.path, d)))
  }

  /** The entries a scan yielded before it stopped, and why it stopped early. */
  datatype Scan = Scan(yielded: seq<Entry>, failure: Option<Error>)

  /** The scanner over the files in glob order. */
  function GetCacheData(files: seq<Entry>, filter: Filter): (r: Scan)
    ensures |r.yielded| <= |files|
    ensures r.failure.None? && |r.yielded| == |files| ==>
              forall k :: 0 <= k < |files| ==> r.yielded[k].path == files[k].path
  {
    if files == [] then Scan([], None)
    else
      match Visit(files[0], filter)
      case Err(e) => Scan([], Some(e))
      case Ok(y) =>
        var rest := GetCacheData(files[1..], filter);
        if y.None? then rest
        else Scan([y.value] + rest.yielded, rest.failure)
  }

  /** File `f` is accepted by `filter` and normalises to the document of `y`,
      which keeps `f`'s path. */
  ghost predicate YieldsAs(f: Entry, filter: Filter, y: Entry) {
    && filter(f.doc) == Ok(true)
    && Normalise(f.doc) == Ok(y.doc)
    && y.path == f.path
  }

  /** File `f` passes through the scanner without an exception. */
  ghost predicate Passes(f: Entry, filter: Filter) {
    && filter(f.doc).Ok?
    && (filter(f.doc).value ==> Normalise(f.doc).Ok?)
  }

  /** The scan of `files` stops at position `stop` with `failure`: the files
      before `stop` all pass, and the file at `stop` (if any) raises `failure`. */
  ghost predicate StopsAt(files: seq<Entry>, filter: Filter, failure: Option<Error>, stop: nat) {
    && stop <= |files|
    && (failure.None? <==> stop == |files|)
    && (stop < |files| ==> Visit(files[stop], filter) == Err(failure.value))
    && (forall i :: 0 <= i < stop ==> Passes(files[i], filter))
  }

  /** `ys` are the files before `stop` that `filter` accepts, each exactly
      once, in input order, normalised, at the strictly increasing positions `ix`. */
  ghost predicate AcceptedAt(files: seq<Entry>, filter: Filter, ys: seq<Entry>, ix: seq<nat>, stop: nat) {
    && stop <= |files|
    && |ix| == |ys|
    && (forall k :: 0 <= k < |ix| ==> ix[k] < stop && YieldsAs(files[ix[k]], filter, ys[k]))
    && (forall k, l :: 0 <= k < l < |ix| ==> ix[k] < ix[l])
    && (forall i :: 0 <= i < stop && filter(files[i].doc) == Ok(true) ==> i in ix)
  }

  /** The scan of `files`, described by positions. */
  ghost predicate DescribedBy(files: seq<Entry>, filter: Filter, ix: seq<nat>, stop: nat) {
    var r := GetCacheData(files, filter);
    StopsAt(files, filter, r.failure, stop) && AcceptedAt(files, filter, r.yielded, ix, stop)
  }

  /** Positions `ix` moved one file later. */
  function Shift(ix: seq<nat>): (r: seq<nat>)
    ensures |r| == |ix|
    ensures forall k :: 0 <= k < |ix| ==> r[k] == ix[k] + 1
  {
    seq(|ix|, k requires 0 <= k < |ix| => ix[k] + 1)
  }

  /** A first file that passes moves the stopping point one file later. */
  lemma StopsLater(files: seq<Entry>, filter: Filter, failure: Option<Error>, stop: nat)
    requires files != [] && Visit(files[0], filter).Ok?
    requires StopsAt(files[1..], filter, failure, stop)
    ensures StopsAt(files, filter, failure, stop + 1)
  {
    assert forall i :: 1 <= i < |files| ==> files[i] == files[1..][i - 1];
  }

  /** Accepted positions in `files[1..]` are accepted positions in `files`,
      one later. */
  lemma ShiftedYields(files: seq<Entry>, filter: Filter, ys: seq<Entry>, ix: seq<nat>, stop: nat)
    requires files != []
    requires AcceptedAt(files[1..], filter, ys, ix, stop)
    ensures forall k :: 0 <= k < |ix| ==> Shift(ix)[k] < stop + 1 && YieldsAs(files[Shift(ix)[k]], filter, ys[k])
  {
    forall k | 0 <= k < |ix|
      ensures Shift(ix)[k] < stop + 1 && YieldsAs(files[Shift(ix)[k]], filter, ys[k])
    {
      assert files[Shift(ix)[k]] == files[1..][ix[k]];
    }
  }

  /** An accepted file after the first is found, one later, among the
      positions accepted in `files[1..]`. */
  lemma ShiftedComplete(files: seq<Entry>, filter: Filter, ys: seq<Entry>, ix: seq<nat>, stop: nat, i: nat)
    requires files != []
    requires AcceptedAt(files[1..], filter, ys, ix, stop)
    requires 0 < i < stop + 1 && filter(files[i].doc) == Ok(true)
    ensures i in Shift(ix)
  {
    assert files[i] == files[1..][i - 1];
    assert i - 1 in ix;
    var k :| 0 <= k < |ix| && ix[k] == i - 1;
    assert Shift(ix)[k] == i;
  }

  /** A first file the filter rejects moves every accepted position one later. */
  lemma AcceptedAfterSkip(files: seq<Entry>, filter: Filter, ys: seq<Entry>, ix: seq<nat>, stop: nat)
    requires files != [] && filter(files[0].doc) == Ok(false)
    requires AcceptedAt(files[1..], filter, ys, ix, stop)
    ensures AcceptedAt(files, filter, ys, Shift(ix), stop + 1)
  {
    ShiftedYields(files, filter, ys, ix, stop);
    forall i | 0 <= i < stop + 1 && filter(files[i].doc) == Ok(true)
      ensures i in Shift(ix)
    {
      ShiftedComplete(files, filter, ys, ix, stop, i);
    }
  }

  /** A first file the scanner yields as `y` takes position 0. */
  lemma AcceptedAfterYield(files: seq<Entry>, filter: Filter, y: Entry, ys: seq<Entry>, ix: seq<nat>, stop: nat)
    requires files != [] && YieldsAs(files[0], filter, y)
    requires AcceptedAt(files[1..], filter, ys, ix, stop)
    ensures AcceptedAt(files, filter, [y] + ys, [0] + Shift(ix), stop + 1)
  {
    var sh := [0] + Shift(ix);
    YieldedFirst(files, filter, y, ys, ix, stop, sh);
    OrderedFirst(ix, sh);
    CompleteFirst(files, filter, ys, ix, stop, sh);
  }

  /** The positions `[0] + Shift(ix)` locate `[y] + ys`. */
  lemma YieldedFirst(files: seq<Entry>, filter: Filter, y: Entry, ys: seq<Entry>, ix: seq<nat>, stop: nat,
                     sh: seq<nat>)
    requires files != [] && YieldsAs(files[0], filter, y)
    requires AcceptedAt(files[1..], filter, ys, ix, stop)
    requires sh == [0] + Shift(ix)
    ensures |sh| == |[y] + ys|
    ensures forall k :: 0 <= k < |sh| ==> sh[k] < stop + 1 && YieldsAs(files[sh[k]], filter, ([y] + ys)[k])
  {
    ShiftedYields(files, filter, ys, ix, stop);
    var zs := [y] + ys;
    forall k | 0 <= k < |sh|
      ensures sh[k] < stop + 1 && YieldsAs(files[sh[k]], filter, zs[k])
    {
      if k > 0 {
        assert sh[k] == Shift(ix)[k - 1] && zs[k] == ys[k - 1];
      }
    }
  }

  /** Prefixing 0 to shifted increasing positions keeps them increasing. */
  lemma OrderedFirst(ix: seq<nat>, sh: seq<nat>)
    requires forall k, l :: 0 <= k < l < |ix| ==> ix[k] < ix[l]
    requires sh == [0] + Shift(ix)
    ensures forall k, l :: 0 <= k < l < |sh| ==> sh[k] < sh[l]
  {
    forall k, l | 0 <= k < l < |sh|
      ensures sh[k] < sh[l]
    {
      assert sh[l] == ix[l - 1] + 1;
      if k > 0 {
        assert sh[k] == ix[k - 1] + 1;
      }
    }
  }

  /** Every accepted file before `stop + 1` has its position in `[0] + Shift(ix)`. */
  lemma CompleteFirst(files: seq<Entry>, filter: Filter, ys: seq<Entry>, ix: seq<nat>, stop: nat, sh: seq<nat>)
    requires files != []
    requires AcceptedAt(files[1..], filter, ys, ix, stop)
    requires sh == [0] + Shift(ix)
    ensures forall i :: 0 <= i < stop + 1 && filter(files[i].doc) == Ok(true) ==> i in sh
  {
    forall i | 0 <= i < stop + 1 && filter(files[i].doc) == Ok(true)
      ensures i in sh
    {
      if i != 0 {
        ShiftedComplete(files, filter, ys, ix, stop, i);
      }
    }
  }

  /** Every scan is described by some positions `ix` and stopping point `stop`. */
  lemma {:induction false} ScanWitness(files: seq<Entry>, filter: Filter)
    returns (ix: seq<nat>, stop: nat)
    ensures DescribedBy(files, filter, ix, stop)
  {
    if files == [] || Visit(files[0], filter).Err? {
      ix, stop := [], 0;
    } else {
      var ix', stop' := ScanWitness(files[1..], filter);
      var rest := GetCacheData(files[1..], filter);
      var r := GetCacheData(files, filter);
      var v := Visit(files[0], filter).value;
      StopsLater(files, filter, rest.failure, stop');
      if v.None? {
        assert r == rest;
        AcceptedAfterSkip(files, filter, rest.yielded, ix', stop');
        ix := Shift(ix');
      } else {
        assert r == Scan([v.value] + rest.yielded, rest.failure);
        AcceptedAfterYield(files, filter, v.value, rest.yielded, ix', stop');
        ix := [0] + Shift(ix');
      }
      stop := stop' + 1;
    }
  }

  /** Number of files whose document has a non-zero length. */
  function NonEmptyCount(files: seq<Entry>): nat {
    if files == [] then 0
    else (if Len(files[0].doc) != Some(0) then 1 else 0) + NonEmptyCount(files[1..])
  }

  /** With the default filter and only str/list/dict documents, the scan never
      raises, and a file is yielded exactly when its document is non-empty. */
  lemma DefaultScanKeepsNonEmpty(files: seq<Entry>) returns (ix: seq<nat>)
    requires forall i :: 0 <= i < |files| ==> HasLen(files[i].doc)
    ensures GetCacheData(files, DefaultFilter).failure.None?
    ensures |ix| == |GetCacheData(files, DefaultFilter).yielded|
    ensures forall k :: 0 <= k < |ix| ==>
              ix[k] < |files| && YieldsAs(files[ix[k]], DefaultFilter, GetCacheData(files, DefaultFilter).yielded[k])
    ensures forall k, l :: 0 <= k < l < |ix| ==> ix[k] < ix[l]
    ensures forall i :: 0 <= i < |files| ==> (i in ix <==> Len(files[i].doc) != Some(0))
  {
    var stop;
    ix, stop := ScanWitness(files, DefaultFilter);
    assert forall i :: 0 <= i < |files| ==> Visit(files[i], DefaultFilter).Ok?;
  }

  /** With the default filter and only str/list/dict documents, the scan
      yields exactly as many entries as there are non-empty documents. */
  lemma {:induction false} DefaultScanCount(files: seq<Entry>)
    requires forall i :: 0 <= i < |files| ==> HasLen(files[i].doc)
    ensures |GetCacheData(files, DefaultFilter).yielded| == NonEmptyCount(files)
    ensures GetCacheData(files, DefaultFilter).failure.None?
  {
    if files != [] {
      DefaultScanCount(files[1..]);
    }
  }

  /** With the accept-all filter the scan yields every file, path unchanged,
      unless some document is the empty list. */
  lemma {:induction false} AcceptAllYieldsEveryFile(files: seq<Entry>)
    requires forall i :: 0 <= i < |files| ==> files[i].doc != Arr([])
    ensures GetCacheData(files, AcceptAll).failure.None?
    ensures |GetCacheData(files, AcceptAll).yielded| == |files|
    ensures forall k :: 0 <= k < |files| ==>
              YieldsAs(files[k], AcceptAll, GetCacheData(files, AcceptAll).yielded[k])
  {
    if files != [] {
      AcceptAllYieldsEveryFile(files[1..]);
      var rest := GetCacheData(files[1..], AcceptAll);
      assert forall k :: 1 <= k < |files| ==> files[k] == files[1..][k - 1];
    }
  }
}
