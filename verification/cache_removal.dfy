/** `cache rm [--empty] [--force]`: choose the target files, ask for
    confirmation unless forced, then delete each target and echo its path.

    The confirmation answer is the parameter `confirmed`; declining makes
    click abort the command. Deleting a file is recorded as its path in
    `deleted`; the scan is lazy, so a file is deleted as soon as it is
    yielded and an exception later in the scan leaves earlier deletions done. */
module CacheRemoval {
  import opened Wrappers
  import opened JsonValue
  import opened CacheData

  /** What `cache rm` did: the confirmation question (when it asked one),
      whether it aborted there, what it printed, the paths it deleted in
      order, and the exception that ended it early, if any. */
  datatype Removal = Removal(
    prompt: Option<string>,
    aborted: bool,
    printed: seq<string>,
    deleted: seq<Path>,
    failure: Option<Error>)

  /** The scope named in the confirmation question. */
  function Scope(empty: bool): (r: string)
    ensures !empty ==> r == "all cached data"
    ensures empty ==> r == "only empty JSON cached data"
  {
    if !empty then "all cached data" else "only empty JSON cached data"
  }

  /** The scan filter chosen by the `--empty` flag, as the source chooses it:
      without the flag every document is accepted; with it a document is
      accepted exactly when it has a length and that length is not zero,
      and `len()` raises on the rest. */
  function TargetFilter(empty: bool): (r: Filter)
    ensures !empty ==> forall j :: r(j) == Ok(true)
    ensures empty ==> forall j :: r(j) == Ok(true) <==> HasLen(j) && Len(j) != Some(0)
    ensures empty ==> forall j :: r(j).Err? <==> !HasLen(j)
  {
    if !empty then AcceptAll else DefaultFilter
  }

  /** The paths of some entries, in order. */
  function Paths(es: seq<Entry>): (r: seq<Path>)
    ensures |r| == |es|
    ensures forall k :: 0 <= k < |es| ==> r[k] == es[k].path
  {
    seq(|es|, k requires 0 <= k < |es| => es[k].path)
  }

  /** One `Deleted: <path>` notice per deleted path, in order. */
  function Notices(paths: seq<Path>): (r: seq<string>)
    ensures |r| == |paths|
    ensures forall k :: 0 <= k < |paths| ==> r[k] == "Deleted: " + paths[k]
  {
    seq(|paths|, k requires 0 <= k < |paths| => "Deleted: " + paths[k])
  }

  /** The confirmation gate and the deletion loop, given the scope text and
      the outcome of scanning for targets. */
  function Gate(scope: string, force: bool, confirmed: bool,
                targets: seq<Path>, failure: Option<Error>): (r: Removal)
    ensures r.prompt.Some? <==> !force
    ensures !force ==> r.prompt == Some("Do you want to delete " + scope + "?")
    ensures r.aborted <==> !force && !confirmed
    ensures r.aborted ==> r.deleted == [] && r.printed == [] && r.failure.None?
    ensures !r.aborted ==> r.deleted == targets && r.failure == failure
    ensures !r.aborted ==>
              && |r.printed| == |r.deleted| + 1
              && r.printed[0] == (if force then "Now deleting ..." else "Confirmed. Now deleting ...")
              && forall k :: 0 <= k < |r.deleted| ==> r.printed[k + 1] == "Deleted: " + r.deleted[k]
  {
    if force then
      Removal(None, false, ["Now deleting ..."] + Notices(targets), targets, failure)
    else
      var prompt := Some("Do you want to delete " + scope + "?");
      if !confirmed then Removal(prompt, true, [], [], None)
      else Removal(prompt, false, ["Confirmed. Now deleting ..."] + Notices(targets), targets, failure)
  }

  /** `cache rm` as the source writes it: past the gate, it deletes the
      paths the target scan yields and ends with the scan's exception. */
  function Remove(files: seq<Entry>, empty: bool, force: bool, confirmed: bool): (r: Removal)
    ensures r.aborted <==> !force && !confirmed
    ensures r.aborted ==> r.deleted == []
    ensures |r.deleted| <= |files|
    ensures !r.aborted ==>
              && r.deleted == Paths(GetCacheData(files, TargetFilter(empty)).yielded)
              && r.failure == GetCacheData(files, TargetFilter(empty)).failure
  {
    var scan := GetCacheData(files, TargetFilter(empty));
    Gate(Scope(empty), force, confirmed, Paths(scan.yielded), scan.failure)
  }

  /** No file's path occurs twice, as a directory walk lists each file once. */
  predicate DistinctPaths(files: seq<Entry>) {
    forall i, j :: 0 <= i < j < |files| ==> files[i].path != files[j].path
  }

  /** Without `--empty`, once past the gate, every file is deleted, once
      each and in glob order, unless some document is an empty list. */
  lemma RemoveAllDeletesEveryFile(files: seq<Entry>, force: bool, confirmed: bool)
    requires force || confirmed
    requires forall i :: 0 <= i < |files| ==> files[i].doc != Arr([])
    ensures Remove(files, false, force, confirmed).failure.None?
    ensures Remove(files, false, force, confirmed).deleted == Paths(files)
  {
    AcceptAllYieldsEveryFile(files);
  }

  /** With `--empty`, once past the gate and over str/list/dict documents,
      a file is deleted exactly when its document is NON-empty: the default
      filter keeps non-empty documents, so files with an empty document are
      left in place. */
  lemma RemoveEmptyFlagDeletesNonEmpty(files: seq<Entry>, force: bool, confirmed: bool)
    requires force || confirmed
    requires DistinctPaths(files)
    requires forall i :: 0 <= i < |files| ==> HasLen(files[i].doc)
    ensures Remove(files, true, force, confirmed).failure.None?
    ensures forall i :: 0 <= i < |files| ==>
              (files[i].path in Remove(files, true, force, confirmed).deleted <==> Len(files[i].doc) != Some(0))
  {
    var ix := DefaultScanKeepsNonEmpty(files);
    var ys := GetCacheData(files, DefaultFilter).yielded;
    var deleted := Remove(files, true, force, confirmed).deleted;
    EmptyFlagDeletesScanned(files, force, confirmed);
    assert forall k :: 0 <= k < |ix| ==> deleted[k] == ys[k].path == files[ix[k]].path;
    PositionsGivePaths(files, ix, deleted);
  }

  /** With `--empty` and past the gate, the deleted paths are those the
      default-filter scan yields, and the scan's exception ends the command. */
  lemma EmptyFlagDeletesScanned(files: seq<Entry>, force: bool, confirmed: bool)
    requires force || confirmed
    ensures Remove(files, true, force, confirmed).deleted == Paths(GetCacheData(files, DefaultFilter).yielded)
    ensures Remove(files, true, force, confirmed).failure == GetCacheData(files, DefaultFilter).failure
  {
    assert TargetFilter(true) == DefaultFilter;
  }

  /** Without `--empty` and past the gate, the deleted paths are those the
      accept-all scan yields, and the scan's exception ends the command. */
  lemma AllFlagDeletesScanned(files: seq<Entry>, force: bool, confirmed: bool)
    requires force || confirmed
    ensures Remove(files, false, force, confirmed).deleted == Paths(GetCacheData(files, AcceptAll).yielded)
    ensures Remove(files, false, force, confirmed).failure == GetCacheData(files, AcceptAll).failure
  {
    assert TargetFilter(false) == AcceptAll;
  }

  /** The accept-all scan yields every file before the first empty-list
      document, path unchanged, and raises IndexError there. */
  lemma {:induction false} AcceptAllStopsAtEmptyList(files: seq<Entry>, k: nat)
    requires k < |files| && files[k].doc == Arr([])
    requires forall i :: 0 <= i < k ==> files[i].doc != Arr([])
    ensures GetCacheData(files, AcceptAll).failure == Some(EmptyListIndex)
    ensures Paths(GetCacheData(files, AcceptAll).yielded) == Paths(files[..k])
  {
    if k > 0 {
      AcceptAllStopsAtEmptyList(files[1..], k - 1);
      assert files[..k] == [files[0]] + files[1..][..k - 1];
      assert Paths(files[..k]) == [files[0].path] + Paths(files[1..][..k - 1]);
      var ys := GetCacheData(files, AcceptAll).yielded;
      assert ys == [Entry(files[0].path, Normalise(files[0].doc).value)] + GetCacheData(files[1..], AcceptAll).yielded;
      assert Paths(ys) == [files[0].path] + Paths(GetCacheData(files[1..], AcceptAll).yielded);
    }
  }

  /** Without `--empty` and past the gate, rm deletes every file before the
      first empty-list document, in glob order, and then raises IndexError. */
  lemma RemoveAllStopsAtEmptyList(files: seq<Entry>, force: bool, confirmed: bool, k: nat)
    requires force || confirmed
    requires k < |files| && files[k].doc == Arr([])
    requires forall i :: 0 <= i < k ==> files[i].doc != Arr([])
    ensures Remove(files, false, force, confirmed).failure == Some(EmptyListIndex)
    ensures Remove(files, false, force, confirmed).deleted == Paths(files[..k])
  {
    AllFlagDeletesScanned(files, force, confirmed);
    AcceptAllStopsAtEmptyList(files, k);
  }

  /** Paths read off distinct-path files at positions `ix` contain a file's
      path exactly when its position is in `ix`. */
  lemma PositionsGivePaths(files: seq<Entry>, ix: seq<nat>, paths: seq<Path>)
    requires DistinctPaths(files)
    requires |ix| == |paths|
    requires forall k :: 0 <= k < |ix| ==> ix[k] < |files| && paths[k] == files[ix[k]].path
    ensures forall i :: 0 <= i < |files| ==> (files[i].path in paths <==> i in ix)
  {
    forall i | 0 <= i < |files|
      ensures files[i].path in paths <==> i in ix
    {
      if files[i].path in paths {
        var k :| 0 <= k < |paths| && paths[k] == files[i].path;
        assert files[ix[k]].path == files[i].path;
      }
      if i in ix {
        var k :| 0 <= k < |ix| && ix[k] == i;
        assert paths[k] == files[i].path;
      }
    }
  }

  /** `cache rm --empty --force` over one empty and one non-empty document
      deletes the non-empty one and keeps the empty one. */
  lemma EmptyFlagKeepsTheEmptyFile()
    ensures var files := [Entry("a.json", Obj([])), Entry("b.json", Obj([("k", Null)]))];
            Remove(files, true, true, false).deleted == ["b.json"]
  {
    var files := [Entry("a.json", Obj([])), Entry("b.json", Obj([("k", Null)]))];
    assert Visit(files[0], DefaultFilter) == Ok(None);
    assert files[1..][1..] == [];
  }

  /** `cache rm --force` stops at an empty-list document with IndexError,
      before deleting it or any file after it. */
  lemma EmptyListStopsRemoveAll()
    ensures var files := [Entry("a.json", Arr([])), Entry("b.json", Obj([]))];
            && Remove(files, false, true, false).deleted == []
            && Remove(files, false, true, false).failure == Some(EmptyListIndex)
  {
  }

  /** The filter `len(x) == 0`: accepts exactly the empty documents. */
  function EmptyOnly(j: Json): (r: Result<bool, Error>)
    ensures r.Err? <==> !HasLen(j)
    ensures r == Ok(true) <==> j in {Str(""), Arr([]), Obj([])}
  {
    match Len(j)
    case None => Err(LenUndefined)
    case Some(n) => Ok(n == 0)
  }

  /** The filter `--empty` evidently intends, and `lambda x: True` otherwise. */
  function IntendedFilter(empty: bool): Filter {
    if !empty then AcceptAll else EmptyOnly
  }

  /** The paths the scan selects before it raises, and the exception. */
  datatype Selection = Selection(paths: seq<Path>, failure: Option<Error>)

  /** The target scan without the list normalisation, which `rm` never uses:
      each file's path is selected when the filter accepts its document. */
  function SelectPaths(files: seq<Entry>, filter: Filter): (r: Selection)
    ensures |r.paths| <= |files|
    ensures forall p :: p in r.paths ==> exists i :: 0 <= i < |files| && files[i].path == p
  {
    if files == [] then Selection([], None)
    else
      match filter(files[0].doc)
      case Err(e) => Selection([], Some(e))
      case Ok(keep) =>
        var rest := SelectPaths(files[1..], filter);
        assert forall p :: p in rest.paths ==> exists i :: 0 <= i < |files| && files[i].path == p by {
          forall p | p in rest.paths
            ensures exists i :: 0 <= i < |files| && files[i].path == p
          {
            var i :| 0 <= i < |files[1..]| && files[1..][i].path == p;
            assert files[i + 1].path == p;
          }
        }
        if keep then Selection([files[0].path] + rest.paths, rest.failure) else rest
  }

  /** The files whose document `filter` accepts, in order. These are the
      files at the positions `CacheData.AcceptedAt` lists, taken before the
      normalisation, which the selection does not apply. */
  ghost function Accepted(files: seq<Entry>, filter: Filter): seq<Entry> {
    if files == [] then []
    else (if filter(files[0].doc) == Ok(true) then [files[0]] else []) + Accepted(files[1..], filter)
  }

  /** The selection stops at the first file whose filter raises: the filter
      raises on no file before `stop`, it raises the reported exception on
      the file at `stop`, and the selected paths are those of the accepted
      files before `stop`, in order. */
  lemma {:induction false} SelectPathsStopsAt(files: seq<Entry>, filter: Filter) returns (stop: nat)
    ensures stop <= |files|
    ensures SelectPaths(files, filter).failure.None? <==> stop == |files|
    ensures stop < |files| ==>
              filter(files[stop].doc).Err? && SelectPaths(files, filter).failure == Some(filter(files[stop].doc).error)
    ensures forall i :: 0 <= i < stop ==> filter(files[i].doc).Ok?
    ensures SelectPaths(files, filter).paths == Paths(Accepted(files[..stop], filter))
  {
    if files == [] || filter(files[0].doc).Err? {
      stop := 0;
      assert files[..0] == [];
    } else {
      var stop' := SelectPathsStopsAt(files[1..], filter);
      stop := stop' + 1;
      var pre := files[..stop];
      assert pre[0] == files[0] && pre[1..] == files[1..][..stop'];
      var head := if filter(files[0].doc) == Ok(true) then [files[0]] else [];
      var tail := Accepted(files[1..][..stop'], filter);
      assert Accepted(pre, filter) == head + tail;
      assert Paths(head + tail) == Paths(head) + Paths(tail);
      forall i | 0 <= i < stop
        ensures filter(files[i].doc).Ok?
      {
        if i > 0 {
          assert files[i] == files[1..][i - 1];
        }
      }
    }
  }

  /** `cache rm` with both corrections: `--empty` targets the empty documents,
      and targets are selected without taking the first element of lists. */
  function RemoveIntended(files: seq<Entry>, empty: bool, force: bool, confirmed: bool): (r: Removal)
    ensures r.aborted <==> !force && !confirmed
    ensures r.aborted ==> r.deleted == []
    ensures |r.deleted| <= |files|
    ensures !r.aborted ==>
              && r.deleted == SelectPaths(files, IntendedFilter(empty)).paths
              && r.failure == SelectPaths(files, IntendedFilter(empty)).failure
  {
    var sel := SelectPaths(files, IntendedFilter(empty));
    Gate(Scope(empty), force, confirmed, sel.paths, sel.failure)
  }

  /** Without `--empty`, the corrected command deletes every file, once
      each and in glob order, whatever the documents hold. */
  lemma RemoveIntendedDeletesEveryFile(files: seq<Entry>, force: bool, confirmed: bool)
    requires force || confirmed
    ensures RemoveIntended(files, false, force, confirmed).failure.None?
    ensures RemoveIntended(files, false, force, confirmed).deleted == Paths(files)
  {
    SelectAllPaths(files);
  }

  /** Selecting with `lambda x: True` selects every path in order. */
  lemma {:induction false} SelectAllPaths(files: seq<Entry>)
    ensures SelectPaths(files, AcceptAll) == Selection(Paths(files), None)
  {
    if files != [] {
      SelectAllPaths(files[1..]);
      assert Paths(files) == [files[0].path] + Paths(files[1..]);
    }
  }

  /** Over str/list/dict documents with distinct paths, a file's path is
      selected exactly when the filter accepts its document. */
  lemma {:induction false} SelectPathsExactly(files: seq<Entry>, filter: Filter)
    requires DistinctPaths(files)
    requires forall i :: 0 <= i < |files| ==> filter(files[i].doc).Ok?
    ensures SelectPaths(files, filter).failure.None?
    ensures forall i :: 0 <= i < |files| ==>
              (files[i].path in SelectPaths(files, filter).paths <==> filter(files[i].doc) == Ok(true))
  {
    if files != [] {
      var tail := files[1..];
      assert forall i :: 1 <= i < |files| ==> files[i] == tail[i - 1];
      SelectPathsExactly(tail, filter);
      var rest := SelectPaths(tail, filter);
      forall p | p in rest.paths
        ensures p != files[0].path
      {
        var i :| 0 <= i < |tail| && tail[i].path == p;
        assert files[i + 1].path == p;
      }
    }
  }

  /** With `--empty` and over str/list/dict documents, the corrected command
      deletes exactly the files whose document is empty. */
  lemma RemoveIntendedDeletesEmpty(files: seq<Entry>, force: bool, confirmed: bool)
    requires force || confirmed
    requires DistinctPaths(files)
    requires forall i :: 0 <= i < |files| ==> HasLen(files[i].doc)
    ensures RemoveIntended(files, true, force, confirmed).failure.None?
    ensures forall i :: 0 <= i < |files| ==>
              (files[i].path in RemoveIntended(files, true, force, confirmed).deleted <==> Len(files[i].doc) == Some(0))
  {
    SelectPathsExactly(files, EmptyOnly);
  }
}
