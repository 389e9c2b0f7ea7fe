/** The script's top level: open every monthly partition, keep those that
    carry the time coordinate, stop if none did, merge them, plan the
    chunks, clean the encodings and hand the archive to the writer. */
module CombineFiles {
  import opened Wrappers
  import opened PartitionPaths
  import opened Datasets
  import opened Consolidation
  import opened ChunkPlanning

  /** Where the consolidated archive is written. */
  const OutputPath: string := "combined_2023_gsp.zarr"

  /** Why a run stopped early. */
  datatype Abort =
    | NoDatasetsLoaded    // the check at combine_files.py:54
    | NoDatasetsWithTime  // the check at combine_files.py:60
    | ConcatOrSaveFailed  // the handler at combine_files.py:89

  /** How a run ends: stopped, or with the archive handed to `to_zarr`
      together with the chunk plan it was re-chunked to. */
  datatype Outcome =
    | Aborted(reason: Abort)
    | Written(destination: string, archive: Dataset, chunks: ChunkPlan)

  predicate HasTime(ds: Dataset) {
    TimeCoord in ds.coords
  }

  /** What one loader result contributes to `datasets`. */
  function Kept(loaded: Option<Dataset>): seq<Dataset> {
    if loaded.Some? && HasTime(loaded.value) then [loaded.value] else []
  }

  /** The list `datasets` after the loop has visited `paths`: the loaded
      datasets that carry the time coordinate, in path order. */
  function Accepted(store: Store, paths: seq<string>): (dss: seq<Dataset>)
    ensures |dss| <= |paths|
  {
    if paths == [] then []
    else Accepted(store, paths[..|paths| - 1]) + Kept(Load(store, paths[|paths| - 1]))
  }

  /** combine_files.py:37-51 — the collection loop. */
  method CollectDatasets(store: Store, paths: seq<string>) returns (datasets: seq<Dataset>)
    ensures datasets == Accepted(store, paths)
  {
    datasets := [];
    for i := 0 to |paths|
      invariant datasets == Accepted(store, paths[..i])
    {
      var ds := TryOpenZarr(store, paths[i]);
      assert paths[..i + 1][..i] == paths[..i];
      if ds.Some? {
        if TimeCoord !in ds.value.coords {
          // reported and skipped
        } else {
          datasets := datasets + [ds.value];
        }
      }
    }
    assert paths[..|paths|] == paths;
  }

  /** combine_files.py:58 — `[ds for ds in datasets if "datetime_gmt" in ds.coords]`. */
  function WithTime(dss: seq<Dataset>): (r: seq<Dataset>)
    ensures |r| <= |dss|
    ensures forall k :: 0 <= k < |r| ==> HasTime(r[k])
    ensures forall d :: d in r <==> d in dss && HasTime(d)
  {
    if dss == [] then []
    else (if HasTime(dss[0]) then [dss[0]] else []) + WithTime(dss[1..])
  }

  /** The re-filter keeps the order of the list: filtering `a + b` is
      filtering `a`, then `b`. */
  lemma {:induction false} WithTimeAppend(a: seq<Dataset>, b: seq<Dataset>)
    ensures WithTime(a + b) == WithTime(a) + WithTime(b)
  {
    if a != [] {
      assert (a + b)[1..] == a[1..] + b;
      WithTimeAppend(a[1..], b);
    } else {
      assert a + b == b;
    }
  }

  // ---------------------------------------------------------------------
  // The accumulated list
  // ---------------------------------------------------------------------

  lemma {:induction false} AcceptedAppend(store: Store, a: seq<string>, b: seq<string>)
    ensures Accepted(store, a + b) == Accepted(store, a) + Accepted(store, b)
  {
    if b != [] {
      assert (a + b)[..|a + b| - 1] == a + b[..|b| - 1];
      AcceptedAppend(store, a, b[..|b| - 1]);
    } else {
      assert a + b == a;
    }
  }

  /** A dataset is in the list exactly when some path loads to it and it
      carries the time coordinate; the list is never longer than the path
      list. */
  lemma {:induction false} AcceptedMembers(store: Store, paths: seq<string>)
    ensures |Accepted(store, paths)| <= |paths|
    ensures forall d :: d in Accepted(store, paths) <==>
      exists i :: 0 <= i < |paths| && Load(store, paths[i]) == Some(d) && HasTime(d)
  {
    if paths != [] {
      var init := paths[..|paths| - 1];
      AcceptedMembers(store, init);
      forall d ensures d in Accepted(store, paths) <==>
        exists i :: 0 <= i < |paths| && Load(store, paths[i]) == Some(d) && HasTime(d)
      {
        if exists i :: 0 <= i < |paths| && Load(store, paths[i]) == Some(d) && HasTime(d) {
          var i :| 0 <= i < |paths| && Load(store, paths[i]) == Some(d) && HasTime(d);
          if i < |paths| - 1 {
            assert init[i] == paths[i];
          }
        }
        if d in Accepted(store, init) {
          var i :| 0 <= i < |init| && Load(store, init[i]) == Some(d) && HasTime(d);
          assert paths[i] == init[i];
        }
      }
    }
  }

  /** Every dataset in the list carries the time coordinate, so the
      re-filter at line 58 returns the list unchanged. */
  lemma WithTimeOfAccepted(store: Store, paths: seq<string>)
    ensures WithTime(Accepted(store, paths)) == Accepted(store, paths)
  {
    AcceptedMembers(store, paths);
    WithTimeKeepsTimed(Accepted(store, paths));
  }

  lemma {:induction false} WithTimeKeepsTimed(dss: seq<Dataset>)
    requires forall d :: d in dss ==> HasTime(d)
    ensures WithTime(dss) == dss
  {
    if dss != [] {
      assert dss[0] in dss;
      WithTimeKeepsTimed(dss[1..]);
      assert dss == [dss[0]] + dss[1..];
    }
  }

  lemma AcceptedSkip(store: Store, pre: seq<string>, here: seq<string>, post: seq<string>)
    requires Accepted(store, here) == []
    ensures Accepted(store, pre + here + post) == Accepted(store, pre + post)
  {
    calc {
      Accepted(store, pre + here + post);
      { AcceptedAppend(store, pre + here, post); }
      Accepted(store, pre + here) + Accepted(store, post);
      { AcceptedAppend(store, pre, here); }
      Accepted(store, pre) + Accepted(store, post);
      { AcceptedAppend(store, pre, post); }
      Accepted(store, pre + post);
    }
  }

  /** A partition that fails to open, or opens without the time
      coordinate, leaves the list as if it had not been listed at all. */
  lemma RejectedPartitionIsSkipped(store: Store, paths: seq<string>, k: nat)
    requires k < |paths|
    requires Load(store, paths[k]).None? || !HasTime(Load(store, paths[k]).value)
    ensures Accepted(store, paths) == Accepted(store, paths[..k] + paths[k + 1..])
  {
    var here := [paths[k]];
    assert Kept(Load(store, paths[k])) == [];
    assert Accepted(store, here) == [] by {
      assert here[..0] == [];
    }
    assert paths == paths[..k] + here + paths[k + 1..];
    AcceptedSkip(store, paths[..k], here, paths[k + 1..]);
  }

  // ---------------------------------------------------------------------
  // The whole run
  // ---------------------------------------------------------------------

  /** The run over `paths`, from loading to the write; it stops at the
      first guard exactly when nothing was accepted, and a write goes to
      the configured output path. */
  function Pipeline(store: Store, paths: seq<string>): (outcome: Outcome)
    ensures outcome == Aborted(NoDatasetsLoaded) <==> Accepted(store, paths) == []
    ensures outcome.Written? ==> outcome.destination == OutputPath
  {
    var datasets := Accepted(store, paths);
    if datasets == [] then Aborted(NoDatasetsLoaded)
    else
      var withTime := WithTime(datasets);
      if withTime == [] then Aborted(NoDatasetsWithTime)
      else
        match Consolidate(withTime)
        case Failure(_) => Aborted(ConcatOrSaveFailed)
        case Success(combined) =>
          match PlanChunks(combined)
          case Failure(_) => Aborted(ConcatOrSaveFailed)
          case Success(plan) =>
            Written(OutputPath,
                    combined.(encoding := StrippedEncoding(combined.encoding, combined.dataVars)),
                    plan)
  }

  /** The script: its twelve configured partitions, its two guards, the
      merge, the chunk plan and the encoding cleanup. */
  method CombineFilesRun(store: Store) returns (outcome: Outcome)
    ensures outcome == Pipeline(store, PartitionPathsFor(BasePath, Year))
  {
    var paths := PartitionPathsFor(BasePath, Year);
    var datasets := CollectDatasets(store, paths);
    if datasets == [] {
      return Aborted(NoDatasetsLoaded);
    }
    var withTime := WithTime(datasets);
    if withTime == [] {
      return Aborted(NoDatasetsWithTime);
    }
    var merged := Consolidate(withTime);
    if merged.Failure? {
      return Aborted(ConcatOrSaveFailed);
    }
    var combined := merged.value;
    var plan := PlanChunks(combined);
    if plan.Failure? {
      return Aborted(ConcatOrSaveFailed);
    }
    var cleaned := StripChunkEncodings(combined.encoding, combined.dataVars);
    combined := combined.(encoding := cleaned);
    return Written(OutputPath, combined, plan.value);
  }

  /** The second guard (line 60) never fires. */
  lemma SecondGuardUnreachable(store: Store, paths: seq<string>)
    ensures Pipeline(store, paths) != Aborted(NoDatasetsWithTime)
  {
    WithTimeOfAccepted(store, paths);
  }

  /** The run stops before any merge or write exactly when no partition
      loads to a dataset with the time coordinate. */
  lemma StopsIffNothingLoaded(store: Store, paths: seq<string>)
    ensures Pipeline(store, paths) == Aborted(NoDatasetsLoaded) <==>
      forall i :: 0 <= i < |paths| ==> Load(store, paths[i]).None? || !HasTime(Load(store, paths[i]).value)
  {
    AcceptedMembers(store, paths);
    WithTimeOfAccepted(store, paths);
    if Accepted(store, paths) != [] {
      assert Accepted(store, paths)[0] in Accepted(store, paths);
    }
  }

  /** A run ends with a write exactly when some partition was accepted, the
      accepted partitions agree on their layout and they have a `gsp_id`
      dimension. */
  lemma WritesIff(store: Store, paths: seq<string>)
    ensures Pipeline(store, paths).Written? <==>
      var dss := Accepted(store, paths);
      dss != [] && Compatible(dss) && GspDim in dss[0].dims
  {
    WithTimeOfAccepted(store, paths);
  }

  /** What gets written: the union of the accepted partitions' timestamps,
      strictly ascending, each the first row with its timestamp in the
      concatenation, with every partition's data variables, coordinates
      and non-temporal sizes, no `chunks` key in any data variable's
      encoding, and the chunk plan of lines 74-77. */
  lemma WrittenArchive(store: Store, paths: seq<string>)
    requires Pipeline(store, paths).Written?
    ensures var out := Pipeline(store, paths); var dss := Accepted(store, paths);
      var a := out.archive;
      && out.destination == OutputPath
      && StrictlyAscending(a.rows)
      && (forall t :: t in Times(a.rows) <==>
            exists k :: 0 <= k < |dss| && t in Times(dss[k].rows))
      && |a.rows| <= TotalRows(dss)
      && (forall i :: 0 <= i < |a.rows| ==>
            a.rows[i].time in Times(ConcatRows(dss)) &&
            a.rows[i] == FirstAt(ConcatRows(dss), a.rows[i].time))
      && (forall k :: 0 <= k < |dss| ==>
            a.dataVars == dss[k].dataVars && a.coords == dss[k].coords && a.dims == dss[k].dims)
      && (forall v :: v in a.encoding && v in a.dataVars ==> ChunksKey !in a.encoding[v])
      && out.chunks.Keys == {GspDim, TimeCoord}
      && out.chunks[GspDim] == a.dims[GspDim] && out.chunks[TimeCoord] == TimeChunk
  {
    var dss := Accepted(store, paths);
    WithTimeOfAccepted(store, paths);
    MergedRowsProperties(dss);
    ConsolidateKeepsLayout(dss);
    var combined := Consolidate(dss).value;
    PlanChunksShape(combined);
    StrippedEncodingProperties(combined.encoding, combined.dataVars);
  }

  /** A partition that fails to open (or lacks the time coordinate) changes
      nothing about the run: it ends exactly as if the partition had not
      been listed, so the archive still covers every other partition. */
  lemma PartialFailure(store: Store, paths: seq<string>, k: nat)
    requires k < |paths|
    requires Load(store, paths[k]).None? || !HasTime(Load(store, paths[k]).value)
    ensures Pipeline(store, paths) == Pipeline(store, paths[..k] + paths[k + 1..])
  {
    RejectedPartitionIsSkipped(store, paths, k);
  }
}
