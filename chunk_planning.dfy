/** Re-chunking of the consolidated dataset: the requested chunk sizes and
    the removal of stale `chunks` entries from the data variables'
    encodings before the write. */
module ChunkPlanning {
  import opened Wrappers
  import opened Datasets

  /** Rows per chunk along the time axis: one day at minute resolution. */
  const TimeChunk: nat := 1440
  /** The encoding key that would override the requested chunking. */
  const ChunksKey: string := "chunks"

  datatype ChunkError = MissingDimension(name: string)

  /** The chunk sizes requested per dimension name. */
  type ChunkPlan = map<string, nat>

  /** combine_files.py:74-77 — `gsp_id` as one chunk spanning its whole extent,
      `datetime_gmt` in chunks of 1440; reading `sizes['gsp_id']` raises
      when the dataset has no such dimension. */
  function PlanChunks(ds: Dataset): (r: Result<ChunkPlan, ChunkError>)
    ensures r.Failure? <==> GspDim !in ds.dims
    ensures r.Failure? ==> r.error == MissingDimension(GspDim)
  {
    if GspDim !in ds.dims then Failure(MissingDimension(GspDim))
    else Success(map[GspDim := ds.dims[GspDim], TimeCoord := TimeChunk])
  }

  /** The plan names exactly the two dimensions and exists exactly when the
      dataset has a `gsp_id` dimension; it requests the whole `gsp_id`
      extent as a single chunk and 1440 time steps per chunk. */
  lemma PlanChunksShape(ds: Dataset)
    ensures PlanChunks(ds).Success? <==> GspDim in ds.dims
    ensures PlanChunks(ds).Success? ==>
      var plan := PlanChunks(ds).value;
      plan.Keys == {GspDim, TimeCoord} && plan[TimeCoord] == TimeChunk &&
      plan[GspDim] == ds.dims[GspDim]
  {
  }

  /** Every data variable's encoding without the `chunks` key; the
      encodings of every other variable are left as they are. */
  function StrippedEncoding(encoding: map<string, Encoding>, dataVars: set<string>): (r: map<string, Encoding>)
    ensures r.Keys == encoding.Keys
  {
    map v | v in encoding :: if v in dataVars then encoding[v] - {ChunksKey} else encoding[v]
  }

  /** After the cleanup no data variable's encoding holds `chunks`, every
      other encoding key keeps its value, the variables with an encoding are
      the same ones, non-data variables are untouched, and a second cleanup
      changes nothing. */
  lemma StrippedEncodingProperties(encoding: map<string, Encoding>, dataVars: set<string>)
    ensures StrippedEncoding(encoding, dataVars).Keys == encoding.Keys
    ensures forall v :: v in encoding && v in dataVars ==>
      ChunksKey !in StrippedEncoding(encoding, dataVars)[v]
    ensures forall v, k :: v in encoding && k != ChunksKey ==>
      (k in StrippedEncoding(encoding, dataVars)[v] <==> k in encoding[v]) &&
      (k in encoding[v] ==> StrippedEncoding(encoding, dataVars)[v][k] == encoding[v][k])
    ensures forall v :: v in encoding && v !in dataVars ==>
      StrippedEncoding(encoding, dataVars)[v] == encoding[v]
    ensures StrippedEncoding(StrippedEncoding(encoding, dataVars), dataVars)
         == StrippedEncoding(encoding, dataVars)
  {
    var once := StrippedEncoding(encoding, dataVars);
    var twice := StrippedEncoding(once, dataVars);
    forall v | v in once ensures twice[v] == once[v] {
      if v in dataVars {
        assert once[v] - {ChunksKey} == once[v];
      }
    }
  }

  lemma StrippedEncodingStep(encoding: map<string, Encoding>, done: set<string>, v: string)
    requires v !in done
    ensures StrippedEncoding(encoding, done + {v}) ==
      var cur := StrippedEncoding(encoding, done);
      if v in cur && ChunksKey in cur[v] then cur[v := cur[v] - {ChunksKey}] else cur
  {
    var cur := StrippedEncoding(encoding, done);
    if v in cur && ChunksKey !in cur[v] {
      assert cur[v] - {ChunksKey} == cur[v];
    }
  }

  /** combine_files.py:80-82 — for every data variable, delete `chunks` from its
      encoding if it is there. */
  method StripChunkEncodings(encoding: map<string, Encoding>, dataVars: set<string>)
    returns (cleaned: map<string, Encoding>)
    ensures cleaned == StrippedEncoding(encoding, dataVars)
  {
    cleaned := encoding;
    var pending := dataVars;
    assert StrippedEncoding(encoding, {}) == encoding;
    while pending != {}
      invariant pending <= dataVars
      invariant cleaned == StrippedEncoding(encoding, dataVars - pending)
      decreases pending
    {
      var v :| v in pending;
      StrippedEncodingStep(encoding, dataVars - pending, v);
      if v in cleaned && ChunksKey in cleaned[v] {
        cleaned := cleaned[v := cleaned[v] - {ChunksKey}];
      }
      assert dataVars - (pending - {v}) == (dataVars - pending) + {v};
      pending := pending - {v};
    }
  }
}
