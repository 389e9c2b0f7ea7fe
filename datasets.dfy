/** The labelled-array collections the script reads, the object store they
    are read from, and the single-partition loader `try_open_zarr` with its
    fallback to a nested store. */
module Datasets {
  import opened Wrappers
  import opened PartitionPaths

  /** The temporal coordinate: the concatenation, sort and dedup key. */
  const TimeCoord: string := "datetime_gmt"
  /** The identifier dimension whose full extent becomes one chunk. */
  const GspDim: string := "gsp_id"

  /** One step along the time axis: its timestamp and the data values at
      that step. The values are carried, never inspected. */
  datatype Row = Row(time: int, values: seq<real>)

  /** A variable's encoding dictionary; the values are opaque settings. */
  type Encoding = map<string, string>

  /** A labelled-array collection as the script sees it: the names of its
      data variables and coordinates, the sizes of its non-temporal
      dimensions, its rows along the time axis and the encoding dictionary
      of each variable. */
  datatype Dataset = Dataset(
    dataVars: set<string>,
    coords: set<string>,
    dims: map<string, nat>,
    rows: seq<Row>,
    encoding: map<string, Encoding>)

  /** The convention `dims` follows: it holds the non-temporal sizes only,
      the length of the time axis being `|rows|`. */
  predicate WellFormed(ds: Dataset) {
    TimeCoord !in ds.dims
  }

  /** The object store: a path that is in the map opens to that dataset,
      any other path makes the open raise. */
  type Store = map<string, Dataset>

  /** The outcome of `try_open_zarr(path)`: the dataset at `path`, or, if
      that one has no data variables, whatever opens at the nested path;
      `None` when either open raises. */
  function Load(store: Store, path: string): (r: Option<Dataset>)
    ensures r.Some? ==> path in store
    ensures r.Some? && store[path].dataVars == {} ==> NestedPath(path) in store
  {
    if path !in store then None
    else if store[path].dataVars == {} then
      if NestedPath(path) in store then Some(store[NestedPath(path)]) else None
    else Some(store[path])
  }

  /** `try_open_zarr`: `ds` is first the primary store and is replaced by
      the nested store only when it has no data variables. */
  method TryOpenZarr(store: Store, path: string) returns (r: Option<Dataset>)
    ensures r == Load(store, path)
  {
    if path !in store {
      return None;
    }
    var ds := store[path];
    if ds.dataVars == {} {
      var nested := NestedPath(path);
      if nested !in store {
        return None;
      }
      ds := store[nested];
    }
    return Some(ds);
  }

  /** A primary dataset with data variables is returned unchanged, whatever
      the store holds anywhere else: the nested path is never consulted. */
  lemma LoadPrimaryWins(store: Store, other: Store, path: string)
    requires path in store && store[path].dataVars != {}
    requires path in other && other[path] == store[path]
    ensures Load(store, path) == Load(other, path) == Some(store[path])
  {
  }

  /** Changing only what lies at the nested path can change the outcome
      only when the primary dataset opened with no data variables. */
  lemma LoadConsultsNestedOnlyWhenEmpty(store: Store, other: Store, path: string)
    requires forall p :: p != NestedPath(path) ==> (p in store <==> p in other)
    requires forall p :: p != NestedPath(path) && p in store ==> store[p] == other[p]
    ensures Load(store, path) != Load(other, path) ==>
      path in store && store[path].dataVars == {}
  {
    NestedPathExtends(path);
    assert path != NestedPath(path);
  }

  /** A primary store without data variables falls back to the nested one;
      the fallback's result is not checked for data variables again. */
  lemma LoadFallback(store: Store, path: string)
    requires path in store && store[path].dataVars == {}
    requires NestedPath(path) in store
    ensures Load(store, path) == Some(store[NestedPath(path)])
  {
  }

  /** The loader yields nothing exactly when the primary open raises, or the
      primary has no data variables and the nested open raises. */
  lemma LoadFailsExactly(store: Store, path: string)
    ensures Load(store, path) == None <==>
      path !in store || (store[path].dataVars == {} && NestedPath(path) !in store)
  {
  }

  /** Whatever the loader yields was stored at the primary or nested path. */
  lemma LoadComesFromStore(store: Store, path: string)
    ensures Load(store, path).Some? ==>
      (path in store && Load(store, path).value == store[path]) ||
      (NestedPath(path) in store && Load(store, path).value == store[NestedPath(path)])
  {
  }
}
