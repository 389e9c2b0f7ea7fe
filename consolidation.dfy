/** The merge step: concatenate the accepted partitions along the time axis,
    sort the rows by timestamp with a stable sort, then keep only the first
    row of every timestamp (`~index.duplicated()`, whose default keeps the
    first occurrence). */
module Consolidation {
  import opened Wrappers
  import opened Datasets

  // ---------------------------------------------------------------------
  // Views of a row sequence
  // ---------------------------------------------------------------------

  /** The set of timestamps present in `rows`. */
  function Times(rows: seq<Row>): set<int> {
    set r | r in rows :: r.time
  }

  /** The rows stamped `t`, in their order in `rows`: every one of them,
      and nothing else. */
  function RowsAt(rows: seq<Row>, t: int): (at: seq<Row>)
    ensures |at| <= |rows|
    ensures forall k :: 0 <= k < |at| ==> at[k].time == t && at[k] in rows
    ensures forall r :: r in rows && r.time == t ==> r in at
  {
    if rows == [] then []
    else (if rows[0].time == t then [rows[0]] else []) + RowsAt(rows[1..], t)
  }

  /** The first row stamped `t`: it sits at some index before which no row
      carries `t`. */
  function FirstAt(rows: seq<Row>, t: int): (r: Row)
    requires t in Times(rows)
    ensures r in rows && r.time == t
    ensures exists j :: 0 <= j < |rows| && rows[j] == r && forall i :: 0 <= i < j ==> rows[i].time != t
  {
    if rows[0].time == t then rows[0]
    else
      assert t in Times(rows[1..]) by {
        var q :| q in rows && q.time == t;
        assert q != rows[0];
      }
      var r := FirstAt(rows[1..], t);
      assert exists j :: 0 <= j < |rows| && rows[j] == r && forall i :: 0 <= i < j ==> rows[i].time != t by {
        var j :| 0 <= j < |rows[1..]| && rows[1..][j] == r && forall i :: 0 <= i < j ==> rows[1..][i].time != t;
        assert rows[j + 1] == r;
        assert forall i :: 0 <= i < j + 1 ==> rows[i].time != t by {
          forall i | 0 <= i < j + 1 ensures rows[i].time != t {
            if i > 0 {
              assert rows[i] == rows[1..][i - 1];
            }
          }
        }
      }
      r
  }

  ghost predicate Sorted(rows: seq<Row>) {
    forall i, j :: 0 <= i < j < |rows| ==> rows[i].time <= rows[j].time
  }

  ghost predicate StrictlyAscending(rows: seq<Row>) {
    forall i, j :: 0 <= i < j < |rows| ==> rows[i].time < rows[j].time
  }

  ghost predicate DistinctTimes(rows: seq<Row>) {
    forall i, j :: 0 <= i < j < |rows| ==> rows[i].time != rows[j].time
  }

  lemma TimesCons(x: Row, rest: seq<Row>)
    ensures Times([x] + rest) == {x.time} + Times(rest)
  {
    assert forall r :: r in [x] + rest <==> r == x || r in rest;
  }

  lemma {:induction false} FirstAtRowsAt(rows: seq<Row>, t: int)
    requires t in Times(rows)
    ensures |RowsAt(rows, t)| > 0 && RowsAt(rows, t)[0] == FirstAt(rows, t)
  {
    if rows[0].time != t {
      FirstAtRowsAt(rows[1..], t);
    }
  }

  // ---------------------------------------------------------------------
  // Concatenation along the time axis
  // ---------------------------------------------------------------------

  /** The rows of all partitions, partition after partition. */
  function ConcatRows(dss: seq<Dataset>): (all: seq<Row>)
    ensures |all| == TotalRows(dss)
    ensures |dss| == 1 ==> all == dss[0].rows
  {
    if dss == [] then [] else dss[0].rows + ConcatRows(dss[1..])
  }

  /** The sum of the partitions' row counts. */
  function TotalRows(dss: seq<Dataset>): nat {
    if dss == [] then 0 else |dss[0].rows| + TotalRows(dss[1..])
  }

  /** Concatenation keeps every row and adds none: its rows are exactly the
      partitions' rows, its length is the sum of the lengths and its
      timestamps are the union of the partitions' timestamps. */
  lemma {:induction false} ConcatRowsContents(dss: seq<Dataset>)
    ensures |ConcatRows(dss)| == TotalRows(dss)
    ensures forall r :: r in ConcatRows(dss) <==> exists k :: 0 <= k < |dss| && r in dss[k].rows
    ensures forall t :: t in Times(ConcatRows(dss)) <==>
      exists k :: 0 <= k < |dss| && t in Times(dss[k].rows)
  {
    if dss != [] {
      ConcatRowsContents(dss[1..]);
      var all := ConcatRows(dss);
      assert all == dss[0].rows + ConcatRows(dss[1..]);
      forall r ensures r in all <==> exists k :: 0 <= k < |dss| && r in dss[k].rows {
        if r in ConcatRows(dss[1..]) {
          var k :| 0 <= k < |dss[1..]| && r in dss[1..][k].rows;
          assert r in dss[k + 1].rows;
        }
        if exists k :: 0 <= k < |dss| && r in dss[k].rows {
          var k :| 0 <= k < |dss| && r in dss[k].rows;
          if k > 0 {
            assert r in dss[1..][k - 1].rows;
          }
        }
      }
      forall t ensures t in Times(all) <==> exists k :: 0 <= k < |dss| && t in Times(dss[k].rows) {
        if t in Times(all) {
          var r :| r in all && r.time == t;
          if r in dss[0].rows {
            assert t in Times(dss[0].rows);
          } else {
            assert t in Times(ConcatRows(dss[1..]));
            var k :| 0 <= k < |dss[1..]| && t in Times(dss[1..][k].rows);
            assert t in Times(dss[k + 1].rows);
          }
        }
        if exists k :: 0 <= k < |dss| && t in Times(dss[k].rows) {
          var k :| 0 <= k < |dss| && t in Times(dss[k].rows);
          var r :| r in dss[k].rows && r.time == t;
          if k > 0 {
            assert t in Times(dss[1..][k - 1].rows);
            assert t in Times(ConcatRows(dss[1..]));
            var q :| q in ConcatRows(dss[1..]) && q.time == t;
            assert q in all;
          } else {
            assert r in all;
          }
        }
      }
    }
  }

  /** Concatenation keeps the partitions' order: the rows of `a + b` are the
      rows of `a` followed by the rows of `b`. */
  lemma {:induction false} ConcatRowsAppend(a: seq<Dataset>, b: seq<Dataset>)
    ensures ConcatRows(a + b) == ConcatRows(a) + ConcatRows(b)
  {
    if a == [] {
      assert a + b == b;
    } else {
      assert (a + b)[1..] == a[1..] + b;
      ConcatRowsAppend(a[1..], b);
    }
  }

  /** The first row stamped `t` in `a + b` is the one in `a` when `a` has
      one. */
  lemma {:induction false} FirstAtPrefix(a: seq<Row>, b: seq<Row>, t: int)
    requires t in Times(a)
    ensures t in Times(a + b) && FirstAt(a + b, t) == FirstAt(a, t)
  {
    assert FirstAt(a, t) in a + b;
    if a[0].time != t {
      assert t in Times(a[1..]) by {
        var q :| q in a && q.time == t;
        assert q != a[0];
      }
      FirstAtPrefix(a[1..], b, t);
      assert (a + b)[1..] == a[1..] + b;
    }
  }

  /** A timestamp shared by several partitions is taken from the earliest
      partition that has it: the first row stamped `t` in the concatenation
      is the first partition's when that partition carries `t`. */
  lemma FirstPartitionWins(dss: seq<Dataset>, t: int)
    requires |dss| > 0 && t in Times(dss[0].rows)
    ensures t in Times(ConcatRows(dss))
    ensures FirstAt(ConcatRows(dss), t) == FirstAt(dss[0].rows, t)
  {
    FirstAtPrefix(dss[0].rows, ConcatRows(dss[1..]), t);
  }

  // ---------------------------------------------------------------------
  // Stable sort by timestamp
  // ---------------------------------------------------------------------

  /** Every row of `rows` is stamped `v` or later. */
  ghost predicate AllFrom(rows: seq<Row>, v: int) {
    forall k :: 0 <= k < |rows| ==> v <= rows[k].time
  }

  lemma SortedCons(x: Row, rest: seq<Row>)
    requires Sorted(rest) && AllFrom(rest, x.time)
    ensures Sorted([x] + rest)
  {
    var r := [x] + rest;
    forall i, j | 0 <= i < j < |r| ensures r[i].time <= r[j].time {
      assert r[j] == rest[j - 1];
      if i > 0 {
        assert r[i] == rest[i - 1];
      }
    }
  }

  /** Puts `x` in front of the first row of `rows` whose timestamp is not
      smaller, so that it precedes every row with its own timestamp. */
  function InsertRow(x: Row, rows: seq<Row>): (r: seq<Row>)
    ensures |r| == |rows| + 1
  {
    if rows == [] || x.time <= rows[0].time then [x] + rows
    else [rows[0]] + InsertRow(x, rows[1..])
  }

  lemma {:induction false} InsertRowPermutes(x: Row, rows: seq<Row>)
    ensures multiset(InsertRow(x, rows)) == multiset(rows) + multiset{x}
  {
    if rows != [] && x.time > rows[0].time {
      InsertRowPermutes(x, rows[1..]);
      assert rows == [rows[0]] + rows[1..];
    }
  }

  lemma {:induction false} InsertRowFrom(x: Row, rows: seq<Row>, v: int)
    requires v <= x.time && AllFrom(rows, v)
    ensures AllFrom(InsertRow(x, rows), v)
  {
    if rows != [] && x.time > rows[0].time {
      InsertRowFrom(x, rows[1..], v);
      var r := InsertRow(x, rows);
      assert r[1..] == InsertRow(x, rows[1..]);
    }
  }

  /** Inserting into a sorted sequence keeps it sorted. */
  lemma {:induction false} InsertRowSorted(x: Row, rows: seq<Row>)
    requires Sorted(rows)
    ensures Sorted(InsertRow(x, rows))
  {
    if rows == [] || x.time <= rows[0].time {
      SortedCons(x, rows);
    } else {
      var rest := rows[1..];
      assert Sorted(rest);
      assert AllFrom(rest, rows[0].time);
      InsertRowSorted(x, rest);
      InsertRowFrom(x, rest, rows[0].time);
      SortedCons(rows[0], InsertRow(x, rest));
    }
  }

  /** `sortby("datetime_gmt")`: ascending by timestamp, stable. */
  function SortByTime(rows: seq<Row>): (r: seq<Row>)
    ensures |r| == |rows|
  {
    if rows == [] then [] else InsertRow(rows[0], SortByTime(rows[1..]))
  }

  /** The sort's output is ascending and a permutation of its input. */
  lemma {:induction false} SortByTimeSorts(rows: seq<Row>)
    ensures Sorted(SortByTime(rows))
    ensures multiset(SortByTime(rows)) == multiset(rows)
  {
    if rows != [] {
      SortByTimeSorts(rows[1..]);
      InsertRowSorted(rows[0], SortByTime(rows[1..]));
      InsertRowPermutes(rows[0], SortByTime(rows[1..]));
      assert rows == [rows[0]] + rows[1..];
    }
  }

  lemma TimesOfPermutation(a: seq<Row>, b: seq<Row>)
    requires multiset(a) == multiset(b)
    ensures Times(a) == Times(b)
  {
    forall r ensures r in a <==> r in b {
      assert r in a <==> r in multiset(a);
      assert r in b <==> r in multiset(b);
    }
  }

  lemma {:induction false} RowsAtInsert(x: Row, rows: seq<Row>, t: int)
    ensures RowsAt(InsertRow(x, rows), t) ==
      if x.time == t then [x] + RowsAt(rows, t) else RowsAt(rows, t)
  {
    if rows == [] || x.time <= rows[0].time {
      assert ([x] + rows)[1..] == rows;
    } else {
      var r := InsertRow(x, rows);
      assert r[1..] == InsertRow(x, rows[1..]);
      RowsAtInsert(x, rows[1..], t);
    }
  }

  /** The sort is stable: for every timestamp, the rows carrying it appear
      in the sorted sequence exactly as, and in the order, they appear in
      the input. */
  lemma {:induction false} SortStable(rows: seq<Row>, t: int)
    ensures RowsAt(SortByTime(rows), t) == RowsAt(rows, t)
  {
    if rows != [] {
      SortStable(rows[1..], t);
      RowsAtInsert(rows[0], SortByTime(rows[1..]), t);
    }
  }

  /** Hence the first row with a timestamp is the same before and after
      the sort. */
  lemma SortKeepsFirst(rows: seq<Row>, t: int)
    requires t in Times(rows)
    ensures t in Times(SortByTime(rows))
    ensures FirstAt(SortByTime(rows), t) == FirstAt(rows, t)
  {
    var s := SortByTime(rows);
    SortByTimeSorts(rows);
    TimesOfPermutation(rows, s);
    SortStable(rows, t);
    FirstAtRowsAt(rows, t);
    FirstAtRowsAt(s, t);
  }

  // ---------------------------------------------------------------------
  // Keep-first deduplication
  // ---------------------------------------------------------------------

  /** `sel(datetime_gmt=~index.duplicated())` after the timestamps in `seen`
      have already been met: a row survives iff no earlier row, and no
      timestamp in `seen`, has its timestamp. */
  function DropDuplicateTimes(rows: seq<Row>, seen: set<int>): (r: seq<Row>)
    ensures |r| <= |rows|
    ensures forall i :: 0 <= i < |r| ==> r[i].time !in seen
    ensures Times(r) == Times(rows) - seen
    ensures DistinctTimes(r)
  {
    if rows == [] then []
    else if rows[0].time in seen then DropDuplicateTimes(rows[1..], seen)
    else
      var rest := DropDuplicateTimes(rows[1..], seen + {rows[0].time});
      TimesCons(rows[0], rest);
      TimesCons(rows[0], rows[1..]);
      assert rows == [rows[0]] + rows[1..];
      [rows[0]] + rest
  }

  /** Every surviving row is the first row of `rows` with its timestamp. */
  lemma {:induction false} DropKeepsFirst(rows: seq<Row>, seen: set<int>)
    ensures forall i :: 0 <= i < |DropDuplicateTimes(rows, seen)| ==>
      DropDuplicateTimes(rows, seen)[i].time in Times(rows) &&
      DropDuplicateTimes(rows, seen)[i] == FirstAt(rows, DropDuplicateTimes(rows, seen)[i].time)
  {
    if rows != [] {
      var r := DropDuplicateTimes(rows, seen);
      assert forall i :: 0 <= i < |r| ==> r[i].time in Times(r);
      if rows[0].time in seen {
        DropKeepsFirst(rows[1..], seen);
      } else {
        DropKeepsFirst(rows[1..], seen + {rows[0].time});
        forall i | 0 <= i < |r| ensures r[i].time in Times(rows) && r[i] == FirstAt(rows, r[i].time) {
          if i > 0 {
            assert r[i] == DropDuplicateTimes(rows[1..], seen + {rows[0].time})[i - 1];
          }
        }
      }
    }
  }

  lemma {:induction false} DropFrom(rows: seq<Row>, seen: set<int>, v: int)
    requires AllFrom(rows, v)
    ensures AllFrom(DropDuplicateTimes(rows, seen), v)
  {
    if rows != [] {
      var r := DropDuplicateTimes(rows, seen);
      if rows[0].time in seen {
        DropFrom(rows[1..], seen, v);
      } else {
        DropFrom(rows[1..], seen + {rows[0].time}, v);
        assert r[1..] == DropDuplicateTimes(rows[1..], seen + {rows[0].time});
      }
    }
  }

  /** On a sorted input the survivors are strictly ascending. */
  lemma {:induction false} DropSortedIsStrict(rows: seq<Row>, seen: set<int>)
    requires Sorted(rows)
    ensures StrictlyAscending(DropDuplicateTimes(rows, seen))
  {
    if rows != [] {
      var r := DropDuplicateTimes(rows, seen);
      assert Sorted(rows[1..]);
      if rows[0].time in seen {
        DropSortedIsStrict(rows[1..], seen);
      } else {
        var rest := DropDuplicateTimes(rows[1..], seen + {rows[0].time});
        DropSortedIsStrict(rows[1..], seen + {rows[0].time});
        assert AllFrom(rows[1..], rows[0].time);
        DropFrom(rows[1..], seen + {rows[0].time}, rows[0].time);
        forall i, j | 0 <= i < j < |r| ensures r[i].time < r[j].time {
          assert r[j] == rest[j - 1];
          assert r[j].time != rows[0].time;
          if i > 0 {
            assert r[i] == rest[i - 1];
          }
        }
      }
    }
  }

  lemma {:induction false} DistinctTimesCount(rows: seq<Row>)
    requires DistinctTimes(rows)
    ensures |Times(rows)| == |rows|
  {
    if rows != [] {
      DistinctTimesCount(rows[1..]);
      TimesCons(rows[0], rows[1..]);
      assert rows == [rows[0]] + rows[1..];
      assert rows[0].time !in Times(rows[1..]);
    }
  }

  // ---------------------------------------------------------------------
  // The consolidated dataset
  // ---------------------------------------------------------------------

  /** Concatenate, sort, deduplicate: one row per timestamp, never more
      rows than were concatenated. */
  function MergedRows(dss: seq<Dataset>): (m: seq<Row>)
    ensures DistinctTimes(m) && |m| <= TotalRows(dss)
  {
    DropDuplicateTimes(SortByTime(ConcatRows(dss)), {})
  }

  /** The merged time axis: strictly ascending, holding exactly the union
      of the partitions' timestamps, one row per timestamp (so never more
      rows than were concatenated), and each row the first one carrying its
      timestamp both in the sorted concatenation and, by stability, in the
      concatenation in partition order. */
  lemma MergedRowsProperties(dss: seq<Dataset>)
    ensures StrictlyAscending(MergedRows(dss))
    ensures forall t :: t in Times(MergedRows(dss)) <==>
      exists k :: 0 <= k < |dss| && t in Times(dss[k].rows)
    ensures |MergedRows(dss)| == |Times(ConcatRows(dss))| <= TotalRows(dss)
    ensures forall i :: 0 <= i < |MergedRows(dss)| ==>
      MergedRows(dss)[i].time in Times(SortByTime(ConcatRows(dss))) &&
      MergedRows(dss)[i] == FirstAt(SortByTime(ConcatRows(dss)), MergedRows(dss)[i].time)
    ensures forall i :: 0 <= i < |MergedRows(dss)| ==>
      MergedRows(dss)[i].time in Times(ConcatRows(dss)) &&
      MergedRows(dss)[i] == FirstAt(ConcatRows(dss), MergedRows(dss)[i].time)
  {
    var all := ConcatRows(dss);
    var sorted := SortByTime(all);
    var m := MergedRows(dss);
    ConcatRowsContents(dss);
    SortByTimeSorts(all);
    TimesOfPermutation(all, sorted);
    DropSortedIsStrict(sorted, {});
    DropKeepsFirst(sorted, {});
    DistinctTimesCount(m);
    assert |Times(all)| <= |all| by { TimesBound(all); }
    forall i | 0 <= i < |m|
      ensures m[i].time in Times(all) && m[i] == FirstAt(all, m[i].time)
    {
      assert m[i].time in Times(m);
      SortKeepsFirst(all, m[i].time);
    }
  }

  lemma {:induction false} TimesBound(rows: seq<Row>)
    ensures |Times(rows)| <= |rows|
  {
    if rows != [] {
      TimesBound(rows[1..]);
      TimesCons(rows[0], rows[1..]);
      assert rows == [rows[0]] + rows[1..];
    }
  }

  /** When no two partitions share a timestamp (and none repeats one), the
      merge drops nothing: the output has as many rows as the inputs. */
  lemma NoOverlapKeepsEveryRow(dss: seq<Dataset>)
    requires DistinctTimes(ConcatRows(dss))
    ensures |MergedRows(dss)| == TotalRows(dss)
  {
    MergedRowsProperties(dss);
    ConcatRowsContents(dss);
    DistinctTimesCount(ConcatRows(dss));
  }

  datatype ConsolidationError = IncompatiblePartitions

  /** The layout agreement the model requires of the partitions: every
      partition has the same data variables, coordinates and non-temporal
      dimension sizes as the first. A mismatch is modelled as a failed
      merge; `xr.concat`'s outer alignment of indexed dimensions is not
      modelled. */
  predicate Compatible(dss: seq<Dataset>) {
    forall k :: 0 <= k < |dss| ==>
      dss[k].dataVars == dss[0].dataVars && dss[k].coords == dss[0].coords &&
      dss[k].dims == dss[0].dims
  }

  /** combine_files.py:67-71 — concatenation (failing on incompatible partitions), then
      sort and keep-first deduplication; every other attribute of the result
      is the first partition's. */
  function Consolidate(dss: seq<Dataset>): (r: Result<Dataset, ConsolidationError>)
    requires |dss| > 0
    ensures r.Success? <==> Compatible(dss)
    ensures r.Success? ==> r.value.rows == MergedRows(dss)
  {
    if !Compatible(dss) then Failure(IncompatiblePartitions)
    else Success(Dataset(dss[0].dataVars, dss[0].coords, dss[0].dims, MergedRows(dss), dss[0].encoding))
  }

  /** Consolidation succeeds exactly on compatible partitions; it then keeps
      every partition's data variables, coordinates and non-temporal
      dimension sizes, only the time axis changes, and well-formed
      partitions give a well-formed result. */
  lemma ConsolidateKeepsLayout(dss: seq<Dataset>)
    requires |dss| > 0
    ensures (forall k :: 0 <= k < |dss| ==> WellFormed(dss[k])) && Consolidate(dss).Success? ==>
      WellFormed(Consolidate(dss).value)
    ensures Consolidate(dss).Success? <==> Compatible(dss)
    ensures forall k :: 0 <= k < |dss| && Consolidate(dss).Success? ==>
      Consolidate(dss).value.dataVars == dss[k].dataVars &&
      Consolidate(dss).value.coords == dss[k].coords &&
      Consolidate(dss).value.dims == dss[k].dims
    ensures Consolidate(dss).Success? ==> Consolidate(dss).value.rows == MergedRows(dss)
  {
  }
}
