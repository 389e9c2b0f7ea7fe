/** Partition discovery: the twelve zero-padded month keys, the per-month
    store paths built from them, and the nested fallback path derived from a
    path's last '/'-separated segment. */
module PartitionPaths {

  /** The fixed run configuration of the script. */
  const BasePath: string := "s3://ocf-open-data-pvnet/data/uk/pvlive/v1/"
  const Year: string := "2023"
  const Separator: char := '/'

  // ---------------------------------------------------------------------
  // Decimal formatting: the `{m:02}` format specification
  // ---------------------------------------------------------------------

  predicate IsDigit(c: char) {
    '0' <= c <= '9'
  }

  predicate AllDigits(s: string) {
    forall k :: 0 <= k < |s| ==> IsDigit(s[k])
  }

  function DigitChar(d: nat): (c: char)
    requires d < 10
    ensures IsDigit(c) && c as int - '0' as int == d
  {
    ('0' as int + d) as char
  }

  /** The shortest decimal representation of `n`, as `str(n)` prints it. */
  function DecimalDigits(n: nat): (s: string)
    ensures AllDigits(s) && 1 <= |s|
    ensures n < 10 <==> |s| == 1
    ensures n < 100 ==> |s| <= 2
  {
    if n < 10 then [DigitChar(n)] else DecimalDigits(n / 10) + [DigitChar(n % 10)]
  }

  /** The number a string of decimal digits denotes; the partner of
      `DecimalDigits`. */
  function ValueOf(s: string): nat
    requires AllDigits(s)
  {
    if s == [] then 0 else ValueOf(s[..|s| - 1]) * 10 + (s[|s| - 1] as int - '0' as int)
  }

  /** Left-pads `s` with '0' up to `width` characters, as a `0`-filled
      width in a format specification does; longer strings are kept. */
  function ZeroPad(s: string, width: nat): (r: string)
    ensures |r| == if |s| < width then width else |s|
    ensures r[|r| - |s|..] == s
    ensures forall k :: 0 <= k < |r| - |s| ==> r[k] == '0'
  {
    if |s| < width then seq(width - |s|, _ => '0') + s else s
  }

  /** `f"{n:02}"`: never shorter than two characters, all of them digits. */
  function Format02(n: nat): (s: string)
    ensures 2 <= |s| && AllDigits(s)
  {
    var digits := DecimalDigits(n);
    var r := ZeroPad(digits, 2);
    assert forall k :: |r| - |digits| <= k < |r| ==> r[k] == digits[k - (|r| - |digits|)];
    r
  }

  lemma {:induction false} ValueOfDecimalDigits(n: nat)
    ensures ValueOf(DecimalDigits(n)) == n
  {
    if n >= 10 {
      var s := DecimalDigits(n);
      assert s[..|s| - 1] == DecimalDigits(n / 10);
      ValueOfDecimalDigits(n / 10);
    }
  }

  lemma {:induction false} ValueOfLeadingZero(s: string)
    requires AllDigits(s)
    ensures AllDigits(['0'] + s) && ValueOf(['0'] + s) == ValueOf(s)
  {
    if s != [] {
      var z := ['0'] + s;
      assert z[..|z| - 1] == ['0'] + s[..|s| - 1];
      ValueOfLeadingZero(s[..|s| - 1]);
    }
  }

  /** `f"{n:02}"` is two digits for every n below 100, and reading the digits
      back gives n: zero padding never changes the value. */
  lemma Format02RoundTrip(n: nat)
    requires n < 100
    ensures AllDigits(Format02(n)) && |Format02(n)| == 2
    ensures ValueOf(Format02(n)) == n
  {
    var d := DecimalDigits(n);
    ValueOfDecimalDigits(n);
    if |d| == 1 {
      assert Format02(n) == ['0'] + d;
      ValueOfLeadingZero(d);
    }
  }

  // ---------------------------------------------------------------------
  // Month keys and partition paths
  // ---------------------------------------------------------------------

  /** `[f"{m:02}" for m in range(1, 13)]`. */
  function Months(): (ms: seq<string>)
    ensures |ms| == 12
  {
    seq(12, i requires 0 <= i < 12 => Format02(i + 1))
  }

  /** The month keys are "01" to "12" in order: twelve two-digit strings
      whose i-th entry denotes i + 1, and hence pairwise distinct. */
  lemma MonthKeys()
    ensures forall i :: 0 <= i < 12 ==>
      AllDigits(Months()[i]) && |Months()[i]| == 2 && ValueOf(Months()[i]) == i + 1
    ensures forall i, j :: 0 <= i < j < 12 ==> Months()[i] != Months()[j]
  {
    var ms := Months();
    forall i | 0 <= i < 12
      ensures AllDigits(ms[i]) && |ms[i]| == 2 && ValueOf(ms[i]) == i + 1
    {
      Format02RoundTrip(i + 1);
    }
  }

  /** The first and last keys, spelled out. */
  lemma FirstAndLastMonth()
    ensures Months()[0] == "01" && Months()[11] == "12"
  {
    assert DecimalDigits(1) == "1";
    assert Format02(1) == "01";
    assert DecimalDigits(12) == DecimalDigits(1) + [DigitChar(2)] == "12";
    assert Format02(12) == "12";
  }

  /** `f"{base_path}target_data_{year}_{month}.zarr"`. */
  function PartitionFileName(year: string, month: string): string {
    "target_data_" + year + "_" + month + ".zarr"
  }

  function PartitionPath(base: string, year: string, month: string): string {
    base + PartitionFileName(year, month)
  }

  /** `[... for month in months]`: one path per month, in month order. */
  function PartitionPathsFor(base: string, year: string): (ps: seq<string>)
    ensures |ps| == |Months()|
    ensures forall i :: 0 <= i < |ps| ==> ps[i] == PartitionPath(base, year, Months()[i])
  {
    seq(|Months()|, i requires 0 <= i < |Months()| => PartitionPath(base, year, Months()[i]))
  }

  /** Reads the month key back out of a partition path: the partner of
      `PartitionPath` for a fixed base and year. */
  function MonthOfPath(base: string, year: string, path: string): string
    requires |path| >= |base| + |"target_data_"| + |year| + |"_"| + |".zarr"|
  {
    path[|base| + |"target_data_"| + |year| + |"_"|..|path| - |".zarr"|]
  }

  lemma MonthOfPartitionPath(base: string, year: string, month: string)
    ensures MonthOfPath(base, year, PartitionPath(base, year, month)) == month
  {
    var p := PartitionPath(base, year, month);
    var start := |base| + |"target_data_"| + |year| + |"_"|;
    assert p == (base + "target_data_" + year + "_") + month + ".zarr";
    assert p[start..|p| - |".zarr"|] == month;
  }

  /** No two months share a store path, so no partition is loaded twice. */
  lemma PartitionPathsDistinct(base: string, year: string)
    ensures forall i, j :: 0 <= i < j < 12 ==>
      PartitionPathsFor(base, year)[i] != PartitionPathsFor(base, year)[j]
  {
    MonthKeys();
    var ps := PartitionPathsFor(base, year);
    forall i, j | 0 <= i < j < 12 ensures ps[i] != ps[j] {
      MonthOfPartitionPath(base, year, Months()[i]);
      MonthOfPartitionPath(base, year, Months()[j]);
    }
  }

  // ---------------------------------------------------------------------
  // `str.split` and the nested fallback path
  // ---------------------------------------------------------------------

  /** Python's `s.split(sep)` for a one-character separator: the maximal
      separator-free pieces, empty pieces included. */
  function Split(s: string, sep: char): (parts: seq<string>)
    ensures |parts| >= 1
    ensures |parts| == 1 <==> sep !in s
    ensures forall k :: 0 <= k < |parts| ==> sep !in parts[k]
  {
    if s == [] then [""]
    else if s[0] == sep then [""] + Split(s[1..], sep)
    else
      var rest := Split(s[1..], sep);
      [[s[0]] + rest[0]] + rest[1..]
  }

  /** `sep.join(parts)`. */
  function Join(parts: seq<string>, sep: char): string
    requires |parts| >= 1
  {
    if |parts| == 1 then parts[0] else parts[0] + [sep] + Join(parts[1..], sep)
  }

  /** Splitting then joining gives the string back. */
  lemma {:induction false} JoinSplit(s: string, sep: char)
    ensures Join(Split(s, sep), sep) == s
  {
    if s != [] {
      JoinSplit(s[1..], sep);
      if s[0] != sep {
        var rest := Split(s[1..], sep);
        if |rest| > 1 {
          assert Split(s, sep)[1..] == rest[1..];
        }
      }
    }
  }

  /** `s.split(sep)[-1]`: a piece without any separator. */
  function LastSegment(s: string): (seg: string)
    ensures Separator !in seg
  {
    var parts := Split(s, Separator);
    parts[|parts| - 1]
  }

  /** `f"{path}/{path.split('/')[-1]}"`: one directory below `path`. */
  function NestedPath(path: string): (p: string)
    ensures |p| > |path| && p[..|path|] == path && p[|path|] == Separator
  {
    path + [Separator] + LastSegment(path)
  }

  lemma {:induction false} SplitLast(a: string, b: string, sep: char)
    requires sep !in b
    ensures Split(a + [sep] + b, sep)[|Split(a + [sep] + b, sep)| - 1] == b
  {
    var s := a + [sep] + b;
    if a == [] {
      assert s[1..] == b;
      JoinSplit(b, sep);
    } else {
      assert s[1..] == a[1..] + [sep] + b;
      SplitLast(a[1..], b, sep);
      assert sep in s[1..] by { assert s[1..][|a| - 1] == sep; }
    }
  }

  lemma {:induction false} SplitSuffix(s: string, sep: char)
    ensures var parts := Split(s, sep);
      |parts[|parts| - 1]| <= |s| && s[|s| - |parts[|parts| - 1]|..] == parts[|parts| - 1]
  {
    if s != [] {
      var parts := Split(s, sep);
      var rest := Split(s[1..], sep);
      var last := rest[|rest| - 1];
      SplitSuffix(s[1..], sep);
      assert s[|s| - |last|..] == s[1..][|s[1..]| - |last|..];
      if s[0] != sep && |rest| == 1 {
        JoinSplit(s[1..], sep);
        assert parts == [[s[0]] + s[1..]];
        assert [s[0]] + s[1..] == s;
      }
    }
  }

  /** The nested fallback path is `path + "/"` followed by the path's last
      segment. It is longer than `path + "/"` exactly when the path is
      non-empty and does not end in '/'; for a path ending in '/' the last
      segment is empty and the nested path is `path + "/"` itself. */
  lemma NestedPathExtends(path: string)
    ensures |NestedPath(path)| == |path| + 1 + |LastSegment(path)|
    ensures NestedPath(path)[..|path| + 1] == path + [Separator]
    ensures NestedPath(path)[|path| + 1..] == LastSegment(path)
    ensures |LastSegment(path)| > 0 <==> |path| > 0 && path[|path| - 1] != Separator
  {
    var last := LastSegment(path);
    LastSegmentShape(path);
    if |last| > 0 {
      assert path[|path| - 1] == last[|last| - 1];
    }
  }

  /** The last segment is '/'-free and is a suffix of the path that either
      is the whole path or follows a '/'. */
  lemma LastSegmentShape(path: string)
    ensures Separator !in LastSegment(path)
    ensures var last := LastSegment(path);
      |last| <= |path| && path[|path| - |last|..] == last &&
      (|last| == |path| || path[|path| - |last| - 1] == Separator)
  {
    var parts := Split(path, Separator);
    SplitSuffix(path, Separator);
    if |LastSegment(path)| < |path| {
      JoinSplit(path, Separator);
      JoinLastSeparator(parts, Separator);
    }
  }

  lemma {:induction false} JoinLastSeparator(parts: seq<string>, sep: char)
    requires |parts| >= 1
    requires |parts[|parts| - 1]| < |Join(parts, sep)|
    ensures var j := Join(parts, sep); var last := parts[|parts| - 1];
      j[|j| - |last| - 1] == sep
  {
    if |parts| > 1 {
      var j := Join(parts, sep);
      var last := parts[|parts| - 1];
      var rest := Join(parts[1..], sep);
      assert j == parts[0] + [sep] + rest;
      if |last| < |rest| {
        JoinLastSeparator(parts[1..], sep);
      } else {
        assert |rest| == |last| by { JoinLength(parts[1..], sep); }
      }
    }
  }

  lemma {:induction false} JoinLength(parts: seq<string>, sep: char)
    requires |parts| >= 1
    ensures |Join(parts, sep)| >= |parts[|parts| - 1]|
  {
    if |parts| > 1 {
      JoinLength(parts[1..], sep);
    }
  }

  /** For a base ending in '/' the nested path of a month's partition
      repeats the partition's own file name one directory deeper. */
  lemma NestedPartitionPath(base: string, year: string, month: string)
    requires |base| >= 1 && base[|base| - 1] == Separator
    requires Separator !in year && Separator !in month
    ensures NestedPath(PartitionPath(base, year, month))
         == PartitionPath(base, year, month) + [Separator] + PartitionFileName(year, month)
  {
    var file := PartitionFileName(year, month);
    assert Separator !in file;
    assert PartitionPath(base, year, month) == base[..|base| - 1] + [Separator] + file;
    SplitLast(base[..|base| - 1], file, Separator);
  }

  /** With the configured base and year every month's fallback repeats
      that month's file name one directory deeper, e.g.
      `.../target_data_2023_01.zarr/target_data_2023_01.zarr`. */
  lemma ConfiguredNestedPaths()
    ensures forall i :: 0 <= i < 12 ==>
      NestedPath(PartitionPathsFor(BasePath, Year)[i])
        == PartitionPathsFor(BasePath, Year)[i] + [Separator] + PartitionFileName(Year, Months()[i])
  {
    assert BasePath[|BasePath| - 1] == Separator;
    assert Separator !in Year;
    MonthKeys();
    forall i | 0 <= i < 12
      ensures NestedPath(PartitionPathsFor(BasePath, Year)[i])
        == PartitionPathsFor(BasePath, Year)[i] + [Separator] + PartitionFileName(Year, Months()[i])
    {
      var m := Months()[i];
      assert Separator !in m by {
        assert forall c :: c in m ==> IsDigit(c);
      }
      NestedPartitionPath(BasePath, Year, m);
    }
  }
}
