/**
 * What `DateTimePartitioner` inherits from `BasePartitioner`: building the
 * object-store path of a partition from its values, and listing the hourly
 * partitions that follow a given one up to the current hour.
 */
module BasePartitioner {
  import opened Outcomes
  import opened Calendar

  /** The errors the partitioners raise. */
  datatype PartitionError =
    | DateOutOfRange                           // hour arithmetic left `datetime`'s range (OverflowError)
    | MalformedPartition(values: seq<string>)  // a partition tuple that names no hour (ValueError)

  /** One path segment: `key=value` in the hive layout, the bare value otherwise. */
  function Segment(hiveCompatible: bool, keyName: string, value: string): string {
    if hiveCompatible then keyName + "=" + value else value
  }

  /** A Glue column: partition keys and table columns alike have a name and a type. */
  datatype Column = Column(name: string, columnType: string)

  /** The names of the columns, in order. */
  function ColumnNames(columns: seq<Column>): (names: seq<string>)
    ensures |names| == |columns| && forall i | 0 <= i < |columns| :: names[i] == columns[i].name
  {
    seq(|columns|, i requires 0 <= i < |columns| => columns[i].name)
  }

  /** The segments for `values`; in the hive layout the i-th value is named by the i-th key. */
  function PathSegments(hiveCompatible: bool, keyNames: seq<string>, values: seq<string>): (segments: seq<string>)
    requires hiveCompatible ==> |values| <= |keyNames|
    ensures |segments| == |values|
  {
    seq(|values|, i requires 0 <= i < |values| =>
      Segment(hiveCompatible, if hiveCompatible then keyNames[i] else "", values[i]))
  }

  /** In the hive layout the i-th segment is `keyNames[i]=values[i]`; in the plain one it is the value itself. */
  lemma PathSegmentsLayout(hiveCompatible: bool, keyNames: seq<string>, values: seq<string>)
    requires hiveCompatible ==> |values| <= |keyNames|
    ensures var segments := PathSegments(hiveCompatible, keyNames, values);
      && (hiveCompatible ==> forall i | 0 <= i < |values| :: segments[i] == keyNames[i] + "=" + values[i])
      && (!hiveCompatible ==> segments == values)
  {
  }

  /** The segments, each preceded by a slash. */
  function JoinSegments(segments: seq<string>): string {
    if segments == [] then "" else "/" + segments[0] + JoinSegments(segments[1..])
  }

  /**
   * `build_partitioned_path(values)`: the base location when there are no
   * values, else the base location followed by one segment per value. In the
   * hive layout the values must match the partition keys one for one.
   */
  function BuildPartitionedPath(s3Location: string, hiveCompatible: bool, keyNames: seq<string>, values: seq<string>): (path: string)
    requires hiveCompatible && values != [] ==> |values| == |keyNames|
    ensures values == [] ==> path == s3Location
    ensures |s3Location| <= |path| && path[..|s3Location|] == s3Location
    ensures values != [] ==> |s3Location| < |path| && path[|s3Location|] == '/'
  {
    s3Location + JoinSegments(PathSegments(hiveCompatible, keyNames, values))
  }

  // Reading a path back: the inverse of BuildPartitionedPath.

  /** The first index at or after `from` where `s` holds `c`, or `|s|` when there is none. */
  function IndexOf(s: string, c: char, from: nat): (k: nat)
    requires from <= |s|
    ensures from <= k <= |s| && (k < |s| ==> s[k] == c)
    ensures forall j | from <= j < k :: s[j] != c
    decreases |s| - from
  {
    if from == |s| || s[from] == c then from else IndexOf(s, c, from + 1)
  }

  /** Splits `/a/b/c` into `[a, b, c]`. */
  function SplitSegments(s: string): seq<string>
    requires s == "" || s[0] == '/'
    decreases |s|
  {
    if s == "" then []
    else
      var k := IndexOf(s, '/', 1);
      [s[1..k]] + SplitSegments(s[k..])
  }

  /** The key and the value of a segment: split at its first `=` in the hive layout, no key otherwise. */
  function SegmentEntry(hiveCompatible: bool, segment: string): Option<(string, string)> {
    if !hiveCompatible then Some(("", segment))
    else
      var k := IndexOf(segment, '=', 0);
      if k < |segment| then Some((segment[..k], segment[k + 1..])) else None
  }

  function SegmentEntries(hiveCompatible: bool, segments: seq<string>): Option<seq<(string, string)>> {
    if forall i | 0 <= i < |segments| :: SegmentEntry(hiveCompatible, segments[i]).Some? then
      Some(seq(|segments|, i requires 0 <= i < |segments| => SegmentEntry(hiveCompatible, segments[i]).value))
    else
      None
  }

  /** The key and value entries of a path under `s3Location`, or `None` when it is not such a path. */
  function ParsePartitionEntries(s3Location: string, hiveCompatible: bool, path: string): Option<seq<(string, string)>> {
    if |s3Location| <= |path| && path[..|s3Location|] == s3Location then
      var rest := path[|s3Location|..];
      if rest == "" || rest[0] == '/' then SegmentEntries(hiveCompatible, SplitSegments(rest)) else None
    else
      None
  }

  /** The partition values a path under `s3Location` names, or `None` when it is not such a path. */
  function ParsePartitionedPath(s3Location: string, hiveCompatible: bool, path: string): Option<seq<string>> {
    match ParsePartitionEntries(s3Location, hiveCompatible, path)
    case None => None
    case Some(entries) => Some(seq(|entries|, i requires 0 <= i < |entries| => entries[i].1))
  }

  predicate NoSlash(s: string) {
    '/' !in s
  }

  /** Partition values and key names that fit in one path segment each. */
  predicate WellFormedPathArgs(hiveCompatible: bool, keyNames: seq<string>, values: seq<string>) {
    && (hiveCompatible && values != [] ==> |values| == |keyNames|)
    && (forall i | 0 <= i < |values| :: NoSlash(values[i]))
    && (hiveCompatible ==> forall i | 0 <= i < |keyNames| :: NoSlash(keyNames[i]) && '=' !in keyNames[i])
  }

  lemma {:induction false} SplitOfJoin(segments: seq<string>)
    requires forall i | 0 <= i < |segments| :: NoSlash(segments[i])
    ensures var s := JoinSegments(segments); (s == "" || s[0] == '/') && SplitSegments(s) == segments
  {
    if segments != [] {
      var s := JoinSegments(segments);
      var rest := JoinSegments(segments[1..]);
      var n := 1 + |segments[0]|;
      assert s == "/" + segments[0] + rest;
      SplitOfJoin(segments[1..]);
      assert forall j | 1 <= j < n :: s[j] == segments[0][j - 1] && s[j] != '/';
      if segments[1..] != [] {
        assert s[n] == rest[0] == '/';
      }
      var k := IndexOf(s, '/', 1);
      assert k == n;
      assert s[1..k] == segments[0];
      assert s[k..] == rest;
    }
  }

  lemma EntryOfSegment(hiveCompatible: bool, keyName: string, value: string)
    requires hiveCompatible ==> '=' !in keyName
    ensures SegmentEntry(hiveCompatible, Segment(hiveCompatible, keyName, value))
         == Some((if hiveCompatible then keyName else "", value))
  {
    if hiveCompatible {
      var seg := Segment(true, keyName, value);
      var k := IndexOf(seg, '=', 0);
      assert seg[|keyName|] == '=';
      assert forall j | 0 <= j < |keyName| :: seg[j] == keyName[j] && seg[j] != '=';
      assert k == |keyName|;
      assert seg[..k] == keyName;
      assert seg[k + 1..] == value;
    }
  }

  /** The entries of the segments of a path pair each value with the key that names it. */
  lemma SegmentEntriesOfPathSegments(hiveCompatible: bool, keyNames: seq<string>, values: seq<string>)
    requires WellFormedPathArgs(hiveCompatible, keyNames, values)
    ensures var segments := PathSegments(hiveCompatible, keyNames, values);
      var e := SegmentEntries(hiveCompatible, segments);
      && (forall i | 0 <= i < |segments| :: NoSlash(segments[i]))
      && e.Some? && |e.value| == |values|
      && forall i | 0 <= i < |values| :: e.value[i] == (if hiveCompatible then keyNames[i] else "", values[i])
  {
    var segments := PathSegments(hiveCompatible, keyNames, values);
    forall i | 0 <= i < |segments|
      ensures NoSlash(segments[i])
      ensures SegmentEntry(hiveCompatible, segments[i]) == Some((if hiveCompatible then keyNames[i] else "", values[i]))
    {
      var key := if hiveCompatible then keyNames[i] else "";
      EntryOfSegment(hiveCompatible, key, values[i]);
      assert segments[i] == Segment(hiveCompatible, key, values[i]);
      if hiveCompatible {
        assert segments[i] == key + ("=" + values[i]);
      }
    }
  }

  /**
   * Reading back a built path gives, in order, each value with the key that
   * names it: in the hive layout the i-th value comes with the i-th key.
   */
  lemma ParseEntriesOfBuildPartitionedPath(s3Location: string, hiveCompatible: bool, keyNames: seq<string>, values: seq<string>)
    requires WellFormedPathArgs(hiveCompatible, keyNames, values)
    ensures var e := ParsePartitionEntries(s3Location, hiveCompatible,
                                           BuildPartitionedPath(s3Location, hiveCompatible, keyNames, values));
      && e.Some? && |e.value| == |values|
      && forall i | 0 <= i < |values| :: e.value[i] == (if hiveCompatible then keyNames[i] else "", values[i])
  {
    var segments := PathSegments(hiveCompatible, keyNames, values);
    SegmentEntriesOfPathSegments(hiveCompatible, keyNames, values);
    SplitOfJoin(segments);
    var path := BuildPartitionedPath(s3Location, hiveCompatible, keyNames, values);
    assert path[|s3Location|..] == JoinSegments(segments);
  }

  /** Reading back a built path gives the values it was built from. */
  lemma ParseOfBuildPartitionedPath(s3Location: string, hiveCompatible: bool, keyNames: seq<string>, values: seq<string>)
    requires WellFormedPathArgs(hiveCompatible, keyNames, values)
    ensures ParsePartitionedPath(s3Location, hiveCompatible, BuildPartitionedPath(s3Location, hiveCompatible, keyNames, values))
            == Some(values)
  {
    ParseEntriesOfBuildPartitionedPath(s3Location, hiveCompatible, keyNames, values);
    var e := ParsePartitionEntries(s3Location, hiveCompatible, BuildPartitionedPath(s3Location, hiveCompatible, keyNames, values));
    var r := ParsePartitionedPath(s3Location, hiveCompatible, BuildPartitionedPath(s3Location, hiveCompatible, keyNames, values));
    assert r == Some(seq(|e.value|, i requires 0 <= i < |e.value| => e.value[i].1));
    assert r.value == values;
  }

  /** Two values in the hive layout: `loc/k1=v1/k2=v2`. */
  lemma HivePathOfTwo(s3Location: string, k1: string, k2: string, v1: string, v2: string)
    ensures BuildPartitionedPath(s3Location, true, [k1, k2], [v1, v2]) == s3Location + "/" + k1 + "=" + v1 + "/" + k2 + "=" + v2
  {
    var segs := PathSegments(true, [k1, k2], [v1, v2]);
    assert segs == [k1 + "=" + v1, k2 + "=" + v2];
    assert segs[1..] == [k2 + "=" + v2] && segs[1..][1..] == [];
    assert JoinSegments(segs[1..]) == "/" + (k2 + "=" + v2) + JoinSegments([]);
  }

  /** Three values in the plain layout: `loc/v1/v2/v3`. */
  lemma PlainPathOfThree(s3Location: string, v1: string, v2: string, v3: string)
    ensures BuildPartitionedPath(s3Location, false, [], [v1, v2, v3]) == s3Location + "/" + v1 + "/" + v2 + "/" + v3
  {
    var segs := PathSegments(false, [], [v1, v2, v3]);
    assert segs == [v1, v2, v3];
    assert segs[1..] == [v2, v3] && segs[1..][1..] == [v3] && segs[1..][1..][1..] == [];
    assert JoinSegments([v3]) == "/" + v3 + JoinSegments([]);
    assert JoinSegments([v2, v3]) == "/" + v2 + JoinSegments([v3]);
  }

  /** Different partition values never share a path, so each is probed separately. */
  lemma BuildPartitionedPathInjective(s3Location: string, hiveCompatible: bool, keyNames: seq<string>, values1: seq<string>, values2: seq<string>)
    requires WellFormedPathArgs(hiveCompatible, keyNames, values1)
    requires WellFormedPathArgs(hiveCompatible, keyNames, values2)
    requires BuildPartitionedPath(s3Location, hiveCompatible, keyNames, values1)
          == BuildPartitionedPath(s3Location, hiveCompatible, keyNames, values2)
    ensures values1 == values2
  {
    ParseOfBuildPartitionedPath(s3Location, hiveCompatible, keyNames, values1);
    ParseOfBuildPartitionedPath(s3Location, hiveCompatible, keyNames, values2);
  }

  // Hourly partitions after a given one.

  predicate AllValidHours(hours: seq<int>) {
    forall i | 0 <= i < |hours| :: ValidHour(hours[i])
  }

  /** The partition tuple of each hour, in the same order. */
  function HourTuples(hours: seq<int>): (tuples: seq<seq<string>>)
    requires AllValidHours(hours)
    ensures |tuples| == |hours| && forall i | 0 <= i < |hours| :: tuples[i] == HourTuple(hours[i])
  {
    seq(|hours|, i requires 0 <= i < |hours| => HourTuple(hours[i]))
  }

  lemma HourTuplesSingleton(h: int)
    requires ValidHour(h)
    ensures AllValidHours([h]) && HourTuples([h]) == [HourTuple(h)]
  {
    assert HourTuples([h])[0] == HourTuple(h);
  }

  lemma HourTuplesConcat(a: seq<int>, b: seq<int>)
    requires AllValidHours(a) && AllValidHours(b)
    ensures AllValidHours(a + b) && HourTuples(a + b) == HourTuples(a) + HourTuples(b)
  {
    assert AllValidHours(a + b);
    var l := HourTuples(a + b);
    var r := HourTuples(a) + HourTuples(b);
    forall i | 0 <= i < |l| ensures l[i] == r[i] {
      if i < |a| {
        assert (a + b)[i] == a[i];
      } else {
        assert (a + b)[i] == b[i - |a|];
      }
    }
  }

  /** The hours `lo` through `hi`, oldest first. */
  function HourSpan(lo: int, hi: int): (hours: seq<int>)
    ensures |hours| == if lo <= hi then hi - lo + 1 else 0
    ensures forall i | 0 <= i < |hours| :: hours[i] == lo + i
  {
    var n := if lo <= hi then hi - lo + 1 else 0;
    seq(n, i requires 0 <= i < n => lo + i)
  }

  lemma HourSpanValid(lo: int, hi: int)
    requires 0 <= lo && (lo <= hi ==> ValidHour(hi))
    ensures AllValidHours(HourSpan(lo, hi))
  {
  }

  /** The tuples of hours `lo` through `hi`, oldest first. */
  function HourRange(lo: int, hi: int): (r: seq<seq<string>>)
    requires 0 <= lo && (lo <= hi ==> ValidHour(hi))
    ensures |r| == if lo <= hi then hi - lo + 1 else 0
    ensures forall i | 0 <= i < |r| :: r[i] == HourTuple(lo + i)
  {
    HourSpanValid(lo, hi);
    HourTuples(HourSpan(lo, hi))
  }

  /** Each tuple in a range reads back as its own hour. */
  lemma HourRangeParses(lo: int, hi: int)
    requires 0 <= lo && (lo <= hi ==> ValidHour(hi))
    ensures var r := HourRange(lo, hi); forall i | 0 <= i < |r| :: ParseHourTuple(r[i]) == Some(lo + i)
  {
    var r := HourRange(lo, hi);
    forall i | 0 <= i < |r| ensures ParseHourTuple(r[i]) == Some(lo + i) {
      ParseOfHourTuple(lo + i);
    }
  }

  /**
   * `_get_datetime_values_since_initial_time(first)`: the tuple of every hour
   * strictly after `first`, up to and including `now`, oldest first; a tuple
   * that names no hour is an error.
   */
  function DatetimeValuesSince(first: seq<string>, now: int): (r: Result<seq<seq<string>>, PartitionError>)
    requires ValidHour(now)
    ensures r.Failure? <==> ParseHourTuple(first).None?
    ensures r.Failure? ==> r.error == MalformedPartition(first)
    ensures r.Success? ==>
      var h0 := ParseHourTuple(first).value;
      && |r.value| == (if h0 < now then now - h0 else 0)
      && forall i | 0 <= i < |r.value| :: r.value[i] == HourTuple(h0 + 1 + i)
  {
    match ParseHourTuple(first)
    case None => Failure(MalformedPartition(first))
    case Some(h0) => Success(HourRange(h0 + 1, now))
  }

  /** Each listed tuple reads back as the hour `i + 1` hours after the first one. */
  lemma DatetimeValuesSinceParses(first: seq<string>, now: int)
    requires ValidHour(now) && ParseHourTuple(first).Some?
    ensures var r := DatetimeValuesSince(first, now).value; var h0 := ParseHourTuple(first).value;
      forall i | 0 <= i < |r| :: ParseHourTuple(r[i]) == Some(h0 + 1 + i)
  {
    var h0 := ParseHourTuple(first).value;
    DatetimeValuesSinceRange(first, now);
    HourRangeParses(h0 + 1, now);
  }

  /** A span starts at its first hour; one that would be empty still holds that hour. */
  lemma HourSpanCons(lo: int, hi: int)
    ensures [lo] + HourSpan(lo + 1, hi) == HourSpan(lo, if lo < hi then hi else lo)
  {
    var l := [lo] + HourSpan(lo + 1, hi);
    var r := HourSpan(lo, if lo < hi then hi else lo);
    forall i | 0 <= i < |l| ensures l[i] == r[i] {
      if i > 0 {
        assert l[i] == HourSpan(lo + 1, hi)[i - 1];
      }
    }
  }

  /** A non-empty range ends with the tuple of its last hour. */
  lemma HourRangeLast(lo: int, hi: int)
    requires 0 <= lo <= hi && ValidHour(hi)
    ensures var r := HourRange(lo, hi); r[|r| - 1] == HourTuple(hi)
  {
    var r := HourRange(lo, hi);
    assert r[hi - lo] == HourTuple(lo + (hi - lo));
  }

  /** A range starts with the tuple of its first hour; one that would be empty still holds that tuple. */
  lemma HourRangeCons(lo: int, hi: int)
    requires ValidHour(lo) && ValidHour(hi)
    ensures [HourTuple(lo)] + HourRange(lo + 1, hi) == HourRange(lo, if lo < hi then hi else lo)
  {
    HourSpanValid(lo + 1, hi);
    HourSpanCons(lo, hi);
    HourTuplesConcat([lo], HourSpan(lo + 1, hi));
    HourTuplesSingleton(lo);
  }

  lemma HourTuplesIndex(hours: seq<int>, h: int, i: int)
    requires AllValidHours(hours) && ValidHour(h)
    requires 0 <= i < |hours| && HourTuples(hours)[i] == HourTuple(h)
    ensures hours[i] == h
  {
    HourTupleInjective(hours[i], h);
  }

  /** A list of tuples names an hour exactly when its list of hours holds it. */
  lemma HourTuplesMember(hours: seq<int>, h: int)
    requires AllValidHours(hours) && ValidHour(h)
    ensures HourTuple(h) in HourTuples(hours) <==> h in hours
  {
    var t := HourTuples(hours);
    if HourTuple(h) in t {
      var i :| 0 <= i < |t| && t[i] == HourTuple(h);
      HourTuplesIndex(hours, h, i);
    }
    if h in hours {
      var i :| 0 <= i < |hours| && hours[i] == h;
      assert t[i] == HourTuple(h);
    }
  }

  /** The hours a range lists are exactly those from `lo` through `hi`. */
  lemma HourRangeMember(lo: int, hi: int, h: int)
    requires 0 <= lo && (lo <= hi ==> ValidHour(hi)) && ValidHour(h)
    ensures HourTuple(h) in HourRange(lo, hi) <==> lo <= h <= hi
  {
    var span := HourSpan(lo, hi);
    HourSpanValid(lo, hi);
    HourTuplesMember(span, h);
    if lo <= h <= hi {
      assert span[h - lo] == h;
    }
  }

  lemma DatetimeValuesSinceRange(first: seq<string>, now: int)
    requires ValidHour(now) && ParseHourTuple(first).Some?
    ensures DatetimeValuesSince(first, now) == Success(HourRange(ParseHourTuple(first).value + 1, now))
  {
  }

  /** The hours listed after `first` are exactly those after it and no later than `now`. */
  lemma DatetimeValuesSinceMembers(first: seq<string>, now: int, h: int)
    requires ValidHour(now) && ParseHourTuple(first).Some? && ValidHour(h)
    ensures HourTuple(h) in DatetimeValuesSince(first, now).value <==> ParseHourTuple(first).value < h <= now
  {
    DatetimeValuesSinceRange(first, now);
    HourRangeMember(ParseHourTuple(first).value + 1, now, h);
  }
}
