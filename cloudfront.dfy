/**
 * The CloudFront catalogs. The raw catalog describes the access logs as
 * CloudFront writes them: tab-separated files with two header lines, all
 * under one prefix. The converted catalog describes the Parquet copy,
 * partitioned by hour in the hive layout. Each catalog names its
 * partitioner, its columns, the location of a partition and its timestamp
 * column; the conversion merges each record's `date` and `time` fields.
 */
module CloudFront {
  import opened Outcomes
  import opened Calendar
  import opened BasePartitioner
  import DatetimePartitioner

  datatype Catalog = RawCatalog(s3Location: string) | ConvertedCatalog(s3Location: string)

  /** The partitioner a catalog lays its partitions out with. */
  datatype CatalogPartitioner =
    | NullPartitioner(location: string, hive: bool)                // no partition keys
    | HourlyPartitioner(hourly: DatetimePartitioner.Partitioner)  // `year, month, day, hour`

  function LocationOf(cp: CatalogPartitioner): string {
    match cp
    case NullPartitioner(location, _) => location
    case HourlyPartitioner(p) => p.s3Location
  }

  function HiveOf(cp: CatalogPartitioner): bool {
    match cp
    case NullPartitioner(_, hive) => hive
    case HourlyPartitioner(p) => p.hiveCompatible
  }

  function KeyNamesOf(cp: CatalogPartitioner): seq<string> {
    match cp
    case NullPartitioner(_, _) => []
    case HourlyPartitioner(_) => ColumnNames(DatetimePartitioner.PartitionKeys())
  }

  /** Partition values the partitioner can lay out: in the hive layout, one per partition key. */
  predicate FitsLayout(cp: CatalogPartitioner, values: seq<string>) {
    HiveOf(cp) && values != [] ==> |values| == |KeyNamesOf(cp)|
  }

  /** `partitioner.build_partitioned_path(values)`. */
  function PartitionerPath(cp: CatalogPartitioner, values: seq<string>): string
    requires FitsLayout(cp, values)
  {
    BuildPartitionedPath(LocationOf(cp), HiveOf(cp), KeyNamesOf(cp), values)
  }

  /**
   * `get_partitioner()`: the raw catalog uses a partitioner without keys in
   * the plain layout, the converted one the hourly partitioner in the hive
   * layout; both sit on the catalog's own location.
   */
  function GetPartitioner(c: Catalog): (cp: CatalogPartitioner)
    ensures LocationOf(cp) == c.s3Location
    ensures cp.NullPartitioner? <==> c.RawCatalog?
    ensures HiveOf(cp) <==> c.ConvertedCatalog?
  {
    match c
    case RawCatalog(location) => NullPartitioner(location, false)
    case ConvertedCatalog(location) => HourlyPartitioner(DatetimePartitioner.Partitioner(location, true))
  }

  /** The converted catalog's partitioner builds the same paths as the hourly partitioner it is. */
  lemma ConvertedPartitionerPath(location: string, values: seq<string>)
    requires values != [] ==> |values| == 4
    ensures var cp := GetPartitioner(ConvertedCatalog(location));
      && FitsLayout(cp, values)
      && PartitionerPath(cp, values) == DatetimePartitioner.PartitionedPath(DatetimePartitioner.Partitioner(location, true), values)
  {
    DatetimePartitioner.KeyNamesOfPartitionKeys();
  }

  /** The raw catalog's partitioner appends the values as bare segments, so no values give the base location. */
  lemma RawPartitionerPath(location: string, values: seq<string>)
    ensures var cp := GetPartitioner(RawCatalog(location));
      && FitsLayout(cp, values)
      && PartitionerPath(cp, values) == location + JoinSegments(values)
  {
    var segments := PathSegments(false, [], values);
    assert forall i | 0 <= i < |values| :: segments[i] == values[i];
    assert segments == values;
  }

  /** Values without slashes are read back from the path either catalog's partitioner builds for them. */
  lemma PartitionerPathRoundTrip(c: Catalog, values: seq<string>)
    requires FitsLayout(GetPartitioner(c), values)
    requires forall i | 0 <= i < |values| :: NoSlash(values[i])
    ensures var cp := GetPartitioner(c);
      ParsePartitionedPath(c.s3Location, HiveOf(cp), PartitionerPath(cp, values)) == Some(values)
  {
    var cp := GetPartitioner(c);
    var keys := KeyNamesOf(cp);
    if c.ConvertedCatalog? {
      DatetimePartitioner.KeyNamesFitSegments();
    }
    ParseOfBuildPartitionedPath(c.s3Location, HiveOf(cp), keys, values);
  }

  // The columns.

  /** The columns both catalogs share, from `location` on, in log-line order. */
  function SharedColumns(): seq<Column> {
    [Column("location", "string"), Column("bytes", "bigint"), Column("requestip", "string"),
     Column("method", "string"), Column("host", "string"), Column("uri", "string"),
     Column("status", "int"), Column("referrer", "string"), Column("useragent", "string"),
     Column("querystring", "string"), Column("cookie", "string"), Column("resulttype", "string"),
     Column("requestid", "string"), Column("hostheader", "string"), Column("requestprotocol", "string"),
     Column("requestbytes", "bigint"), Column("timetaken", "double"), Column("xforwardedfor", "string"),
     Column("sslprotocol", "string"), Column("sslcipher", "string"), Column("responseresulttype", "string"),
     Column("httpversion", "string")]
  }

  /** The raw catalog's columns, one per field of a CloudFront access log line, in file order. */
  function RawColumns(): seq<Column> {
    [Column("date", "string"), Column("time", "string")] + SharedColumns()
  }

  /** The converted catalog's columns. */
  function ConvertedColumns(): seq<Column> {
    [Column("time", "timestamp")] + SharedColumns()
  }

  /**
   * What the conversion does to a schema: the `date` column goes, merged
   * into `time`, which becomes a timestamp; every other column stays, in
   * its place.
   */
  function ConvertColumns(columns: seq<Column>): (converted: seq<Column>)
    ensures |converted| <= |columns|
  {
    if columns == [] then []
    else
      var c := columns[0];
      (if c.name == "date" then [] else if c.name == "time" then [Column("time", "timestamp")] else [c])
      + ConvertColumns(columns[1..])
  }

  /** The conversion leaves no `date` column. */
  lemma {:induction false} ConvertColumnsDropsDate(columns: seq<Column>)
    ensures forall i | 0 <= i < |ConvertColumns(columns)| :: ConvertColumns(columns)[i].name != "date"
    decreases |columns|
  {
    if columns != [] {
      var c := columns[0];
      var head := if c.name == "date" then [] else if c.name == "time" then [Column("time", "timestamp")] else [c];
      var tail := ConvertColumns(columns[1..]);
      ConvertColumnsDropsDate(columns[1..]);
      assert ConvertColumns(columns) == head + tail;
      assert forall i | 0 <= i < |head| :: head[i].name != "date";
    }
  }

  lemma {:induction false} ConvertColumnsAppend(a: seq<Column>, b: seq<Column>)
    ensures ConvertColumns(a + b) == ConvertColumns(a) + ConvertColumns(b)
    decreases |a|
  {
    if a != [] {
      assert (a + b)[0] == a[0] && (a + b)[1..] == a[1..] + b;
      ConvertColumnsAppend(a[1..], b);
    } else {
      assert a + b == b;
    }
  }

  /** Columns other than `date` and `time` pass through the conversion unchanged. */
  lemma {:induction false} ConvertColumnsKeeps(columns: seq<Column>)
    requires forall i | 0 <= i < |columns| :: columns[i].name != "date" && columns[i].name != "time"
    ensures ConvertColumns(columns) == columns
    decreases |columns|
  {
    if columns != [] {
      assert columns[0].name != "date" && columns[0].name != "time";
      ConvertColumnsKeeps(columns[1..]);
      assert [columns[0]] + columns[1..] == columns;
    }
  }

  /** No shared column is `date` or `time`. */
  lemma SharedColumnsNames()
    ensures forall i | 0 <= i < |SharedColumns()| :: SharedColumns()[i].name != "date" && SharedColumns()[i].name != "time"
  {
  }

  /** A `date` column followed by a `time` column become one timestamp column `time`. */
  lemma ConvertDateTime(date: Column, time: Column, rest: seq<Column>)
    requires date.name == "date" && time.name == "time"
    ensures ConvertColumns([date, time] + rest) == [Column("time", "timestamp")] + ConvertColumns(rest)
  {
    var columns := [date, time] + rest;
    assert columns[0] == date && columns[1..] == [time] + rest;
    assert ([time] + rest)[0] == time && ([time] + rest)[1..] == rest;
  }

  /** The converted catalog's columns are the raw catalog's, converted. */
  lemma ConvertedColumnsOfRaw()
    ensures ConvertedColumns() == ConvertColumns(RawColumns())
  {
    var shared := SharedColumns();
    SharedColumnsNames();
    ConvertColumnsKeeps(shared);
    ConvertDateTime(Column("date", "string"), Column("time", "string"), shared);
  }

  function CatalogColumns(c: Catalog): seq<Column> {
    if c.RawCatalog? then RawColumns() else ConvertedColumns()
  }

  // The storage descriptor.

  /** The parts of a table's or partition's storage descriptor the model keeps. */
  datatype StorageDescriptor = StorageDescriptor(columns: seq<Column>, location: string)

  /** What a missing list of partition values stands for: no values. */
  function ValuesOrNone(partitionValues: Option<seq<string>>): seq<string> {
    if partitionValues.Some? then partitionValues.value else []
  }

  /**
   * `_build_storage_descriptor(partition_values)`: the catalog's columns,
   * and the location its partitioner builds for the values, the catalog's
   * own location when there are none.
   */
  function BuildStorageDescriptor(c: Catalog, partitionValues: Option<seq<string>>): (d: StorageDescriptor)
    requires FitsLayout(GetPartitioner(c), ValuesOrNone(partitionValues))
    ensures |c.s3Location| <= |d.location| && d.location[..|c.s3Location|] == c.s3Location
    ensures ValuesOrNone(partitionValues) == [] ==> d.location == c.s3Location
    ensures ValuesOrNone(partitionValues) != [] ==> |c.s3Location| < |d.location| && d.location[|c.s3Location|] == '/'
  {
    StorageDescriptor(CatalogColumns(c), PartitionerPath(GetPartitioner(c), ValuesOrNone(partitionValues)))
  }

  /** Leaving out the partition values is the same as giving none. */
  lemma StorageDescriptorDefault(c: Catalog)
    ensures FitsLayout(GetPartitioner(c), []) && BuildStorageDescriptor(c, None) == BuildStorageDescriptor(c, Some([]))
  {
  }

  /** The descriptor's location names exactly the partition it describes. */
  lemma StorageDescriptorLocation(c: Catalog, values: seq<string>)
    requires FitsLayout(GetPartitioner(c), values)
    requires forall i | 0 <= i < |values| :: NoSlash(values[i])
    ensures ParsePartitionedPath(c.s3Location, c.ConvertedCatalog?, BuildStorageDescriptor(c, Some(values)).location) == Some(values)
  {
    PartitionerPathRoundTrip(c, values);
  }

  /** The converted catalog's descriptor for hour 23 of 2017-12-25 points at that hour's hive path. */
  lemma ConvertedStorageDescriptorExample(location: string)
    ensures FitsLayout(GetPartitioner(ConvertedCatalog(location)), ["2017", "12", "25", "23"])
    ensures BuildStorageDescriptor(ConvertedCatalog(location), Some(["2017", "12", "25", "23"])).location
         == location + "/year=" + "2017" + "/month=" + "12" + "/day=" + "25" + "/hour=" + "23"
  {
    var values := ["2017", "12", "25", "23"];
    ConvertedPartitionerPath(location, values);
    DatetimePartitioner.PartitionedPathLayout(DatetimePartitioner.Partitioner(location, true), values);
  }

  /** Each catalog's descriptor lists that catalog's columns. */
  lemma StorageDescriptorColumns(c: Catalog, partitionValues: Option<seq<string>>)
    requires FitsLayout(GetPartitioner(c), ValuesOrNone(partitionValues))
    ensures var d := BuildStorageDescriptor(c, partitionValues);
      && (c.RawCatalog? ==> |d.columns| == 24 && d.columns[0] == Column("date", "string"))
      && (c.ConvertedCatalog? ==> d.columns == ConvertColumns(RawColumns()))
  {
    ConvertedColumnsOfRaw();
  }

  // Table settings.

  /** `timestamp_field()`: the column holding each record's time, a timestamp once converted. */
  function TimestampField(c: Catalog): (field: string)
    ensures field == "time"
    ensures field in ColumnNames(CatalogColumns(c))
    ensures c.RawCatalog? ==> Column(field, "string") in CatalogColumns(c)
    ensures c.ConvertedCatalog? ==> Column(field, "timestamp") in CatalogColumns(c)
  {
    assert CatalogColumns(c)[if c.RawCatalog? then 1 else 0].name == "time";
    "time"
  }

  /** The header lines at the top of every CloudFront access log file: the version and the field list. */
  const HeaderLines: nat := 2

  const SkipHeaderLineCount: string := "skip.header.line.count"

  /** The raw catalog's `_table_parameters()`: readers skip the files' header lines. */
  function RawTableParameters(): (parameters: map<string, string>)
    ensures parameters.Keys == {SkipHeaderLineCount}
    ensures IsDigitString(parameters[SkipHeaderLineCount]) && DigitsValue(parameters[SkipHeaderLineCount]) == HeaderLines
    ensures |parameters[SkipHeaderLineCount]| == 1
  {
    var count := "2";
    assert count[..|count| - 1] == "";
    map[SkipHeaderLineCount := count]
  }

  // The conversion of one record.

  /**
   * What `combine_datetime` leaves of a record: `time` holds the `date`,
   * a space and the old `time`; `date` is gone; every other field is as it
   * was. A record without `date`, or else without `time`, raises a
   * `KeyError` naming that field and is not changed.
   */
  function CombineFields(fields: map<string, string>): (r: Result<map<string, string>, string>)
    ensures r.Failure? <==> "date" !in fields || "time" !in fields
    ensures r.Failure? ==> r.error == if "date" !in fields then "date" else "time"
    ensures r.Success? ==>
      && r.value.Keys == fields.Keys - {"date"}
      && r.value["time"] == fields["date"] + " " + fields["time"]
      && forall k | k in fields && k != "date" && k != "time" :: r.value[k] == fields[k]
  {
    if "date" !in fields then Failure("date")
    else if "time" !in fields then Failure("time")
    else Success(fields["time" := fields["date"] + " " + fields["time"]] - {"date"})
  }

  function NameSet(columns: seq<Column>): set<string> {
    set i | 0 <= i < |columns| :: columns[i].name
  }

  lemma NameSetAppend(a: seq<Column>, b: seq<Column>)
    ensures NameSet(a + b) == NameSet(a) + NameSet(b)
  {
    var ab := a + b;
    forall n | n in NameSet(a + b) ensures n in NameSet(a) + NameSet(b) {
      var i :| 0 <= i < |ab| && ab[i].name == n;
      if i >= |a| {
        assert b[i - |a|].name == n;
      }
    }
    forall n | n in NameSet(a) + NameSet(b) ensures n in NameSet(a + b) {
      if n in NameSet(a) {
        var i :| 0 <= i < |a| && a[i].name == n;
        assert ab[i].name == n;
      } else {
        var i :| 0 <= i < |b| && b[i].name == n;
        assert ab[|a| + i].name == n;
      }
    }
  }

  /** A record with the raw catalog's fields becomes one with the converted catalog's fields. */
  lemma CombineFieldsSchema(fields: map<string, string>)
    requires fields.Keys == NameSet(RawColumns())
    ensures CombineFields(fields).Success? && CombineFields(fields).value.Keys == NameSet(ConvertedColumns())
  {
    var shared := SharedColumns();
    NameSetAppend([Column("date", "string"), Column("time", "string")], shared);
    NameSetAppend([Column("time", "timestamp")], shared);
    assert NameSet([Column("date", "string"), Column("time", "string")]) == {"date", "time"} by {
      var two := [Column("date", "string"), Column("time", "string")];
      assert two[0].name == "date" && two[1].name == "time";
    }
    assert NameSet([Column("time", "timestamp")]) == {"time"} by {
      assert [Column("time", "timestamp")][0].name == "time";
    }
    SharedColumnsNames();
    assert "date" !in NameSet(shared);
  }

  /**
   * After the conversion, each record's timestamp field holds the combined
   * date and time, for either catalog.
   */
  lemma TimestampFieldCombined(c: Catalog, fields: map<string, string>)
    requires "date" in fields && "time" in fields
    ensures var r := CombineFields(fields);
      && r.Success? && TimestampField(c) in r.value
      && r.value[TimestampField(c)] == fields["date"] + " " + fields["time"]
  {
  }

  /** A log record as the conversion sees it, changed in place. */
  class Record {
    var fields: map<string, string>

    constructor (fields: map<string, string>)
      ensures this.fields == fields
    {
      this.fields := fields;
    }

    /**
     * `combine_datetime(record)`: merges the record's `date` into its `time`
     * and drops `date`; returns the missing field's name, and changes
     * nothing, when the record lacks `date` or `time`.
     */
    method CombineDatetime() returns (missing: Option<string>)
      modifies this
      ensures CombineFields(old(fields)).Success? ==> missing.None? && fields == CombineFields(old(fields)).value
      ensures CombineFields(old(fields)).Failure? ==>
        missing == Some(CombineFields(old(fields)).error) && fields == old(fields)
    {
      if "date" !in fields {
        return Some("date");
      }
      if "time" !in fields {
        return Some("time");
      }
      fields := fields["time" := fields["date"] + " " + fields["time"]];
      fields := fields - {"date"};
      missing := None;
    }
  }
}
