# CloudFront catalogs and the hourly partitioner, in Dafny

This project models the part of `athena-glue-service-logs` that decides which
hourly partitions a CloudFront log table has. It covers three pieces.

- **The `DateTimePartitioner`.** It lays partitions out by hour, as
  `YYYY/MM/DD/HH` or, in the hive layout, `year=YYYY/month=MM/day=DD/hour=HH`.
  It lists every hour since the earliest partition in S3
  (`build_partitions_from_s3`). Going back at most `MAX_RECENT_HOURS` = 72
  hours, it finds the recent hours that hold objects and come after the
  catalog's last partition (`find_recent_partitions`).
- **The base-partitioner helpers it inherits.** `build_partitioned_path` joins
  the values under the location, plainly or as `key=value` segments. The other
  helper lists the hours after a given partition.
- **The two CloudFront catalogs.** Each has its partitioner, its columns, its
  storage-descriptor location and its timestamp field. The raw catalog also has
  its table parameters. The `combine_datetime` record conversion merges `date`
  into `time`.

Some modelling choices:

- Time is an hour index counted from 0001-01-01 00:00. The module `Calendar`
  converts it to a calendar date-hour (proleptic Gregorian) and to the
  zero-padded `['YYYY', 'MM', 'DD', 'HH']` tuple, and back.
- The current hour `now` is a parameter.
- The object store is a value holding three functions: "does this prefix hold
  objects" and the two "earliest partition under this location" lookups. Each
  call of an operation sees one fixed store.
- Python's `OverflowError`, raised when the scan steps before year 1, becomes
  `Failure(DateOutOfRange)`. The parse failure of a malformed first partition
  becomes `Failure(MalformedPartition(values))`.

Modules:

- `Outcomes`: `Option` and `Result`.
- `Calendar`: hour index, date-hour and hour tuple.
- `BasePartitioner`: partition paths and the hours since a partition.
- `DatetimePartitioner`: partition keys, `find_recent_partitions` and
  `build_partitions_from_s3`.
- `CloudFront`: the two catalogs and `combine_datetime`.

`find_recent_partitions` and `build_partitions_from_s3` are methods with the
source's loop and branches. Each is proved equal to a specification function,
and the lemmas are about those functions. `combine_datetime` mutates its record
in place, so it is a method of the class `Record`, which holds a map field.

## Model

| member | source | states |
|---|---|---|
| Calendar.HourOfCivil | athena_glue_service_logs/partitioners/datetime_partitioner.py:60 | every representable date-hour has an hour index inside `datetime`'s range |
| Calendar.CivilOfHourCorrect | athena_glue_service_logs/partitioners/datetime_partitioner.py:60 | every hour index in range becomes a valid calendar date-hour that maps back to the same index |
| Calendar.CivilOfHourOfCivil | athena_glue_service_logs/partitioners/datetime_partitioner.py:60 | every valid date-hour comes back unchanged from its hour index |
| Calendar.PadDigits | athena_glue_service_logs/partitioners/datetime_partitioner.py:61 | a zero-padded field has exactly the requested width and only digits |
| Calendar.DigitsValueOfPad | athena_glue_service_logs/partitioners/datetime_partitioner.py:61 | reading a zero-padded field back gives the number that was padded |
| Calendar.PadOfDigitsValue | athena_glue_service_logs/partitioners/datetime_partitioner.py:61 | every digit string is the zero-padding of its own value to its own width |
| Calendar.HourTuple | athena_glue_service_logs/partitioners/datetime_partitioner.py:61 | the `%Y-%m-%d-%H` tuple of an hour has four fields of widths 4, 2, 2, 2, all digits |
| Calendar.ParseHourTuple | test/partitioners/test_base_partitioner.py:36-39 | a tuple that parses names an hour inside `datetime`'s range |
| Calendar.ParseOfHourTuple | athena_glue_service_logs/partitioners/datetime_partitioner.py:61 | parsing the tuple of an hour gives back that hour |
| Calendar.HourTupleOfParse | test/partitioners/test_base_partitioner.py:36-39 | every tuple that parses is the formatted tuple of the hour it names |
| Calendar.HourTupleInjective | athena_glue_service_logs/partitioners/datetime_partitioner.py:62 | different hours have different tuples, so comparing tuples compares hours |
| BasePartitioner.PathSegments | test/partitioners/test_base_partitioner.py:51-63 | one path segment per partition value |
| BasePartitioner.PathSegmentsLayout | test/partitioners/test_base_partitioner.py:51-63 | in the hive layout the i-th segment is `keyNames[i]=values[i]`; in the plain layout the segments are the values themselves |
| BasePartitioner.BuildPartitionedPath | test/partitioners/test_base_partitioner.py:43-48 | no values give the base location; otherwise the path starts with the location followed by `/` |
| BasePartitioner.PlainPathOfThree | test/partitioners/test_base_partitioner.py:43-48 | three values in the plain layout give `loc/v1/v2/v3` |
| BasePartitioner.HivePathOfTwo | test/partitioners/test_base_partitioner.py:51-63 | two values in the hive layout give `loc/k1=v1/k2=v2` |
| BasePartitioner.ParseEntriesOfBuildPartitionedPath | test/partitioners/test_base_partitioner.py:51-63 | reading a built path back gives each value paired with the key that names it, in order: the i-th value with the i-th key in the hive layout, with no key in the plain one |
| BasePartitioner.ParseOfBuildPartitionedPath | test/partitioners/test_base_partitioner.py:51-63 | for values without `/` (and key names without `/` or `=`), reading the built path back gives the values, in both layouts |
| BasePartitioner.BuildPartitionedPathInjective | athena_glue_service_logs/partitioners/datetime_partitioner.py:63 | different partition values are built into different paths |
| BasePartitioner.HourRange | test/partitioners/test_base_partitioner.py:31-40 | the tuples of the hours `lo..hi`, one per hour, in increasing order |
| BasePartitioner.HourRangeParses | test/partitioners/test_base_partitioner.py:36-40 | the i-th tuple of a range parses to hour `lo + i` |
| BasePartitioner.HourRangeMember | test/partitioners/test_base_partitioner.py:36-40 | an hour's tuple is in the range exactly when the hour lies between its bounds |
| BasePartitioner.DatetimeValuesSince | test/partitioners/test_base_partitioner.py:31-40 | fails, with the malformed values, exactly when the tuple does not parse; otherwise lists the `now - h0` hours after `h0`, the i-th being `h0 + 1 + i` |
| BasePartitioner.DatetimeValuesSinceParses | test/partitioners/test_base_partitioner.py:36-39 | every listed tuple parses, to the hour after the previous one |
| BasePartitioner.DatetimeValuesSinceMembers | test/partitioners/test_base_partitioner.py:36-40 | an hour is listed exactly when it is after the given tuple's hour and no later than `now` |
| DatetimePartitioner.MaxRecentHours | athena_glue_service_logs/partitioners/datetime_partitioner.py:24 | a scan for recent partitions looks at 72 hours, counting the current one |
| DatetimePartitioner.PartitionKeys | athena_glue_service_logs/partitioners/datetime_partitioner.py:42-48 | four keys, `year`, `month`, `day`, `hour` in that order, all of type `string` |
| DatetimePartitioner.KeyNamesOfPartitionKeys | test/partitioners/test_datetime_partitioner.py:107-111 | the key names are `["year", "month", "day", "hour"]` |
| DatetimePartitioner.PartitionedPath | athena_glue_service_logs/partitioners/datetime_partitioner.py:63 | the partitioner's `build_partitioned_path`: the base path builder with the four partition key names and the partitioner's layout |
| DatetimePartitioner.HourPath | athena_glue_service_logs/partitioners/datetime_partitioner.py:63 | the prefix probed for an hour: the partitioned path of the hour's tuple |
| DatetimePartitioner.PartitionedPathLayout | test/partitioners/test_datetime_partitioner.py:100-104 | four values give `loc/Y/M/D/H`, or `loc/year=Y/month=M/day=D/hour=H` in the hive layout |
| DatetimePartitioner.HourPathInjective | athena_glue_service_logs/partitioners/datetime_partitioner.py:63 | different hours are probed at different paths |
| DatetimePartitioner.HourTupleHasNoSlash | athena_glue_service_logs/partitioners/datetime_partitioner.py:61-63 | no field of an hour tuple contains `/`, so each value is one path segment |
| DatetimePartitioner.SentinelHour | athena_glue_service_logs/partitioners/datetime_partitioner.py:62 | an empty catalog has no last partition; a last partition that parses names a representable hour |
| DatetimePartitioner.SentinelHourIs | athena_glue_service_logs/partitioners/datetime_partitioner.py:62 | the last partition's hour is `h` exactly when the catalog's last partition equals the tuple of `h` |
| DatetimePartitioner.ScanHours | athena_glue_service_logs/partitioners/datetime_partitioner.py:59-67 | the scan fails only with `DateOutOfRange`; it lists at most the remaining passes' hours, all inside the 72-hour window |
| DatetimePartitioner.StopStep | athena_glue_service_logs/partitioners/datetime_partitioner.py:59-66 | the scan ends at the first pass whose hour is the catalog's last partition, or after the 72 passes; no earlier hour was the last partition |
| DatetimePartitioner.ScanHoursFailure | athena_glue_service_logs/partitioners/datetime_partitioner.py:60 | a scan fails exactly when it must step before hour 0 ahead of its stop |
| DatetimePartitioner.ScanHoursDecreasing | athena_glue_service_logs/partitioners/datetime_partitioner.py:56-67 | the listed hours strictly decrease |
| DatetimePartitioner.ScanHoursMembers | athena_glue_service_logs/partitioners/datetime_partitioner.py:62-64 | an hour is listed exactly when the scan examined it and it is present |
| DatetimePartitioner.ScanHoursProbesOnlyExamined | athena_glue_service_logs/partitioners/datetime_partitioner.py:63 | two stores that agree on the examined hours give the same scan |
| DatetimePartitioner.RecentHours | athena_glue_service_logs/partitioners/datetime_partitioner.py:59 | at most 72 hours, each representable and within the 72 hours ending at `now` |
| DatetimePartitioner.RecentStep | athena_glue_service_logs/partitioners/datetime_partitioner.py:62-66 | pass `n` in the partitioner's terms: it ends at the last partition; it keeps the hour when its path holds objects; otherwise it skips the hour |
| DatetimePartitioner.RecentPartitions | athena_glue_service_logs/partitioners/datetime_partitioner.py:50-69 | the specification of `find_recent_partitions`: the tuples of the hours the scan lists; its properties are the lemmas below |
| DatetimePartitioner.RecentFrom | athena_glue_service_logs/partitioners/datetime_partitioner.py:59-67 | the loop from a given pass: break at the catalog's last partition, fail before the first representable hour, keep an hour whose path holds objects |
| DatetimePartitioner.RecentFromAtLast | athena_glue_service_logs/partitioners/datetime_partitioner.py:65-66 | a loop reaching the catalog's last partition returns what it has found, as the scan does |
| DatetimePartitioner.RecentFromPass | athena_glue_service_logs/partitioners/datetime_partitioner.py:62-67 | a pass that does not break keeps the loop's result equal to the tuples found ahead of the scan from that pass |
| DatetimePartitioner.RecentFromScan | athena_glue_service_logs/partitioners/datetime_partitioner.py:59-69 | the loop from any pass returns the tuples found so far ahead of the scan from that pass |
| DatetimePartitioner.RecentLoopMatches | athena_glue_service_logs/partitioners/datetime_partitioner.py:50-69 | the loop run from `now` with 72 passes and nothing found returns the recent partitions |
| DatetimePartitioner.FindRecentPartitions | athena_glue_service_logs/partitioners/datetime_partitioner.py:50-69 | the loop returns exactly the recent partitions the scan defines |
| DatetimePartitioner.RecentPartitionsFailure | athena_glue_service_logs/partitioners/datetime_partitioner.py:60 | the result is an error, `DateOutOfRange`, exactly when the scan must step before the first representable hour |
| DatetimePartitioner.RecentPartitionsNewestFirst | athena_glue_service_logs/partitioners/datetime_partitioner.py:56-67 | the result is the tuples of strictly decreasing hours, each examined and with objects under its path |
| DatetimePartitioner.RecentPartitionsMembers | athena_glue_service_logs/partitioners/datetime_partitioner.py:62-64 | an hour's tuple is listed exactly when the scan examined the hour and its path holds objects |
| DatetimePartitioner.RecentPartitionsDistinct | athena_glue_service_logs/partitioners/datetime_partitioner.py:62-64 | no tuple is listed twice |
| DatetimePartitioner.RecentPartitionsExcludeLast | athena_glue_service_logs/partitioners/datetime_partitioner.py:62-66 | the catalog's last partition is never listed again |
| DatetimePartitioner.RecentStopAtSentinel | athena_glue_service_logs/partitioners/datetime_partitioner.py:65-66 | a last partition `k` hours back, within the window, ends the scan at pass `k` |
| DatetimePartitioner.RecentStopWithoutSentinel | athena_glue_service_logs/partitioners/datetime_partitioner.py:59 | a last partition outside the window lets the scan run all 72 passes |
| DatetimePartitioner.RecentPartitionsStopAtSentinel | athena_glue_service_logs/partitioners/datetime_partitioner.py:62-66 | with the last partition `k` hours back, the scan succeeds and lists exactly the newer hours whose paths hold objects |
| DatetimePartitioner.RecentPartitionsEmptyCatalog | test/partitioners/test_datetime_partitioner.py:127-146 | with an empty catalog it fails only when fewer than 72 hours exist, and otherwise lists exactly the window's hours with objects; empty hours do not end the scan |
| DatetimePartitioner.RecentPartitionsLastOnly | athena_glue_service_logs/partitioners/datetime_partitioner.py:62 | only the catalog's last partition affects the result |
| DatetimePartitioner.RecentPartitionsProbesOnlyExamined | athena_glue_service_logs/partitioners/datetime_partitioner.py:63 | only the paths of the examined hours are probed: stores agreeing on them give the same result |
| DatetimePartitioner.RecentPartitionsAfterLastHour | test/partitioners/test_datetime_partitioner.py:114-124 | with the previous hour as the last partition and objects this hour, the result is the current hour alone |
| DatetimePartitioner.ScanHoursNewestOne | test/partitioners/test_datetime_partitioner.py:114-124 | a scan that keeps `now` and stops at `now - 1` lists `[now]` |
| DatetimePartitioner.ScanHoursNonePresent | test/partitioners/test_datetime_partitioner.py:138 | a scan over hours, none of them present, lists nothing |
| DatetimePartitioner.ScanHoursNewestTwo | test/partitioners/test_datetime_partitioner.py:127-146 | a scan present at exactly the two newest hours lists `[now, now - 1]` |
| DatetimePartitioner.RecentPartitionsTwoHours | test/partitioners/test_datetime_partitioner.py:127-146 | with an empty catalog and objects in the two newest hours only, the result is those two tuples, newest first |
| DatetimePartitioner.FirstPartition | athena_glue_service_logs/partitioners/datetime_partitioner.py:32-36 | the earliest partition in the store, read in the hive layout with the partition key names or in the plain layout |
| DatetimePartitioner.PartitionsSince | athena_glue_service_logs/partitioners/datetime_partitioner.py:37-38 | fails, with the malformed values, exactly when the first partition does not parse; otherwise it starts with the first partition |
| DatetimePartitioner.PartitionsSinceRange | athena_glue_service_logs/partitioners/datetime_partitioner.py:37-38 | the result is the tuples of every hour from the first partition's through `now`, oldest first |
| DatetimePartitioner.PartitionsSinceLast | test/partitioners/test_datetime_partitioner.py:87-97 | unless the first partition is after `now`, the last tuple is the current hour's |
| DatetimePartitioner.BuildPartitionsFromS3 | athena_glue_service_logs/partitioners/datetime_partitioner.py:26-40 | reads the earliest partition in the right layout, then returns it followed by every later hour through `now` |
| CloudFront.GetPartitioner | athena_glue_service_logs/cloudfront.py:40-41 | the partitioner has the catalog's location; raw gets the non-hive null partitioner; converted gets the hive hourly partitioner |
| CloudFront.ConvertedPartitionerPath | athena_glue_service_logs/cloudfront.py:98-99 | the converted catalog builds paths as a hive-layout hourly partitioner |
| CloudFront.RawPartitionerPath | test/test_cloudfront.py:38-43 | the raw catalog builds paths as plain segments under its location, and the location itself for no values |
| CloudFront.PartitionerPath | athena_glue_service_logs/cloudfront.py:73 | the path the catalog's partitioner builds for the values, under the catalog's location and in its layout |
| CloudFront.PartitionerPathRoundTrip | athena_glue_service_logs/cloudfront.py:73 | for either catalog, reading a built path back gives the values |
| CloudFront.SharedColumns | athena_glue_service_logs/cloudfront.py:105-128 | the 22 columns from `location` to `httpversion`, with their types, in log-line order |
| CloudFront.RawColumns | athena_glue_service_logs/cloudfront.py:47-71 | `date` and `time` strings followed by the shared columns |
| CloudFront.ConvertedColumns | athena_glue_service_logs/cloudfront.py:105-128 | a `time` timestamp followed by the shared columns |
| CloudFront.ConvertColumns | athena_glue_service_logs/cloudfront.py:144-148 | a converted schema is never longer than the original |
| CloudFront.ConvertColumnsDropsDate | athena_glue_service_logs/cloudfront.py:147 | no `date` column survives the conversion |
| CloudFront.ConvertColumnsAppend | athena_glue_service_logs/cloudfront.py:144-148 | converting a schema converts each part on its own |
| CloudFront.ConvertColumnsKeeps | athena_glue_service_logs/cloudfront.py:144-148 | columns other than `date` and `time` pass through unchanged, in place |
| CloudFront.ConvertDateTime | athena_glue_service_logs/cloudfront.py:146-147 | a leading `date`, `time` pair becomes one `time` timestamp column |
| CloudFront.ConvertedColumnsOfRaw | athena_glue_service_logs/cloudfront.py:105-128 | the converted catalog's columns are the raw catalog's columns after `combine_datetime` |
| CloudFront.BuildStorageDescriptor | athena_glue_service_logs/cloudfront.py:43-73 | the location starts with the catalog's location; it is exactly that with no values, and followed by `/` otherwise |
| CloudFront.ValuesOrNone | athena_glue_service_logs/cloudfront.py:102-103 | omitted partition values stand for the empty list |
| CloudFront.StorageDescriptorDefault | athena_glue_service_logs/cloudfront.py:101-103 | omitted partition values act as an empty list |
| CloudFront.StorageDescriptorLocation | athena_glue_service_logs/cloudfront.py:130 | the descriptor's location reads back as the partition values, in the catalog's layout |
| CloudFront.ConvertedStorageDescriptorExample | test/test_cloudfront.py:56-63 | `['2017','12','25','23']` puts the converted table at `loc/year=2017/month=12/day=25/hour=23` |
| CloudFront.StorageDescriptorColumns | athena_glue_service_logs/cloudfront.py:47-72 | raw tables have 24 columns, starting with `date`; converted tables have the raw columns after conversion |
| CloudFront.TimestampField | athena_glue_service_logs/cloudfront.py:37-38 | the timestamp field is `time`, in both catalogs; it is a `string` column of the raw catalog and a `timestamp` column of the converted one |
| CloudFront.TimestampFieldCombined | athena_glue_service_logs/cloudfront.py:95-96 | after the conversion, the timestamp field holds the combined date and time |
| CloudFront.RawTableParameters | athena_glue_service_logs/cloudfront.py:86-89 | the only parameter is `skip.header.line.count`, a one-digit string whose value is the 2 header lines, so it is `"2"` |
| CloudFront.CombineFields | athena_glue_service_logs/cloudfront.py:144-148 | fails, naming `date` first, exactly when `date` or `time` is missing; otherwise `date` is gone, `time` is `date + " " + time`, and the other fields are unchanged |
| CloudFront.CombineFieldsSchema | athena_glue_service_logs/cloudfront.py:144-148 | a record with the raw columns' fields converts to one with the converted columns' fields |
| CloudFront.Record.constructor | athena_glue_service_logs/cloudfront.py:144 | the record holds the given fields |
| CloudFront.Record.CombineDatetime | athena_glue_service_logs/cloudfront.py:144-148 | updates the record to the combined fields, or leaves it unchanged and names the missing key |

## Left out

- The S3 calls (`S3Reader`, its listing and pagination): the object store is a parameter holding three functions. `utils.py` is not part of this model.
- The clock (`time.time()`, `utcfromtimestamp`): the current hour `now` is a parameter.
- `base_partitioner.py` and `null_partitioner.py` are not part of this model. `build_partitioned_path`, `_get_datetime_values_since_initial_time` and the null partitioner are modelled from their callers and tests. The null partitioner has no partition keys.
- BasePartitioner.BuildPartitionedPath: in the hive layout, a non-empty list of values must have one value per partition key. What the source does with other lengths is not modelled.
- BasePartitioner.DatetimeValuesSince: it accepts only canonical tuples, with widths 4, 2, 2, 2 and digits only. Every other tuple is `MalformedPartition`. A date parser such as `strptime` also accepts some unpadded fields.
- Calendar.HourTuple: years below 1000 are zero-padded to four digits. Some platforms' `strftime('%Y')` does not pad them.
- DatetimePartitioner.SentinelHour: the catalog's last partition is compared through the hour it parses to, not as a list of strings. DatetimePartitioner.SentinelHourIs proves the two comparisons agree.
- `catalog_manager.py` is not part of this model, so the following are left out: the rest of the Glue calls (table and partition creation, the paginated `get_partition_values`), the converted catalog's inherited `_table_parameters`, and `_build_table_input`.
- Storage descriptors keep only their columns and location. The input and output formats, the SerDe, `BucketColumns` and `Parameters` are constant strings and are left out.
- `conversion_actions`: the Glue `Map.apply` over a dynamic frame is left out. `combine_datetime` on one record is modelled.
- CloudFront.Record.CombineDatetime: a missing `date` or `time` raises `KeyError` in the source. Here it returns the missing key and leaves the record unchanged, which is what the exception does before any assignment.
- The source writes out both column lists in full. Here they share their 22-column tail, `SharedColumns`.
- Logging.
