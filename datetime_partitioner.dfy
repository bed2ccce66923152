/**
 * `DateTimePartitioner`: partitions laid out by hour as `YYYY/MM/DD/HH`
 * (or `year=YYYY/month=MM/day=DD/hour=HH` in the hive layout). It lists the
 * hourly partitions since the earliest one in the object store, and finds
 * the recent hours that hold objects but are not yet in the catalog.
 *
 * Time is an hour index (see `Calendar`); the current hour `now` is a
 * parameter. The object store is a value of functions, so the answers it
 * gives are fixed for the duration of one call.
 */
module DatetimePartitioner {
  import opened Outcomes
  import opened Calendar
  import opened BasePartitioner

  /** How many hours, counting the current one, a scan for recent partitions looks at. */
  const MaxRecentHours: nat := 72

  /** A partitioner over one object-store location. */
  datatype Partitioner = Partitioner(s3Location: string, hiveCompatible: bool)

  /**
   * What the partitioner asks of the object store: whether a prefix holds
   * objects, and the earliest hour tuple present under a location, read in
   * the hive layout (given the key names) or the plain one.
   */
  datatype ObjectStore = ObjectStore(
    hasObjects: string -> bool,
    firstHiveDatetime: (string, seq<string>) -> seq<string>,
    firstDatetime: string -> seq<string>)

  /** `partition_keys()`: the fixed, ordered schema of the partition keys. */
  function PartitionKeys(): (keys: seq<Column>)
    ensures |keys| == 4
    ensures keys[0].name == "year" && keys[1].name == "month" && keys[2].name == "day" && keys[3].name == "hour"
    ensures forall i | 0 <= i < |keys| :: keys[i].columnType == "string"
  {
    [Column("year", "string"), Column("month", "string"),
     Column("day", "string"), Column("hour", "string")]
  }

  /** The key names, in order, are `year, month, day, hour`. */
  lemma KeyNamesOfPartitionKeys()
    ensures ColumnNames(PartitionKeys()) == ["year", "month", "day", "hour"]
  {
    var names := ColumnNames(PartitionKeys());
    assert names[0] == "year" && names[1] == "month" && names[2] == "day" && names[3] == "hour";
  }

  /** `build_partitioned_path(values)` of this partitioner. */
  function PartitionedPath(p: Partitioner, values: seq<string>): (path: string)
    requires p.hiveCompatible && values != [] ==> |values| == 4
  {
    BuildPartitionedPath(p.s3Location, p.hiveCompatible, ColumnNames(PartitionKeys()), values)
  }

  /** The path probed for hour `h`. */
  function HourPath(p: Partitioner, h: int): string
    requires ValidHour(h)
  {
    PartitionedPath(p, HourTuple(h))
  }

  /** Moves the first joined segment onto the prefix. */
  lemma AppendFirstSegment(prefix: string, segments: seq<string>)
    requires segments != []
    ensures prefix + JoinSegments(segments) == prefix + "/" + segments[0] + JoinSegments(segments[1..])
  {
    assert JoinSegments(segments) == "/" + segments[0] + JoinSegments(segments[1..]);
  }

  /** The segments of four values under the four key names. */
  lemma FourSegments(hiveCompatible: bool, values: seq<string>)
    requires |values| == 4
    ensures PathSegments(hiveCompatible, ColumnNames(PartitionKeys()), values) == if hiveCompatible
      then ["year=" + values[0], "month=" + values[1], "day=" + values[2], "hour=" + values[3]]
      else [values[0], values[1], values[2], values[3]]
  {
    KeyNamesOfPartitionKeys();
    assert "year" + "=" == "year=" && "month" + "=" == "month=" && "day" + "=" == "day=" && "hour" + "=" == "hour=";
  }

  /** A four-value path spells out the values in the partitioner's layout. */
  lemma PartitionedPathLayout(p: Partitioner, values: seq<string>)
    requires |values| == 4
    ensures PartitionedPath(p, values) == if p.hiveCompatible
      then p.s3Location + "/year=" + values[0] + "/month=" + values[1] + "/day=" + values[2] + "/hour=" + values[3]
      else p.s3Location + "/" + values[0] + "/" + values[1] + "/" + values[2] + "/" + values[3]
  {
    var segs := PathSegments(p.hiveCompatible, ColumnNames(PartitionKeys()), values);
    FourSegments(p.hiveCompatible, values);
    var s0 := p.s3Location;
    var s1 := s0 + "/" + segs[0];
    var s2 := s1 + "/" + segs[1];
    var s3 := s2 + "/" + segs[2];
    var s4 := s3 + "/" + segs[3];
    AppendFirstSegment(s0, segs);
    assert segs[1..][0] == segs[1] && segs[1..][1..] == segs[2..];
    AppendFirstSegment(s1, segs[1..]);
    assert segs[2..][0] == segs[2] && segs[2..][1..] == segs[3..];
    AppendFirstSegment(s2, segs[2..]);
    assert segs[3..][0] == segs[3] && segs[3..][1..] == [];
    AppendFirstSegment(s3, segs[3..]);
    assert PartitionedPath(p, values) == s4 + "";
    if p.hiveCompatible {
      assert s1 == s0 + "/year=" + values[0];
      assert s2 == s1 + "/month=" + values[1];
      assert s3 == s2 + "/day=" + values[2];
      assert s4 == s3 + "/hour=" + values[3];
    }
  }

  /** Each key name fits in one hive segment: no `/` and no `=`. */
  lemma KeyNamesFitSegments()
    ensures var names := ColumnNames(PartitionKeys());
      forall i | 0 <= i < |names| :: NoSlash(names[i]) && '=' !in names[i]
  {
    KeyNamesOfPartitionKeys();
  }

  /** The path of an hour names that hour and no other. */
  lemma HourPathInjective(p: Partitioner, a: int, b: int)
    requires ValidHour(a) && ValidHour(b) && HourPath(p, a) == HourPath(p, b)
    ensures a == b
  {
    var keys := ColumnNames(PartitionKeys());
    KeyNamesFitSegments();
    HourTupleHasNoSlash(a);
    HourTupleHasNoSlash(b);
    BuildPartitionedPathInjective(p.s3Location, p.hiveCompatible, keys, HourTuple(a), HourTuple(b));
    HourTupleInjective(a, b);
  }

  lemma HourTupleHasNoSlash(h: int)
    requires ValidHour(h)
    ensures forall i | 0 <= i < |HourTuple(h)| :: NoSlash(HourTuple(h)[i])
  {
    var t := HourTuple(h);
    forall i | 0 <= i < 4 ensures NoSlash(t[i]) {
      assert IsDigitString(t[i]);
    }
  }

  // The scan for recent partitions, over hour indices.

  /**
   * The hour the catalog's last partition names, the one the scan stops at;
   * none when the catalog is empty or its last partition is not an hour tuple.
   */
  function SentinelHour(existing: seq<seq<string>>): (s: Option<int>)
    ensures existing == [] ==> s.None?
    ensures s.Some? ==> ValidHour(s.value)
  {
    if existing == [] then None else ParseHourTuple(existing[|existing| - 1])
  }

  /** Hour `h` is the sentinel exactly when the catalog's last partition is the tuple of `h`. */
  lemma SentinelHourIs(existing: seq<seq<string>>, h: int)
    requires ValidHour(h)
    ensures SentinelHour(existing) == Some(h) <==> existing != [] && existing[|existing| - 1] == HourTuple(h)
  {
    ParseOfHourTuple(h);
    if existing != [] && ParseHourTuple(existing[|existing| - 1]).Some? {
      HourTupleOfParse(existing[|existing| - 1]);
    }
  }

  /**
   * The hours a scan starting `step` hours before `now` adds, newest first.
   * It ends after `MaxRecentHours` steps or at the first hour `isStop`
   * holds of, keeps an hour when `present` holds of it, and fails when it
   * would step before the first representable hour.
   */
  function ScanHours(present: int -> bool, isStop: int -> bool, now: int, step: nat): (r: Result<seq<int>, PartitionError>)
    requires step <= MaxRecentHours
    ensures r.Failure? ==> r.error == DateOutOfRange
    ensures r.Success? ==> |r.value| <= MaxRecentHours - step
    ensures r.Success? ==> forall i | 0 <= i < |r.value| :: 0 <= r.value[i] <= now - step && now - MaxRecentHours < r.value[i]
    decreases MaxRecentHours - step
  {
    if step == MaxRecentHours then Success([])
    else if now < step then Failure(DateOutOfRange)
    else if isStop(now - step) then Success([])
    else
      match ScanHours(present, isStop, now, step + 1)
      case Failure(e) => Failure(e)
      case Success(older) => Success(if present(now - step) then [now - step] + older else older)
  }

  /**
   * The step at which a scan from `step` ends: the first one, before the
   * bound, whose hour is representable and satisfies `isStop`, or the bound.
   */
  function StopStep(isStop: int -> bool, now: int, step: nat): (stop: nat)
    requires step <= MaxRecentHours
    ensures step <= stop <= MaxRecentHours
    ensures forall h | now - stop < h <= now - step && 0 <= h :: !isStop(h)
    ensures stop < MaxRecentHours ==> stop <= now && isStop(now - stop)
    decreases MaxRecentHours - step
  {
    if step == MaxRecentHours || (step <= now && isStop(now - step)) then step else StopStep(isStop, now, step + 1)
  }

  predicate StrictlyDecreasing(s: seq<int>) {
    forall i, j | 0 <= i < j < |s| :: s[i] > s[j]
  }

  /** A scan fails exactly when it must step before the first hour ahead of its stop. */
  lemma {:induction false} ScanHoursFailure(present: int -> bool, isStop: int -> bool, now: int, step: nat)
    requires step <= MaxRecentHours
    ensures var stop := StopStep(isStop, now, step);
      ScanHours(present, isStop, now, step).Failure? <==> step < stop && now + 1 < stop
    decreases MaxRecentHours - step
  {
    if step < StopStep(isStop, now, step) && step <= now {
      ScanHoursFailure(present, isStop, now, step + 1);
    }
  }

  /** A scan lists its hours newest first, each strictly older than the one before. */
  lemma {:induction false} ScanHoursDecreasing(present: int -> bool, isStop: int -> bool, now: int, step: nat)
    requires step <= MaxRecentHours
    ensures var r := ScanHours(present, isStop, now, step); r.Success? ==> StrictlyDecreasing(r.value)
    decreases MaxRecentHours - step
  {
    if step < MaxRecentHours && step <= now && !isStop(now - step) {
      var rest := ScanHours(present, isStop, now, step + 1);
      ScanHoursDecreasing(present, isStop, now, step + 1);
      if rest.Success? && present(now - step) {
        ConsDecreasing(now - step, rest.value);
      }
    }
  }

  lemma ConsDecreasing(x: int, s: seq<int>)
    requires StrictlyDecreasing(s) && forall i | 0 <= i < |s| :: s[i] < x
    ensures StrictlyDecreasing([x] + s)
  {
    var t := [x] + s;
    forall i, j | 0 <= i < j < |t| ensures t[i] > t[j] {
      assert t[j] == s[j - 1];
      if i > 0 {
        assert t[i] == s[i - 1];
      }
    }
  }

  /**
   * A scan lists exactly the hours from `now - step` down to just above its
   * stop of which `present` holds: hours without objects do not end it.
   */
  lemma {:induction false} ScanHoursMembers(present: int -> bool, isStop: int -> bool, now: int, step: nat, h: int)
    requires step <= MaxRecentHours
    ensures var r := ScanHours(present, isStop, now, step);
      r.Success? ==> (h in r.value <==> now - StopStep(isStop, now, step) < h <= now - step && present(h))
    decreases MaxRecentHours - step
  {
    var stop := StopStep(isStop, now, step);
    if step < stop && step <= now {
      assert !isStop(now - step);
      assert StopStep(isStop, now, step + 1) == stop;
      ScanHoursMembers(present, isStop, now, step + 1, h);
    }
  }

  /**
   * A scan consults `present` only on the hours it examines: two probes that
   * agree there give the same answer, whatever they say of the stop hour or
   * of older hours.
   */
  lemma {:induction false} ScanHoursProbesOnlyExamined(present1: int -> bool, present2: int -> bool,
                                                       isStop: int -> bool, now: int, step: nat)
    requires step <= MaxRecentHours
    requires forall h | now - StopStep(isStop, now, step) < h <= now - step :: present1(h) == present2(h)
    ensures ScanHours(present1, isStop, now, step) == ScanHours(present2, isStop, now, step)
    decreases MaxRecentHours - step
  {
    if step < StopStep(isStop, now, step) && step <= now {
      ScanHoursProbesOnlyExamined(present1, present2, isStop, now, step + 1);
    }
  }

  // From hours to partition tuples.

  lemma HourTuplesAppend(hours: seq<int>, h: int)
    requires AllValidHours(hours) && ValidHour(h)
    ensures AllValidHours(hours + [h]) && HourTuples(hours + [h]) == HourTuples(hours) + [HourTuple(h)]
  {
    assert AllValidHours(hours + [h]);
    var l := HourTuples(hours + [h]);
    var r := HourTuples(hours) + [HourTuple(h)];
    assert |l| == |r|;
    forall i | 0 <= i < |l| ensures l[i] == r[i] {
      if i < |hours| {
        assert (hours + [h])[i] == hours[i];
      }
    }
  }

  /** The tuples of a scan's hours, or its error. */
  function TuplesOf(r: Result<seq<int>, PartitionError>): (t: Result<seq<seq<string>>, PartitionError>)
    requires r.Success? ==> AllValidHours(r.value)
    ensures t.Failure? <==> r.Failure?
    ensures t.Failure? ==> t.error == r.error
    ensures t.Success? ==> t.value == HourTuples(r.value)
  {
    match r
    case Failure(e) => Failure(e)
    case Success(hours) => Success(HourTuples(hours))
  }

  /** `items` ahead of the items of `r`, or its error. */
  function Prepend<T>(items: seq<T>, r: Result<seq<T>, PartitionError>): Result<seq<T>, PartitionError> {
    match r
    case Failure(e) => Failure(e)
    case Success(older) => Success(items + older)
  }

  /** The tuples of hours put ahead of a scan are put ahead of its tuples. */
  lemma TuplesOfPrepend(hours: seq<int>, r: Result<seq<int>, PartitionError>)
    requires AllValidHours(hours) && (r.Success? ==> AllValidHours(r.value))
    ensures Prepend(hours, r).Success? ==> AllValidHours(Prepend(hours, r).value)
    ensures TuplesOf(Prepend(hours, r)) == Prepend(HourTuples(hours), TuplesOf(r))
  {
    if r.Success? {
      HourTuplesConcat(hours, r.value);
    }
  }

  // `find_recent_partitions`.

  /** Whether the path of hour `h` holds objects. */
  function Present(p: Partitioner, store: ObjectStore): int -> bool {
    h => ValidHour(h) && store.hasObjects(HourPath(p, h))
  }

  /** Whether hour `h` is the catalog's last partition. */
  function IsSentinel(sentinel: Option<int>): int -> bool {
    h => sentinel == Some(h)
  }

  /** The hours `find_recent_partitions(existing)` adds at hour `now`, newest first. */
  function RecentHours(p: Partitioner, store: ObjectStore, existing: seq<seq<string>>, now: int): (r: Result<seq<int>, PartitionError>)
    requires ValidHour(now)
    ensures r.Success? ==> |r.value| <= MaxRecentHours
    ensures r.Success? ==> forall i | 0 <= i < |r.value| :: ValidHour(r.value[i]) && now - MaxRecentHours < r.value[i] <= now
  {
    ScanHours(Present(p, store), IsSentinel(SentinelHour(existing)), now, 0)
  }

  /** The step at which `find_recent_partitions(existing)` stops. */
  function RecentStop(existing: seq<seq<string>>, now: int): nat {
    StopStep(IsSentinel(SentinelHour(existing)), now, 0)
  }

  /**
   * The loop of `find_recent_partitions` from the pass that examines hour
   * `hour`, with `passes` passes left and the tuples `found` so far: it
   * fails before the first representable hour, ends at the catalog's last
   * partition, and otherwise keeps the hour's tuple when its path holds
   * objects.
   */
  function RecentFrom(p: Partitioner, store: ObjectStore, existing: seq<seq<string>>, hour: int, passes: nat,
                      found: seq<seq<string>>): Result<seq<seq<string>>, PartitionError>
    requires hour < HourLimit()
    decreases passes
  {
    if passes == 0 then Success(found)
    else if hour < 0 then Failure(DateOutOfRange)
    else
      var t := HourTuple(hour);
      if existing != [] && existing[|existing| - 1] == t then Success(found)
      else RecentFrom(p, store, existing, hour - 1, passes - 1,
                      if store.hasObjects(PartitionedPath(p, t)) then found + [t] else found)
  }

  /** The partition tuples `find_recent_partitions(existing)` returns at hour `now`: the tuples of the hours the scan adds. */
  function RecentPartitions(p: Partitioner, store: ObjectStore, existing: seq<seq<string>>, now: int): Result<seq<seq<string>>, PartitionError>
    requires ValidHour(now)
  {
    TuplesOf(RecentHours(p, store, existing, now))
  }

  lemma PrependEmpty<T>(r: Result<seq<T>, PartitionError>)
    ensures Prepend([], r) == r
  {
    if r.Success? {
      assert [] + r.value == r.value;
    }
  }

  lemma PrependAppend<T>(items: seq<T>, x: T, r: Result<seq<T>, PartitionError>)
    ensures Prepend(items, Prepend([x], r)) == Prepend(items + [x], r)
  {
    if r.Success? {
      assert items + ([x] + r.value) == items + [x] + r.value;
    }
  }

  /** One step of a scan that is still within the bound and the representable hours. */
  lemma ScanHoursStep(present: int -> bool, isStop: int -> bool, now: int, step: nat, h: int)
    requires step < MaxRecentHours && step <= now && h == now - step
    ensures isStop(h) ==> ScanHours(present, isStop, now, step) == Success([])
    ensures !isStop(h) ==>
      ScanHours(present, isStop, now, step) == Prepend(if present(h) then [h] else [], ScanHours(present, isStop, now, step + 1))
  {
    PrependEmpty(ScanHours(present, isStop, now, step + 1));
  }

  /**
   * One step of `find_recent_partitions` against its specification: at the
   * catalog's last partition the scan ends; otherwise the hour is kept when
   * its path holds objects, and the scan goes on.
   */
  lemma RecentStep(p: Partitioner, store: ObjectStore, existing: seq<seq<string>>, now: int, n: nat, newHour: int)
    requires ValidHour(now) && n < MaxRecentHours && n <= now && newHour == now - n
    ensures var t := HourTuple(newHour); var isStop := IsSentinel(SentinelHour(existing));
      var scan := ScanHours(Present(p, store), isStop, now, n);
      var rest := ScanHours(Present(p, store), isStop, now, n + 1);
      && (existing != [] && existing[|existing| - 1] == t ==> scan == Success([]))
      && (!(existing != [] && existing[|existing| - 1] == t) && store.hasObjects(PartitionedPath(p, t)) ==>
            scan == Prepend([newHour], rest))
      && (!(existing != [] && existing[|existing| - 1] == t) && !store.hasObjects(PartitionedPath(p, t)) ==>
            scan == rest)
  {
    var isStop := IsSentinel(SentinelHour(existing));
    var present := Present(p, store);
    SentinelHourIs(existing, newHour);
    assert present(newHour) == store.hasObjects(HourPath(p, newHour));
    assert HourPath(p, newHour) == PartitionedPath(p, HourTuple(newHour));
    ScanHoursStep(present, isStop, now, n, newHour);
    PrependEmpty(ScanHours(present, isStop, now, n + 1));
  }

  /** What is left of the scan for recent partitions from step `n` on. */
  function RecentScan(p: Partitioner, store: ObjectStore, existing: seq<seq<string>>, now: int, n: nat): (r: Result<seq<int>, PartitionError>)
    requires ValidHour(now) && n <= MaxRecentHours
    ensures r.Success? ==> AllValidHours(r.value)
  {
    ScanHours(Present(p, store), IsSentinel(SentinelHour(existing)), now, n)
  }

  /** The tuples the scan adds from step `k` on, or its error. */
  function ScanTuplesFrom(p: Partitioner, store: ObjectStore, existing: seq<seq<string>>, now: int, k: nat): Result<seq<seq<string>>, PartitionError>
    requires ValidHour(now) && k <= MaxRecentHours
  {
    TuplesOf(RecentScan(p, store, existing, now, k))
  }

  /**
   * The loop resumed at hour `h` with `passes` passes left puts the tuples
   * the scan adds from step `k` on after the tuples `found` so far.
   */
  predicate RecentFromScans(p: Partitioner, store: ObjectStore, existing: seq<seq<string>>, now: int, k: nat, h: int, passes: nat,
                            found: seq<seq<string>>)
    requires ValidHour(now) && k <= MaxRecentHours
  {
    h < HourLimit() && RecentFrom(p, store, existing, h, passes, found) == Prepend(found, ScanTuplesFrom(p, store, existing, now, k))
  }

  /** A pass at the catalog's last partition: the loop and the scan both end. */
  lemma RecentFromAtLast(p: Partitioner, store: ObjectStore, existing: seq<seq<string>>, now: int, k: nat, h: int, passes: nat,
                         found: seq<seq<string>>)
    requires ValidHour(now) && k < MaxRecentHours && k <= now && h == now - k && passes == MaxRecentHours - k
    requires existing != [] && existing[|existing| - 1] == HourTuple(h)
    ensures RecentFromScans(p, store, existing, now, k, h, passes, found)
  {
    RecentStep(p, store, existing, now, k, h);
    assert found + [] == found;
  }

  /**
   * A pass that does not end the loop: the loop keeps the hour's tuple and
   * the scan the hour when its path holds objects.
   */
  lemma RecentFromPass(p: Partitioner, store: ObjectStore, existing: seq<seq<string>>, now: int, k: nat, h: int, passes: nat,
                       found: seq<seq<string>>, next: seq<seq<string>>)
    requires ValidHour(now) && k < MaxRecentHours && k <= now && h == now - k && passes == MaxRecentHours - k
    requires existing == [] || existing[|existing| - 1] != HourTuple(h)
    requires next == if store.hasObjects(PartitionedPath(p, HourTuple(h))) then found + [HourTuple(h)] else found
    requires RecentFromScans(p, store, existing, now, k + 1, h - 1, passes - 1, next)
    ensures RecentFromScans(p, store, existing, now, k, h, passes, found)
  {
    var rest := RecentScan(p, store, existing, now, k + 1);
    RecentStep(p, store, existing, now, k, h);
    if store.hasObjects(PartitionedPath(p, HourTuple(h))) {
      TuplesOfPrepend([h], rest);
      HourTuplesSingleton(h);
      PrependAppend(found, HourTuple(h), TuplesOf(rest));
    }
  }

  /**
   * The loop from the pass `k` hours before `now` on puts the tuples the
   * scan adds from step `k` on after the tuples found so far.
   */
  lemma {:induction false} RecentFromScan(p: Partitioner, store: ObjectStore, existing: seq<seq<string>>, now: int, k: nat,
                                          h: int, passes: nat, found: seq<seq<string>>)
    requires ValidHour(now) && k <= MaxRecentHours && h == now - k && passes == MaxRecentHours - k
    ensures RecentFromScans(p, store, existing, now, k, h, passes, found)
    decreases passes
  {
    if k == MaxRecentHours {
      assert found + [] == found;
    } else if k <= now {
      var t := HourTuple(h);
      if existing != [] && existing[|existing| - 1] == t {
        RecentFromAtLast(p, store, existing, now, k, h, passes, found);
      } else {
        var next := if store.hasObjects(PartitionedPath(p, t)) then found + [t] else found;
        RecentFromScan(p, store, existing, now, k + 1, h - 1, passes - 1, next);
        RecentFromPass(p, store, existing, now, k, h, passes, found, next);
      }
    }
  }

  /**
   * The invariant of the loop of `find_recent_partitions`: resumed at hour
   * `hour` with `passes` passes left and the tuples `found` so far, it ends
   * as it does when run from the current hour.
   */
  predicate RecentLoopAt(p: Partitioner, store: ObjectStore, existing: seq<seq<string>>, now: int, hour: int, passes: nat,
                         found: seq<seq<string>>)
    requires ValidHour(now)
  {
    hour < HourLimit() && RecentFrom(p, store, existing, hour, passes, found) == RecentFrom(p, store, existing, now, MaxRecentHours, [])
  }

  /** One pass of the loop that does not end it keeps the invariant: the pass keeps its hour's tuple when the hour's path holds objects. */
  lemma RecentLoopNext(p: Partitioner, store: ObjectStore, existing: seq<seq<string>>, now: int, hour: int, passes: nat,
                       nextHour: int, nextPasses: nat, found: seq<seq<string>>, next: seq<seq<string>>)
    requires ValidHour(now) && ValidHour(hour) && passes > 0 && nextHour == hour - 1 && nextPasses == passes - 1
    requires existing == [] || existing[|existing| - 1] != HourTuple(hour)
    requires next == if store.hasObjects(PartitionedPath(p, HourTuple(hour))) then found + [HourTuple(hour)] else found
    ensures RecentLoopAt(p, store, existing, now, hour, passes, found) == RecentLoopAt(p, store, existing, now, nextHour, nextPasses, next)
  {
    assert RecentFrom(p, store, existing, hour, passes, found) == RecentFrom(p, store, existing, nextHour, nextPasses, next);
  }

  /** The loop, run from the current hour, computes the tuples of the hours the scan adds. */
  lemma RecentLoopMatches(p: Partitioner, store: ObjectStore, existing: seq<seq<string>>, now: int)
    requires ValidHour(now)
    ensures RecentFrom(p, store, existing, now, MaxRecentHours, []) == RecentPartitions(p, store, existing, now)
  {
    RecentFromScan(p, store, existing, now, 0, now, MaxRecentHours, []);
    PrependEmpty(ScanTuplesFrom(p, store, existing, now, 0));
  }

  /**
   * `find_recent_partitions(existing)`: walks back from the current hour,
   * one hour per pass, for at most `MaxRecentHours` passes, stopping at the
   * catalog's last partition and collecting the tuples of the hours whose
   * paths hold objects.
   */
  method FindRecentPartitions(p: Partitioner, store: ObjectStore, existing: seq<seq<string>>, now: int)
    returns (r: Result<seq<seq<string>>, PartitionError>)
    requires ValidHour(now)
    ensures r == RecentPartitions(p, store, existing, now)
  {
    var partitionsToAdd: seq<seq<string>> := [];
    var hourDiff := 0;
    for n := 0 to MaxRecentHours
      invariant hourDiff == -n
      invariant RecentLoopAt(p, store, existing, now, now + hourDiff, MaxRecentHours - n, partitionsToAdd)
    {
      var newHour := now + hourDiff;
      if newHour < 0 {
        RecentLoopMatches(p, store, existing, now);
        return Failure(DateOutOfRange);
      }
      var newHourTuple := HourTuple(newHour);
      ghost var found := partitionsToAdd;
      if existing == [] || existing[|existing| - 1] != newHourTuple {
        if store.hasObjects(PartitionedPath(p, newHourTuple)) {
          partitionsToAdd := partitionsToAdd + [newHourTuple];
        }
      } else {
        break;
      }
      hourDiff := hourDiff - 1;
      RecentLoopNext(p, store, existing, now, newHour, MaxRecentHours - n, now + hourDiff, MaxRecentHours - (n + 1),
                     found, partitionsToAdd);
    }
    RecentLoopMatches(p, store, existing, now);
    return Success(partitionsToAdd);
  }

  // Properties of `find_recent_partitions`.

  /** The scan fails exactly when it must step before the first representable hour ahead of its stop. */
  lemma RecentPartitionsFailure(p: Partitioner, store: ObjectStore, existing: seq<seq<string>>, now: int)
    requires ValidHour(now)
    ensures var r := RecentPartitions(p, store, existing, now);
      && (r.Failure? <==> now + 1 < RecentStop(existing, now))
      && (r.Failure? ==> r.error == DateOutOfRange)
  {
    ScanHoursFailure(Present(p, store), IsSentinel(SentinelHour(existing)), now, 0);
  }

  /**
   * The hours behind the result: newest first, each in the window the scan
   * examined and with objects under its path; the result is their tuples.
   */
  lemma RecentPartitionsNewestFirst(p: Partitioner, store: ObjectStore, existing: seq<seq<string>>, now: int)
    requires ValidHour(now)
    ensures var r := RecentHours(p, store, existing, now); r.Success? ==>
      && StrictlyDecreasing(r.value)
      && (forall i | 0 <= i < |r.value| ::
            now - RecentStop(existing, now) < r.value[i] <= now && store.hasObjects(HourPath(p, r.value[i])))
      && RecentPartitions(p, store, existing, now) == Success(HourTuples(r.value))
  {
    var present := Present(p, store);
    var isStop := IsSentinel(SentinelHour(existing));
    var r := RecentHours(p, store, existing, now);
    ScanHoursDecreasing(present, isStop, now, 0);
    if r.Success? {
      forall i | 0 <= i < |r.value|
        ensures now - RecentStop(existing, now) < r.value[i] <= now && store.hasObjects(HourPath(p, r.value[i]))
      {
        ScanHoursMembers(present, isStop, now, 0, r.value[i]);
      }
    }
  }

  /** The result names an hour exactly when the scan examined it and its path holds objects. */
  lemma RecentPartitionsMembers(p: Partitioner, store: ObjectStore, existing: seq<seq<string>>, now: int, h: int)
    requires ValidHour(now) && ValidHour(h) && RecentPartitions(p, store, existing, now).Success?
    ensures HourTuple(h) in RecentPartitions(p, store, existing, now).value
        <==> now - RecentStop(existing, now) < h <= now && store.hasObjects(HourPath(p, h))
  {
    var hours := RecentHours(p, store, existing, now).value;
    ScanHoursMembers(Present(p, store), IsSentinel(SentinelHour(existing)), now, 0, h);
    HourTuplesMember(hours, h);
  }

  /** No tuple is listed twice. */
  lemma RecentPartitionsDistinct(p: Partitioner, store: ObjectStore, existing: seq<seq<string>>, now: int)
    requires ValidHour(now) && RecentPartitions(p, store, existing, now).Success?
    ensures var t := RecentPartitions(p, store, existing, now).value;
      forall i, j | 0 <= i < j < |t| :: t[i] != t[j]
  {
    var hours := RecentHours(p, store, existing, now).value;
    var t := RecentPartitions(p, store, existing, now).value;
    RecentPartitionsNewestFirst(p, store, existing, now);
    forall i, j | 0 <= i < j < |t| ensures t[i] != t[j] {
      if t[i] == t[j] {
        HourTupleInjective(hours[i], hours[j]);
      }
    }
  }

  /** The catalog's last partition is never listed again. */
  lemma RecentPartitionsExcludeLast(p: Partitioner, store: ObjectStore, existing: seq<seq<string>>, now: int)
    requires ValidHour(now) && existing != [] && RecentPartitions(p, store, existing, now).Success?
    ensures existing[|existing| - 1] !in RecentPartitions(p, store, existing, now).value
  {
    var hours := RecentHours(p, store, existing, now).value;
    var t := RecentPartitions(p, store, existing, now).value;
    var isStop := IsSentinel(SentinelHour(existing));
    RecentPartitionsNewestFirst(p, store, existing, now);
    forall i | 0 <= i < |t| ensures t[i] != existing[|existing| - 1] {
      assert !isStop(hours[i]);
      SentinelHourIs(existing, hours[i]);
    }
  }

  /** A scan ends at the only hour `isStop` holds of, when that hour is within its reach. */
  lemma StopStepAtUnique(isStop: int -> bool, now: int, step: nat, k: int)
    requires step <= k < MaxRecentHours && k <= now && isStop(now - k)
    requires forall a, b | isStop(a) && isStop(b) :: a == b
    ensures StopStep(isStop, now, step) == k
  {
  }

  /** A catalog whose last partition is hour `now - k` of the window stops the scan at step `k`. */
  lemma RecentStopAtSentinel(existing: seq<seq<string>>, now: int, k: int)
    requires ValidHour(now) && 0 <= k < MaxRecentHours && k <= now
    requires existing != [] && existing[|existing| - 1] == HourTuple(now - k)
    ensures RecentStop(existing, now) == k
  {
    SentinelHourIs(existing, now - k);
    StopStepAtUnique(IsSentinel(SentinelHour(existing)), now, 0, k);
  }

  /** A catalog whose last partition is none of the window's hours lets the scan run all its steps. */
  lemma RecentStopWithoutSentinel(existing: seq<seq<string>>, now: int)
    requires ValidHour(now)
    requires forall h | ValidHour(h) && now - MaxRecentHours < h <= now ::
      existing == [] || existing[|existing| - 1] != HourTuple(h)
    ensures RecentStop(existing, now) == MaxRecentHours
  {
    var stop := RecentStop(existing, now);
    if stop < MaxRecentHours {
      assert SentinelHour(existing) == Some(now - stop);
      SentinelHourIs(existing, now - stop);
      assert false;
    }
  }

  /**
   * When the catalog's last partition is hour `now - k` of the window, the
   * scan succeeds and lists exactly the newer hours whose paths hold objects.
   */
  lemma RecentPartitionsStopAtSentinel(p: Partitioner, store: ObjectStore, existing: seq<seq<string>>, now: int, k: int)
    requires ValidHour(now) && 0 <= k < MaxRecentHours && k <= now
    requires existing != [] && existing[|existing| - 1] == HourTuple(now - k)
    ensures var r := RecentPartitions(p, store, existing, now);
      && r.Success?
      && forall h | ValidHour(h) :: HourTuple(h) in r.value <==> now - k < h <= now && store.hasObjects(HourPath(p, h))
  {
    RecentStopAtSentinel(existing, now, k);
    RecentPartitionsFailure(p, store, existing, now);
    forall h | ValidHour(h)
      ensures HourTuple(h) in RecentPartitions(p, store, existing, now).value <==> now - k < h <= now && store.hasObjects(HourPath(p, h))
    {
      RecentPartitionsMembers(p, store, existing, now, h);
    }
  }

  /**
   * With an empty catalog the scan looks at all 72 hours: it fails only
   * when they do not all exist, and otherwise lists exactly the hours of the
   * window whose paths hold objects, so empty hours do not end it.
   */
  lemma RecentPartitionsEmptyCatalog(p: Partitioner, store: ObjectStore, now: int)
    requires ValidHour(now)
    ensures var r := RecentPartitions(p, store, [], now);
      && (r.Failure? <==> now + 1 < MaxRecentHours)
      && (r.Success? ==> forall h | ValidHour(h) ::
            HourTuple(h) in r.value <==> now - MaxRecentHours < h <= now && store.hasObjects(HourPath(p, h)))
  {
    RecentStopWithoutSentinel([], now);
    RecentPartitionsFailure(p, store, [], now);
    if RecentPartitions(p, store, [], now).Success? {
      forall h | ValidHour(h)
        ensures HourTuple(h) in RecentPartitions(p, store, [], now).value
            <==> now - MaxRecentHours < h <= now && store.hasObjects(HourPath(p, h))
      {
        RecentPartitionsMembers(p, store, [], now, h);
      }
    }
  }

  /** Only the last element of the catalog's partitions matters. */
  lemma RecentPartitionsLastOnly(p: Partitioner, store: ObjectStore, existing1: seq<seq<string>>, existing2: seq<seq<string>>, now: int)
    requires ValidHour(now)
    requires existing1 != [] && existing2 != [] && existing1[|existing1| - 1] == existing2[|existing2| - 1]
    ensures RecentPartitions(p, store, existing1, now) == RecentPartitions(p, store, existing2, now)
  {
    assert SentinelHour(existing1) == SentinelHour(existing2);
  }

  /**
   * The scan probes only the hours it examines, never the stop hour or
   * older ones: stores that agree on those paths give the same result.
   */
  lemma RecentPartitionsProbesOnlyExamined(p: Partitioner, store1: ObjectStore, store2: ObjectStore,
                                           existing: seq<seq<string>>, now: int)
    requires ValidHour(now)
    requires forall h | ValidHour(h) && now - RecentStop(existing, now) < h <= now ::
      store1.hasObjects(HourPath(p, h)) == store2.hasObjects(HourPath(p, h))
    ensures RecentPartitions(p, store1, existing, now) == RecentPartitions(p, store2, existing, now)
  {
    var present1, present2 := Present(p, store1), Present(p, store2);
    var isStop := IsSentinel(SentinelHour(existing));
    forall h | now - StopStep(isStop, now, 0) < h <= now ensures present1(h) == present2(h) {
    }
    ScanHoursProbesOnlyExamined(present1, present2, isStop, now, 0);
  }

  /**
   * With the hour before `now` as the catalog's last partition and objects
   * under the current hour, the scan adds the current hour alone.
   */
  lemma RecentPartitionsAfterLastHour(p: Partitioner, store: ObjectStore, now: int)
    requires ValidHour(now) && 1 <= now && store.hasObjects(HourPath(p, now))
    ensures RecentPartitions(p, store, [HourTuple(now - 1)], now) == Success([HourTuple(now)])
  {
    var existing := [HourTuple(now - 1)];
    var present := Present(p, store);
    var isStop := IsSentinel(SentinelHour(existing));
    ParseOfHourTuple(now - 1);
    assert present(now) && !isStop(now) && isStop(now - 1);
    ScanHoursNewestOne(present, isStop, now);
    HourTuplesSingleton(now);
  }

  /** A scan that keeps the current hour and stops at the hour before lists the current hour alone. */
  lemma ScanHoursNewestOne(present: int -> bool, isStop: int -> bool, now: int)
    requires 1 <= now && present(now) && !isStop(now) && isStop(now - 1)
    ensures ScanHours(present, isStop, now, 0) == Success([now])
  {
    ScanHoursStep(present, isStop, now, 0, now);
    ScanHoursStep(present, isStop, now, 1, now - 1);
    assert [now] + [] == [now];
  }

  /** A scan that reaches the bound and is present at none of the hours left lists nothing more. */
  lemma {:induction false} ScanHoursNonePresent(present: int -> bool, isStop: int -> bool, now: int, step: nat)
    requires step <= MaxRecentHours && MaxRecentHours - 1 <= now
    requires forall h | now - MaxRecentHours < h <= now - step :: !present(h)
    ensures ScanHours(present, isStop, now, step) == Success([])
    decreases MaxRecentHours - step
  {
    if step < MaxRecentHours && !isStop(now - step) {
      ScanHoursNonePresent(present, isStop, now, step + 1);
    }
  }

  /**
   * A scan from `now` that stops at neither of the two newest hours, and is
   * present at those two alone, lists them, newest first.
   */
  lemma ScanHoursNewestTwo(present: int -> bool, isStop: int -> bool, now: int)
    requires MaxRecentHours - 1 <= now
    requires present(now) && present(now - 1) && !isStop(now) && !isStop(now - 1)
    requires forall h | now - MaxRecentHours < h <= now - 2 :: !present(h)
    ensures ScanHours(present, isStop, now, 0) == Success([now, now - 1])
  {
    ScanHoursNonePresent(present, isStop, now, 2);
    ScanHoursStep(present, isStop, now, 1, now - 1);
    ScanHoursStep(present, isStop, now, 0, now);
    assert [now] + ([now - 1] + []) == [now, now - 1];
  }

  /**
   * With an empty catalog and objects under the current hour and the one
   * before it alone, the scan adds those two, newest first.
   */
  lemma RecentPartitionsTwoHours(p: Partitioner, store: ObjectStore, now: int)
    requires ValidHour(now) && MaxRecentHours - 1 <= now
    requires forall h | ValidHour(h) && now - MaxRecentHours < h <= now ::
      store.hasObjects(HourPath(p, h)) <==> h == now || h == now - 1
    ensures RecentPartitions(p, store, [], now) == Success([HourTuple(now), HourTuple(now - 1)])
  {
    var present := Present(p, store);
    forall h | now - MaxRecentHours < h <= now - 2 ensures !present(h) {
    }
    assert present(now) && present(now - 1);
    ScanHoursNewestTwo(present, IsSentinel(SentinelHour([])), now);
    HourTuplesSingleton(now);
    HourTuplesSingleton(now - 1);
    HourTuplesConcat([now], [now - 1]);
    assert [now] + [now - 1] == [now, now - 1];
    assert [HourTuple(now)] + [HourTuple(now - 1)] == [HourTuple(now), HourTuple(now - 1)];
  }

  // `build_partitions_from_s3`.

  /** The earliest partition tuple in the store, read in the partitioner's layout. */
  function FirstPartition(p: Partitioner, store: ObjectStore): seq<string> {
    if p.hiveCompatible then store.firstHiveDatetime(p.s3Location, ColumnNames(PartitionKeys()))
    else store.firstDatetime(p.s3Location)
  }

  /**
   * What `build_partitions_from_s3()` returns for the earliest partition
   * `first`: that partition followed by every later hour up to `now`.
   */
  function PartitionsSince(first: seq<string>, now: int): (r: Result<seq<seq<string>>, PartitionError>)
    requires ValidHour(now)
    ensures r.Failure? <==> ParseHourTuple(first).None?
    ensures r.Failure? ==> r.error == MalformedPartition(first)
    ensures r.Success? ==> r.value != [] && r.value[0] == first
  {
    match DatetimeValuesSince(first, now)
    case Failure(e) => Failure(e)
    case Success(later) => Success([first] + later)
  }

  /** The partitions are the tuples of all hours from the first partition's through `now`, oldest first. */
  lemma PartitionsSinceRange(first: seq<string>, now: int)
    requires ValidHour(now) && ParseHourTuple(first).Some?
    ensures var h0 := ParseHourTuple(first).value;
      PartitionsSince(first, now) == Success(HourRange(h0, if h0 < now then now else h0))
  {
    var h0 := ParseHourTuple(first).value;
    var later := HourRange(h0 + 1, now);
    DatetimeValuesSinceRange(first, now);
    assert DatetimeValuesSince(first, now) == Success(later);
    HourTupleOfParse(first);
    HourRangeCons(h0, now);
    assert [first] + later == HourRange(h0, if h0 < now then now else h0);
  }

  /** Unless the first partition lies after `now`, the last partition is the current hour's. */
  lemma PartitionsSinceLast(first: seq<string>, now: int)
    requires ValidHour(now) && ParseHourTuple(first).Some? && ParseHourTuple(first).value <= now
    ensures var r := PartitionsSince(first, now).value; r[|r| - 1] == HourTuple(now)
  {
    var h0 := ParseHourTuple(first).value;
    PartitionsSinceRange(first, now);
    var r := HourRange(h0, now);
    assert PartitionsSince(first, now) == Success(r);
    HourRangeLast(h0, now);
  }

  /**
   * `build_partitions_from_s3()`: reads the earliest partition in the store,
   * in the hive layout with the partition key names or in the plain one,
   * and lists it followed by every later hour up to `now`.
   */
  method BuildPartitionsFromS3(p: Partitioner, store: ObjectStore, now: int)
    returns (r: Result<seq<seq<string>>, PartitionError>)
    requires ValidHour(now)
    ensures r == PartitionsSince(FirstPartition(p, store), now)
  {
    var partitionValues: seq<seq<string>> := [];
    var first: seq<string>;
    if p.hiveCompatible {
      var keyNames := ColumnNames(PartitionKeys());
      first := store.firstHiveDatetime(p.s3Location, keyNames);
      assert first == FirstPartition(p, store);
    } else {
      first := store.firstDatetime(p.s3Location);
      assert first == FirstPartition(p, store);
    }
    partitionValues := partitionValues + [first];
    var since := DatetimeValuesSince(first, now);
    if since.Failure? {
      return Failure(since.error);
    }
    partitionValues := partitionValues + since.value;
    assert partitionValues == [first] + since.value;
    return Success(partitionValues);
  }
}
