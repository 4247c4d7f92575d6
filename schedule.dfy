// SmartBrainSchedule: a tick -> activity timeline plus tick -> callback lists,
// resolved against the owner's day time (DAYTIME) or age (AGE).
module Schedules {
  import opened Wrappers
  import opened Domain

  datatype ScheduleType = Daytime | Age

  const DAY_LENGTH: int := 24000

  /** Opaque identity of a scheduled callback (a Consumer in the library). */
  type CallbackId = nat

  /** Type.resolve: DAYTIME is the day time modulo a day (Java `%`), AGE the tick count. */
  function Resolve(kind: ScheduleType, dayTime: int, tickCount: int): (t: int)
    ensures kind == Age ==> t == tickCount
    ensures kind == Daytime ==> -DAY_LENGTH < t < DAY_LENGTH
    ensures kind == Daytime && dayTime >= 0 ==> 0 <= t < DAY_LENGTH && t == dayTime % DAY_LENGTH
  {
    match kind
    case Daytime => JavaRem(dayTime, DAY_LENGTH)
    case Age => tickCount
  }

  /** Type.resolveDelay: the tick at which something `delay` ticks from now falls. */
  function ResolveDelay(kind: ScheduleType, dayTime: int, tickCount: int, delay: int): (t: int)
  {
    match kind
    case Daytime => JavaRem(dayTime + delay, DAY_LENGTH)
    case Age => WrapInt(tickCount + delay)
  }

  /** The DAYTIME delay lands where the resolved tick, moved on by `delay`, wraps to. */
  lemma DaytimeDelayWrapsDay(dayTime: int, tickCount: int, delay: int)
    requires dayTime >= 0 && delay >= 0
    ensures ResolveDelay(Daytime, dayTime, tickCount, delay)
         == (Resolve(Daytime, dayTime, tickCount) + delay) % DAY_LENGTH
    ensures 0 <= ResolveDelay(Daytime, dayTime, tickCount, delay) < DAY_LENGTH
  {
    var q := dayTime / DAY_LENGTH;
    var r := dayTime % DAY_LENGTH;
    assert dayTime == q * DAY_LENGTH + r;
    ModShift(r + delay, q);
  }

  lemma ModShift(x: int, q: int)
    requires x >= 0 && q >= 0
    ensures (q * DAY_LENGTH + x) % DAY_LENGTH == x % DAY_LENGTH
  {
    if q > 0 {
      ModShift(x, q - 1);
      assert q * DAY_LENGTH + x == (q - 1) * DAY_LENGTH + x + DAY_LENGTH;
    }
  }

  /** An AGE delay lands on the tick the owner reaches `delay` ticks later, barring int overflow. */
  lemma AgeDelayIsLaterTick(dayTime: int, tickCount: int, delay: int)
    requires 0 <= tickCount && 0 <= delay && tickCount + delay <= INT_MAX_VALUE
    ensures ResolveDelay(Age, dayTime, tickCount, delay) == Resolve(Age, dayTime, tickCount + delay)
    ensures ResolveDelay(Age, dayTime, tickCount, delay) >= Resolve(Age, dayTime, tickCount)
  {
  }

  // ---------------------------------------------------------------------
  // The timeline: an Int2ObjectArrayMap, i.e. an insertion-ordered list of
  // (key, activity) entries with distinct keys.

  type Entry = (int, Activity)

  predicate UniqueKeys(tl: seq<Entry>) {
    forall i, j :: 0 <= i < j < |tl| ==> tl[i].0 != tl[j].0
  }

  predicate Ascending(tl: seq<Entry>) {
    forall i, j :: 0 <= i < j < |tl| ==> tl[i].0 < tl[j].0
  }

  ghost predicate SameEntries(a: seq<Entry>, b: seq<Entry>) {
    forall e :: e in a <==> e in b
  }

  predicate HasKey(tl: seq<Entry>, k: int) {
    exists i :: 0 <= i < |tl| && tl[i].0 == k
  }

  /** Int2ObjectArrayMap.get. */
  function Lookup(tl: seq<Entry>, k: int): (r: Option<Activity>)
    ensures r.Some? <==> HasKey(tl, k)
    ensures r.Some? ==> (k, r.value) in tl
  {
    if |tl| == 0 then None
    else if tl[0].0 == k then Some(tl[0].1)
    else
      var r := Lookup(tl[1..], k);
      assert forall i :: 0 < i < |tl| ==> tl[i] == tl[1..][i - 1];
      assert HasKey(tl[1..], k) ==> HasKey(tl, k);
      r
  }

  /** Int2ObjectArrayMap.put: overwrite the value in place, or append a new entry. */
  function Put(tl: seq<Entry>, k: int, a: Activity): (r: seq<Entry>)
  {
    if |tl| == 0 then [(k, a)]
    else if tl[0].0 == k then [(k, a)] + tl[1..]
    else [tl[0]] + Put(tl[1..], k, a)
  }

  /** `activityAt(t, a)` maps t to a, leaves every other key alone, and keeps keys distinct. */
  lemma PutMapsKey(tl: seq<Entry>, k: int, a: Activity)
    requires UniqueKeys(tl)
    ensures UniqueKeys(Put(tl, k, a))
    ensures Lookup(Put(tl, k, a), k) == Some(a)
    ensures forall k' :: k' != k ==> Lookup(Put(tl, k, a), k') == Lookup(tl, k')
  {
    PutUnique(tl, k, a);
    PutLookup(tl, k, a);
  }

  lemma {:induction false} PutLookup(tl: seq<Entry>, k: int, a: Activity)
    ensures Lookup(Put(tl, k, a), k) == Some(a)
    ensures forall k' :: k' != k ==> Lookup(Put(tl, k, a), k') == Lookup(tl, k')
  {
    if |tl| > 0 && tl[0].0 != k {
      PutLookup(tl[1..], k, a);
      var r := Put(tl, k, a);
      assert r[1..] == Put(tl[1..], k, a);
    } else if |tl| > 0 {
      assert Put(tl, k, a)[1..] == tl[1..];
    }
  }

  lemma {:induction false} PutUnique(tl: seq<Entry>, k: int, a: Activity)
    requires UniqueKeys(tl)
    ensures UniqueKeys(Put(tl, k, a))
  {
    if |tl| > 0 && tl[0].0 != k {
      var rest := tl[1..];
      assert UniqueKeys(rest) by {
        forall i, j | 0 <= i < j < |rest| ensures rest[i].0 != rest[j].0 { assert rest[i] == tl[i + 1] && rest[j] == tl[j + 1]; }
      }
      PutUnique(rest, k, a);
      PutKeys(rest, k, a);
      var tail := Put(rest, k, a);
      var r := [tl[0]] + tail;
      forall j | 0 <= j < |tail| ensures tail[j].0 != tl[0].0 {
        assert tail[j] in tail;
        if tail[j].0 != k {
          var m :| 0 <= m < |rest| && rest[m] == tail[j];
          assert tl[m + 1] == tail[j];
        }
      }
      forall i, j | 0 <= i < j < |r| ensures r[i].0 != r[j].0 {
        assert r[j] == tail[j - 1];
        if i > 0 { assert r[i] == tail[i - 1]; }
      }
    } else if |tl| > 0 {
      var r := [(k, a)] + tl[1..];
      assert Put(tl, k, a) == r;
      forall i, j | 0 <= i < j < |r| ensures r[i].0 != r[j].0 {
        assert r[j] == tl[j];
        if i > 0 { assert r[i] == tl[i]; }
      }
    }
  }

  /** A put of a new key appends; of a present key it keeps the length. */
  lemma {:induction false} PutPlacement(tl: seq<Entry>, k: int, a: Activity)
    ensures |Put(tl, k, a)| == if HasKey(tl, k) then |tl| else |tl| + 1
    ensures !HasKey(tl, k) ==> Put(tl, k, a) == tl + [(k, a)]
  {
    if |tl| > 0 {
      if tl[0].0 != k {
        PutPlacement(tl[1..], k, a);
        HasKeyTail(tl, k);
      } else {
        assert HasKey(tl, k) by { assert tl[0].0 == k; }
      }
    }
  }

  lemma HasKeyTail(tl: seq<Entry>, k: int)
    requires |tl| > 0 && tl[0].0 != k
    ensures HasKey(tl, k) <==> HasKey(tl[1..], k)
  {
    if HasKey(tl, k) {
      var i :| 0 <= i < |tl| && tl[i].0 == k;
      assert tl[1..][i - 1].0 == k;
    }
    if HasKey(tl[1..], k) {
      var i :| 0 <= i < |tl[1..]| && tl[1..][i].0 == k;
      assert tl[i + 1].0 == k;
    }
  }

  /** The keys after a put are the old keys plus k. */
  lemma {:induction false} PutKeys(tl: seq<Entry>, k: int, a: Activity)
    ensures forall e :: e in Put(tl, k, a) ==> e.0 == k || e in tl
  {
    if |tl| > 0 && tl[0].0 != k {
      PutKeys(tl[1..], k, a);
    }
  }

  /** What the floor lookup means: the activity at the greatest key at most `tick`, or none. */
  ghost predicate IsFloor(tl: seq<Entry>, tick: int, r: Option<Activity>) {
    (r.None? <==> forall e :: e in tl ==> e.0 > tick) &&
    (r.Some? ==> exists e :: e in tl && e.0 <= tick && e.1 == r.value &&
                   forall e' :: e' in tl && e'.0 <= tick ==> e'.0 <= e.0)
  }

  /** As written: an AGE timeline is cleared once the scan reaches its last entry,
    * i.e. when every key but the greatest is below the tick. */
  ghost predicate AgeClearsAsWritten(tl: seq<Entry>, tick: int) {
    forall e, e' :: e in tl && e' in tl && e.0 < e'.0 ==> e.0 < tick
  }

  /** Intended: an AGE timeline is finished once every key has been reached. */
  ghost predicate AgeClearsIntended(tl: seq<Entry>, tick: int) {
    forall e :: e in tl ==> e.0 <= tick
  }

  /** getActivityAt's scan in the timeline's current order, starting from `acc`. */
  function ActivityBefore(tl: seq<Entry>, tick: int, acc: Activity): Activity
  {
    if |tl| == 0 then acc
    else if tl[0].0 >= tick then acc
    else ActivityBefore(tl[1..], tick, tl[0].1)
  }

  /** On a sorted timeline, getActivityAt answers the activity at the greatest key strictly
    * below the tick, IDLE when there is none. */
  lemma {:induction false} ActivityBeforeSorted(tl: seq<Entry>, tick: int)
    requires Ascending(tl)
    ensures forall r :: IsFloor(tl, tick - 1, r) ==>
              ActivityBefore(tl, tick, Idle) == GetOrElse(r, Idle)
  {
    forall r | IsFloor(tl, tick - 1, r)
      ensures ActivityBefore(tl, tick, Idle) == GetOrElse(r, Idle)
    {
      var n := CountBelow(tl, tick);
      ActivityBeforePrefix(tl, tick, Idle, n);
      if n == 0 {
        forall e | e in tl ensures e.0 > tick - 1 {
          var i :| 0 <= i < |tl| && tl[i] == e;
        }
      } else {
        var last := tl[n - 1];
        assert last in tl;
        assert r.Some?;
        var e :| e in tl && e.0 <= tick - 1 && e.1 == r.value &&
                 forall e' :: e' in tl && e'.0 <= tick - 1 ==> e'.0 <= e.0;
        var i :| 0 <= i < |tl| && tl[i] == e;
        assert i < n;
      }
    }
  }

  /** Number of leading entries whose key is below `tick`. */
  function CountBelow(tl: seq<Entry>, tick: int): (n: nat)
    ensures n <= |tl|
    ensures forall j :: 0 <= j < n ==> tl[j].0 < tick
    ensures n < |tl| ==> tl[n].0 >= tick
  {
    if |tl| == 0 || tl[0].0 >= tick then 0 else 1 + CountBelow(tl[1..], tick)
  }

  lemma {:induction false} ActivityBeforePrefix(tl: seq<Entry>, tick: int, acc: Activity, n: nat)
    requires n == CountBelow(tl, tick)
    requires Ascending(tl)
    ensures ActivityBefore(tl, tick, acc) == if n == 0 then acc else tl[n - 1].1
    ensures forall j :: n <= j < |tl| ==> tl[j].0 >= tick
  {
    if |tl| > 0 && tl[0].0 < tick {
      ActivityBeforePrefix(tl[1..], tick, tl[0].1, n - 1);
    }
  }

  // ---------------------------------------------------------------------
  // The integer sort used by sortTimeline (Arrays.sort on the keys).

  function Keys(tl: seq<Entry>): (ks: seq<int>)
    ensures |ks| == |tl|
    ensures forall i :: 0 <= i < |tl| ==> ks[i] == tl[i].0
  {
    if |tl| == 0 then [] else [tl[0].0] + Keys(tl[1..])
  }

  predicate StrictlySorted(s: seq<int>) {
    forall i, j :: 0 <= i < j < |s| ==> s[i] < s[j]
  }

  function Insert(x: int, s: seq<int>): seq<int>
  {
    if |s| == 0 then [x]
    else if x <= s[0] then [x] + s
    else [s[0]] + Insert(x, s[1..])
  }

  function SortKeys(s: seq<int>): seq<int>
  {
    if |s| == 0 then [] else Insert(s[0], SortKeys(s[1..]))
  }

  lemma {:induction false} InsertMembers(x: int, s: seq<int>)
    ensures forall y :: y in Insert(x, s) <==> y == x || y in s
    ensures |Insert(x, s)| == |s| + 1
  {
    if |s| > 0 && x > s[0] {
      InsertMembers(x, s[1..]);
      assert s == [s[0]] + s[1..];
    }
  }

  lemma {:induction false} InsertSorted(x: int, s: seq<int>)
    requires StrictlySorted(s) && x !in s
    ensures StrictlySorted(Insert(x, s))
    ensures forall y :: y in Insert(x, s) <==> y == x || y in s
    ensures |Insert(x, s)| == |s| + 1
  {
    InsertMembers(x, s);
    if |s| > 0 && x > s[0] {
      var rest := s[1..];
      assert StrictlySorted(rest) by {
        forall i, j | 0 <= i < j < |rest| ensures rest[i] < rest[j] { assert rest[i] == s[i + 1] && rest[j] == s[j + 1]; }
      }
      assert x !in rest by { assert s == [s[0]] + rest; }
      InsertSorted(x, rest);
      InsertMembers(x, rest);
      var r := Insert(x, rest);
      var out := [s[0]] + r;
      forall j | 0 <= j < |r| ensures s[0] < r[j] {
        assert r[j] in r;
        if r[j] != x {
          var k :| 0 <= k < |rest| && rest[k] == r[j];
          assert rest[k] == s[k + 1];
        }
      }
      forall i, j | 0 <= i < j < |out| ensures out[i] < out[j] {
        assert out[j] == r[j - 1];
        if i > 0 { assert out[i] == r[i - 1]; }
      }
    } else if |s| > 0 {
      var out := [x] + s;
      forall i, j | 0 <= i < j < |out| ensures out[i] < out[j] {
        assert out[j] == s[j - 1];
        if i > 0 { assert out[i] == s[i - 1]; }
      }
    }
  }

  /** Sorting distinct keys yields them strictly ascending, with the same members. */
  lemma {:induction false} SortKeysSorted(s: seq<int>)
    requires forall i, j :: 0 <= i < j < |s| ==> s[i] != s[j]
    ensures StrictlySorted(SortKeys(s))
    ensures forall y :: y in SortKeys(s) <==> y in s
    ensures |SortKeys(s)| == |s|
  {
    if |s| > 0 {
      SortKeysSorted(s[1..]);
      assert s[0] !in s[1..] by {
        forall j | 0 <= j < |s[1..]| ensures s[1..][j] != s[0] { assert s[1..][j] == s[j + 1]; }
      }
      InsertSorted(s[0], SortKeys(s[1..]));
      assert forall y :: y in s <==> y == s[0] || y in s[1..] by {
        assert s == [s[0]] + s[1..];
      }
    }
  }

  lemma EntryKeyIsKey(tl: seq<Entry>, e: Entry)
    requires e in tl
    ensures e.0 in Keys(tl)
  {
    var i :| 0 <= i < |tl| && tl[i] == e;
    assert Keys(tl)[i] == e.0;
  }

  lemma KeyHasEntry(tl: seq<Entry>, k: int)
    requires k in Keys(tl)
    ensures HasKey(tl, k)
  {
    var i :| 0 <= i < |Keys(tl)| && Keys(tl)[i] == k;
    assert tl[i].0 == k;
  }

  /** With distinct keys, an entry is determined by its key. */
  lemma LookupOfEntry(tl: seq<Entry>, e: Entry)
    requires UniqueKeys(tl) && e in tl
    ensures Lookup(tl, e.0) == Some(e.1)
  {
    var r := Lookup(tl, e.0);
    assert HasKey(tl, e.0) by { var i :| 0 <= i < |tl| && tl[i] == e; }
    var i :| 0 <= i < |tl| && tl[i] == e;
    var j :| 0 <= j < |tl| && tl[j] == (e.0, r.value);
    assert i == j;
  }

  /** The loop of sortTimeline: put every key, in sorted order, with its value in `copy`. */
  method Rebuild(copy: seq<Entry>, keys: seq<int>) returns (timeline: seq<Entry>)
    requires UniqueKeys(copy) && StrictlySorted(keys)
    requires forall y :: y in keys <==> y in Keys(copy)
    ensures |timeline| == |keys|
    ensures Ascending(timeline) && UniqueKeys(timeline) && SameEntries(timeline, copy)
  {
    timeline := [];
    var i := 0;
    while i < |keys|
      invariant 0 <= i <= |keys|
      invariant |timeline| == i
      invariant forall j :: 0 <= j < i ==> timeline[j].0 == keys[j]
      invariant forall j :: 0 <= j < i ==> Lookup(copy, keys[j]) == Some(timeline[j].1)
    {
      assert keys[i] in keys;
      KeyHasEntry(copy, keys[i]);
      var value := Lookup(copy, keys[i]).value;
      RebuildStep(keys, timeline, i);
      PutPlacement(timeline, keys[i], value);
      timeline := Put(timeline, keys[i], value);
      i := i + 1;
    }
    RebuildDone(copy, keys, timeline);
  }

  /** Appending the keys of a strictly sorted list one by one keeps keys distinct. */
  lemma RebuildStep(keys: seq<int>, tl: seq<Entry>, i: int)
    requires StrictlySorted(keys) && 0 <= i < |keys| && |tl| == i
    requires forall j :: 0 <= j < i ==> tl[j].0 == keys[j]
    ensures UniqueKeys(tl) && !HasKey(tl, keys[i])
  {
    forall a, b | 0 <= a < b < |tl| ensures tl[a].0 != tl[b].0 {
      assert keys[a] < keys[b];
    }
    forall j | 0 <= j < |tl| ensures tl[j].0 != keys[i] {
      assert keys[j] < keys[i];
    }
  }

  /** The rebuilt timeline is sorted and holds exactly the original entries. */
  lemma RebuildDone(copy: seq<Entry>, keys: seq<int>, tl: seq<Entry>)
    requires UniqueKeys(copy) && StrictlySorted(keys)
    requires forall y :: y in keys <==> y in Keys(copy)
    requires |tl| == |keys|
    requires forall j :: 0 <= j < |tl| ==> tl[j].0 == keys[j]
    requires forall j :: 0 <= j < |tl| ==> Lookup(copy, keys[j]) == Some(tl[j].1)
    ensures Ascending(tl) && UniqueKeys(tl) && SameEntries(tl, copy)
  {
    forall a, b | 0 <= a < b < |tl| ensures tl[a].0 < tl[b].0 {
      assert keys[a] < keys[b];
    }
    forall e ensures e in tl <==> e in copy {
      if e in tl {
        var j :| 0 <= j < |tl| && tl[j] == e;
        assert Lookup(copy, e.0) == Some(e.1);
      }
      if e in copy {
        EntryKeyIsKey(copy, e);
        var j :| 0 <= j < |keys| && keys[j] == e.0;
        LookupOfEntry(copy, e);
        assert tl[j] == e;
      }
    }
  }

  /** The AGE clear as written can discard an entry that was never reached: a timeline
    * holding only (10, IDLE), ticked at age 0, is cleared and the tick answers null. */
  lemma AgeClearDropsFutureEntry()
    ensures var tl := [(10, Idle)];
      AgeClearsAsWritten(tl, 0) && IsFloor(tl, 0, None) && (10, Idle) in tl && 10 > 0
  {
  }

  /** With the intended clear, an AGE timeline is never cleared while an entry lies ahead,
    * and that entry's own tick answers its activity. */
  lemma IntendedAgeClearReachesEveryEntry(tl: seq<Entry>, tick: int, e: Entry)
    requires UniqueKeys(tl) && e in tl && e.0 > tick
    ensures !AgeClearsIntended(tl, tick)
    ensures IsFloor(tl, e.0, Some(e.1))
  {
    forall e' | e' in tl && e'.0 <= e.0 && e' != e ensures e'.0 < e.0 {
      var i :| 0 <= i < |tl| && tl[i] == e;
      var j :| 0 <= j < |tl| && tl[j] == e';
      assert i != j;
      if i < j { assert tl[i].0 != tl[j].0; } else { assert tl[j].0 != tl[i].0; }
    }
  }

  // ---------------------------------------------------------------------

  /** The callback multimap: every key present holds at least one callback. */
  predicate CallbacksWellFormed(cbs: map<int, seq<CallbackId>>) {
    forall t :: t in cbs ==> |cbs[t]| > 0
  }

  function CallbacksAt(cbs: map<int, seq<CallbackId>>, t: int): seq<CallbackId> {
    if t in cbs then cbs[t] else []
  }

  /** ListMultimap.put: append under the key. */
  function AddCallback(cbs: map<int, seq<CallbackId>>, t: int, cb: CallbackId): map<int, seq<CallbackId>> {
    cbs[t := CallbacksAt(cbs, t) + [cb]]
  }

  class SmartBrainSchedule {
    const kind: ScheduleType
    var timeline: seq<Entry>
    var callbacks: map<int, seq<CallbackId>>
    var sortedTimeline: bool

    ghost predicate Valid()
      reads this
    {
      UniqueKeys(timeline) &&
      (sortedTimeline ==> Ascending(timeline)) &&
      CallbacksWellFormed(callbacks)
    }

    /** `new SmartBrainSchedule(type)`; the no-argument form passes DAYTIME. */
    constructor (kind: ScheduleType)
      ensures Valid()
      ensures this.kind == kind && timeline == [] && callbacks == map[] && sortedTimeline
    {
      this.kind := kind;
      timeline := [];
      callbacks := map[];
      sortedTimeline := true;
    }

    method ActivityAt(tick: int, activity: Activity)
      requires Valid()
      modifies this
      ensures Valid()
      ensures timeline == Put(old(timeline), tick, activity)
      ensures Lookup(timeline, tick) == Some(activity)
      ensures forall k :: k != tick ==> Lookup(timeline, k) == Lookup(old(timeline), k)
      ensures !sortedTimeline && callbacks == old(callbacks)
    {
      PutMapsKey(timeline, tick, activity);
      timeline := Put(timeline, tick, activity);
      sortedTimeline := false;
    }

    method DoAt(tick: int, callback: CallbackId)
      requires Valid()
      modifies this
      ensures Valid()
      ensures callbacks == AddCallback(old(callbacks), tick, callback)
      ensures CallbacksAt(callbacks, tick) == CallbacksAt(old(callbacks), tick) + [callback]
      ensures timeline == old(timeline) && sortedTimeline == old(sortedTimeline)
    {
      callbacks := AddCallback(callbacks, tick, callback);
    }

    /** scheduleTask: the callback is registered at the resolved delay tick. */
    method ScheduleTask(dayTime: int, tickCount: int, delay: int, callback: CallbackId)
      requires Valid()
      modifies this
      ensures Valid()
      ensures callbacks == AddCallback(old(callbacks), ResolveDelay(kind, dayTime, tickCount, delay), callback)
      ensures timeline == old(timeline) && sortedTimeline == old(sortedTimeline)
    {
      DoAt(ResolveDelay(kind, dayTime, tickCount, delay), callback);
    }

    method ClearSchedule()
      requires Valid()
      modifies this
      ensures Valid()
      ensures callbacks == map[] && timeline == [] && sortedTimeline == old(sortedTimeline)
    {
      callbacks := map[];
      timeline := [];
    }

    /** sortTimeline: rebuild the timeline in ascending key order. */
    method SortTimeline()
      requires Valid()
      modifies this
      ensures Valid()
      ensures sortedTimeline && Ascending(timeline)
      ensures SameEntries(timeline, old(timeline)) && |timeline| == |old(timeline)|
      ensures callbacks == old(callbacks)
    {
      var copy := timeline;
      SortKeysSorted(Keys(copy));
      var keys := SortKeys(Keys(copy));
      timeline := Rebuild(copy, keys);
      sortedTimeline := true;
    }

    /**
     * tick: run (and for AGE, drop) the callbacks at the resolved tick; then answer the
     * activity at the greatest timeline key not above it, sorting the timeline first.
     * An AGE timeline is cleared as soon as the scan reaches its last entry.
     */
    method Tick(dayTime: int, tickCount: int) returns (activity: Option<Activity>, ran: seq<CallbackId>)
      requires Valid()
      modifies this
      ensures Valid()
      ensures ran == CallbacksAt(old(callbacks), Resolve(kind, dayTime, tickCount))
      ensures callbacks == if kind == Age then old(callbacks) - {Resolve(kind, dayTime, tickCount)}
                           else old(callbacks)
      ensures old(timeline) == [] ==> activity.None? && timeline == [] &&
                                      sortedTimeline == old(sortedTimeline)
      ensures old(timeline) != [] ==> IsFloor(old(timeline), Resolve(kind, dayTime, tickCount), activity)
      ensures old(timeline) != [] ==>
        if kind == Age && AgeClearsAsWritten(old(timeline), Resolve(kind, dayTime, tickCount))
        then timeline == []
        else sortedTimeline && Ascending(timeline) && SameEntries(timeline, old(timeline))
    {
      var tick := Resolve(kind, dayTime, tickCount);
      ran := RunDueCallbacks(tick);
      activity := None;
      if timeline != [] {
        var index;
        index, activity := SortedFloor(tick);
        if kind == Age && index + 1 >= |timeline| {
          timeline := [];
        }
      }
    }

    /** The callbacks due at the resolved tick run; an AGE schedule then drops them. */
    method RunDueCallbacks(tick: int) returns (ran: seq<CallbackId>)
      requires Valid()
      modifies this`callbacks
      ensures Valid()
      ensures ran == CallbacksAt(old(callbacks), tick)
      ensures callbacks == if kind == Age then old(callbacks) - {tick} else old(callbacks)
    {
      ran := [];
      if callbacks != map[] {
        ran := CallbacksAt(callbacks, tick);
        if kind == Age {
          callbacks := callbacks - {tick};
        }
      } else {
        ran := CallbacksAt(callbacks, tick);
      }
    }

    /**
     * tick with the AGE clear corrected: the timeline is cleared only once the
     * resolved tick has reached its greatest key, so no entry is dropped
     * before its tick comes.
     */
    method TickIntended(dayTime: int, tickCount: int) returns (activity: Option<Activity>, ran: seq<CallbackId>)
      requires Valid()
      modifies this
      ensures Valid()
      ensures ran == CallbacksAt(old(callbacks), Resolve(kind, dayTime, tickCount))
      ensures callbacks == if kind == Age then old(callbacks) - {Resolve(kind, dayTime, tickCount)}
                           else old(callbacks)
      ensures old(timeline) == [] ==> activity.None? && timeline == [] &&
                                      sortedTimeline == old(sortedTimeline)
      ensures old(timeline) != [] ==> IsFloor(old(timeline), Resolve(kind, dayTime, tickCount), activity)
      ensures old(timeline) != [] ==>
        if kind == Age && AgeClearsIntended(old(timeline), Resolve(kind, dayTime, tickCount))
        then timeline == []
        else sortedTimeline && Ascending(timeline) && SameEntries(timeline, old(timeline))
    {
      var tick := Resolve(kind, dayTime, tickCount);
      ran := RunDueCallbacks(tick);
      activity := None;
      if timeline != [] {
        var index;
        index, activity := SortedFloor(tick);
        if kind == Age && timeline[|timeline| - 1].0 <= tick {
          timeline := [];
        }
      }
    }

    /**
     * The timeline sorted if it is not already, the activity at the floor of
     * the tick, and the index where tick's scan stopped. Whether the scan ended
     * on the last entry, and whether the last key has been reached, decide the
     * as-written and the intended AGE clear.
     */
    method SortedFloor(tick: int) returns (index: int, activity: Option<Activity>)
      requires Valid() && timeline != []
      modifies this
      ensures Valid() && sortedTimeline && Ascending(timeline) && |timeline| > 0
      ensures callbacks == old(callbacks)
      ensures SameEntries(timeline, old(timeline))
      ensures IsFloor(old(timeline), tick, activity)
      ensures index + 1 >= |timeline| <==> AgeClearsAsWritten(old(timeline), tick)
      ensures timeline[|timeline| - 1].0 <= tick <==> AgeClearsIntended(old(timeline), tick)
    {
      ghost var before := timeline;
      if !sortedTimeline {
        SortTimeline();
      }
      index, activity := ScanSorted(timeline, tick);
      FloorSameEntries(timeline, before, tick, activity);
      ClearSameEntries(timeline, before, tick);
      LastKeyReached(timeline, before, tick);
    }

    /**
     * getActivityAt: IDLE for AGE schedules; otherwise the activity held just before the
     * first key at or after the tick, in the timeline's current order.
     */
    method GetActivityAt(tick: int) returns (activity: Activity)
      requires Valid()
      ensures kind == Age ==> activity == Idle
      ensures kind == Daytime ==> activity == ActivityBefore(timeline, tick, Idle)
      ensures kind == Daytime && sortedTimeline ==>
                forall r :: IsFloor(timeline, tick - 1, r) ==> activity == GetOrElse(r, Idle)
    {
      if kind == Age {
        return Idle;
      }
      activity := Idle;
      var i := 0;
      while i < |timeline|
        invariant 0 <= i <= |timeline|
        invariant ActivityBefore(timeline, tick, Idle) == ActivityBefore(timeline[i..], tick, activity)
      {
        if timeline[i].0 >= tick {
          if sortedTimeline { ActivityBeforeSorted(timeline, tick); }
          return activity;
        }
        assert timeline[i..][1..] == timeline[i + 1..];
        activity := timeline[i].1;
        i := i + 1;
      }
      if sortedTimeline { ActivityBeforeSorted(timeline, tick); }
    }
  }

  /**
   * The scan inside tick over a sorted timeline: it stops at the first key at or above the
   * tick, taking that entry only on an exact match. Answers the floor of the tick, and the
   * index where the scan ended.
   */
  method ScanSorted(tl: seq<Entry>, tick: int) returns (index: int, activity: Option<Activity>)
    requires Ascending(tl) && |tl| > 0
    ensures -1 <= index < |tl|
    ensures IsFloor(tl, tick, activity)
    ensures index + 1 >= |tl| <==> AgeClearsAsWritten(tl, tick)
  {
    index := -1;
    activity := None;
    var i := 0;
    while i < |tl|
      invariant 0 <= i <= |tl| && index == i - 1
      invariant forall j :: 0 <= j < i ==> tl[j].0 < tick
      invariant activity == if i == 0 then None else Some(tl[i - 1].1)
    {
      index := index + 1;
      if tl[i].0 >= tick {
        if tl[i].0 == tick {
          activity := Some(tl[i].1);
        }
        break;
      }
      activity := Some(tl[i].1);
      i := i + 1;
    }
    // the entry holding the answer, if any
    var k := if index == |tl| - 1 && tl[index].0 < tick then index
             else if tl[index].0 == tick then index else index - 1;
    FloorAt(tl, tick, k, activity);
    ScanEnd(tl, tick, index);
  }

  /** Where the scan ends decides whether the AGE timeline is cleared as written. */
  lemma ScanEnd(tl: seq<Entry>, tick: int, index: int)
    requires Ascending(tl) && 0 <= index < |tl|
    requires forall j :: 0 <= j < index ==> tl[j].0 < tick
    requires index < |tl| - 1 ==> tl[index].0 >= tick
    ensures index + 1 >= |tl| <==> AgeClearsAsWritten(tl, tick)
  {
    if index + 1 >= |tl| {
      forall e, e' | e in tl && e' in tl && e.0 < e'.0 ensures e.0 < tick {
        var a :| 0 <= a < |tl| && tl[a] == e;
        var b :| 0 <= b < |tl| && tl[b] == e';
        if a == |tl| - 1 { assert false; }
      }
    } else {
      assert tl[index] in tl && tl[|tl| - 1] in tl;
      assert tl[index].0 < tl[|tl| - 1].0;
    }
  }

  /** On a sorted timeline whose keys up to index k are the ones at most `tick`, the floor is entry k. */
  lemma FloorAt(tl: seq<Entry>, tick: int, k: int, activity: Option<Activity>)
    requires Ascending(tl) && -1 <= k < |tl|
    requires forall j :: 0 <= j < |tl| ==> (tl[j].0 <= tick <==> j <= k)
    requires activity == if k < 0 then None else Some(tl[k].1)
    ensures IsFloor(tl, tick, activity)
  {
    if k < 0 {
      forall e | e in tl ensures e.0 > tick {
        var j :| 0 <= j < |tl| && tl[j] == e;
      }
    } else {
      forall e' | e' in tl && e'.0 <= tick ensures e'.0 <= tl[k].0 {
        var j :| 0 <= j < |tl| && tl[j] == e';
        if j < k { assert tl[j].0 < tl[k].0; }
      }
      assert tl[k] in tl && tl[k].0 <= tick;
    }
  }

  lemma FloorSameEntries(a: seq<Entry>, b: seq<Entry>, tick: int, r: Option<Activity>)
    requires SameEntries(a, b) && IsFloor(a, tick, r)
    ensures IsFloor(b, tick, r)
  {
    if r.Some? {
      var e :| e in a && e.0 <= tick && e.1 == r.value &&
               forall e' :: e' in a && e'.0 <= tick ==> e'.0 <= e.0;
      assert e in b;
    }
  }

  lemma ClearSameEntries(a: seq<Entry>, b: seq<Entry>, tick: int)
    requires SameEntries(a, b)
    ensures AgeClearsAsWritten(a, tick) <==> AgeClearsAsWritten(b, tick)
  {
  }

  /** On a sorted timeline every key has been reached exactly when the last one has. */
  lemma LastKeyReached(tl: seq<Entry>, before: seq<Entry>, tick: int)
    requires Ascending(tl) && |tl| > 0 && SameEntries(tl, before)
    ensures AgeClearsIntended(before, tick) <==> tl[|tl| - 1].0 <= tick
  {
    if tl[|tl| - 1].0 <= tick {
      forall e | e in before ensures e.0 <= tick {
        assert e in tl;
        var j :| 0 <= j < |tl| && tl[j] == e;
        if j < |tl| - 1 { assert tl[j].0 < tl[|tl| - 1].0; }
      }
    } else {
      assert tl[|tl| - 1] in tl;
      assert tl[|tl| - 1] in before;
    }
  }

  /**
   * As written, an AGE schedule holding only (10, IDLE) and ticked at age 0
   * answers null and is left with an empty timeline, so age 10 answers null too.
   */
  method AgeTickDropsFutureEntry() returns (atStart: Option<Activity>, atTen: Option<Activity>, left: seq<Entry>)
    ensures atStart == None && left == [] && atTen == None
  {
    var schedule := new SmartBrainSchedule(Age);
    schedule.ActivityAt(10, Idle);
    assert schedule.timeline == [(10, Idle)];
    AgeClearDropsFutureEntry();
    var ran;
    atStart, ran := schedule.Tick(0, 0);
    left := schedule.timeline;
    atTen, ran := schedule.Tick(0, 10);
  }

  /**
   * With the corrected clear, an AGE schedule holding only (10, IDLE) keeps
   * that entry when ticked at age 0, and answers IDLE at age 10.
   */
  method IntendedAgeKeepsFutureEntry() returns (atStart: Option<Activity>, atTen: Option<Activity>)
    ensures atStart == None && atTen == Some(Idle)
  {
    var schedule := new SmartBrainSchedule(Age);
    schedule.ActivityAt(10, Idle);
    assert schedule.timeline == [(10, Idle)];
    var ran;
    atStart, ran := schedule.TickIntended(0, 0);
    ghost var kept := schedule.timeline;
    assert (10, Idle) in kept;
    atTen, ran := schedule.TickIntended(0, 10);
    if atTen.Some? {
      ghost var e :| e in kept && e.0 <= 10 && e.1 == atTen.value;
    }
  }

}
