# SmartBrainLib core, modelled in Dafny

SmartBrainLib replaces the brain of Minecraft's mobs with one that is built from
behaviours, sensors and memories and is easier to extend. This project models
the library's core and proves properties of the model:

- **the brain** (`Brains`, `BrainRules`, `BehaviourTables`): the behaviour table
  of priority groups and activity lists; the start, tick and stop passes; the
  memory store with its expiry list; activity selection; and behaviour removal.
  The library ships three editions of `SmartBrain`: `src/` is the oldest,
  `Common/` the middle one and `common/` the current one. One class covers all
  three, and a constant edition selects the places where they differ.
- **the schedule** (`Schedules`): a tick-to-activity timeline plus tick-to-callback
  lists, resolved against the owner's day time or age.
- **building a brain** (`ActivityGroups`, `MemoryTests`, `Providers`):
  `BrainActivityGroup`, the `MemoryTest` builder,
  and `SmartBrainProvider`, which compiles an owner's task groups and derives
  the brain's memory list, cached per entity type.
- **brain utilities** (`BrainUtilities`): the static helpers of `BrainUtils`, as
  they act on a brain's memories, sensors and schedule.
- **behaviours** (`Behaviours`, `GroupBehaviours`, `Sequentials`, `Repeats`,
  `AllApplicable`, `TargetBehaviours`): the `ExtendedBehaviour` lifecycle with
  cooldown and run time; the delayed and held variants; the group combinators
  (one-of, sequential, repeatable, repeating, all-applicable); and three
  attack-target behaviours.
- **sensors** (`Sensors`, `PlayerSensors`, `NearestVisible`): the scan-rate limiter of
  `ExtendedSensor`, the unreachable-target sensor, the nearby-players and warden
  sensors, and the nearest-visible entity list.
- **utilities** (`EntityRetrieval`, `ShufflingLists`, `Navigation`,
  `RandomPositions`): the entity searches of `EntityRetrievalUtil`;
  `SBLShufflingList` and its iterators; the integer scans of the extended
  navigators; and the backported random-position helpers.

Whatever the game world decides is a parameter of the model, called an oracle
below. That covers a child behaviour's start and keep-running answers, collision
and line-of-sight tests, distances, suppliers, weights and random draws. Entities and
behaviours are known by identity. Java `int` wrap-around is written out where
the source relies on it (`Domain.WrapInt`), and so is Java's truncating `%`
(`Domain.JavaRem`). Floating-point values are modelled as reals.

Code that updates objects in place is modelled as classes with `modifies`
clauses: the brain, the behaviours, the sensors, the iterators, the navigation
and the provider's cache. Each of their methods is proved against a
specification function. The value-level rules are functions with lemmas.

## Model

| member | source | states |
|---|---|---|
| Domain.JavaRem | Common/src/main/java/net/tslat/smartbrainlib/api/core/schedule/SmartBrainSchedule.java:167 | Java's remainder on a long day time: the Euclidean remainder for a non-negative dividend, and a non-positive one above -24000 for a negative dividend |
| Domain.WrapInt | Common/src/main/java/net/tslat/smartbrainlib/api/core/schedule/SmartBrainSchedule.java:172 | int addition of the tick count and a delay wraps to the 32-bit range and is the plain sum inside it |
| Schedules.Resolve | Common/src/main/java/net/tslat/smartbrainlib/api/core/schedule/SmartBrainSchedule.java:167-172 | AGE resolves to the tick count; DAYTIME to a value strictly within one day of zero, and for a non-negative day time to the day time modulo 24000 |
| Schedules.DaytimeDelayWrapsDay | Common/src/main/java/net/tslat/smartbrainlib/api/core/schedule/SmartBrainSchedule.java:167 | a DAYTIME delay lands where the resolved tick, moved on by the delay, wraps to within the day |
| Schedules.AgeDelayIsLaterTick | Common/src/main/java/net/tslat/smartbrainlib/api/core/schedule/SmartBrainSchedule.java:172 | an AGE delay is the tick the owner reaches that many ticks later, never earlier, while no int overflow occurs |
| Schedules.Lookup | Common/src/main/java/net/tslat/smartbrainlib/api/core/schedule/SmartBrainSchedule.java:27 | the timeline map answers a value exactly for its keys, and the value answered is held under that key |
| Schedules.PutMapsKey | Common/src/main/java/net/tslat/smartbrainlib/api/core/schedule/SmartBrainSchedule.java:46-47 | putting a key maps it to the new activity, leaves every other key's activity alone and keeps keys distinct |
| Schedules.PutLookup | Common/src/main/java/net/tslat/smartbrainlib/api/core/schedule/SmartBrainSchedule.java:47 | after a put the key answers the new activity and every other key answers what it did before |
| Schedules.PutUnique | Common/src/main/java/net/tslat/smartbrainlib/api/core/schedule/SmartBrainSchedule.java:47 | a put keeps the timeline's keys distinct |
| Schedules.PutPlacement | Common/src/main/java/net/tslat/smartbrainlib/api/core/schedule/SmartBrainSchedule.java:47 | a put of a new key appends it at the end (insertion order); a put of a present key keeps the length |
| Schedules.PutKeys | Common/src/main/java/net/tslat/smartbrainlib/api/core/schedule/SmartBrainSchedule.java:47 | every entry after a put is the new key's or was there before |
| Schedules.ActivityBeforeSorted | Common/src/main/java/net/tslat/smartbrainlib/api/core/schedule/SmartBrainSchedule.java:143-158 | on a sorted timeline the scan answers the activity at the greatest key strictly below the tick, IDLE when there is none |
| Schedules.ActivityBeforePrefix | Common/src/main/java/net/tslat/smartbrainlib/api/core/schedule/SmartBrainSchedule.java:150-157 | the scan stops at the first key at or above the tick and answers the activity of the entry before it |
| Schedules.SortKeysSorted | Common/src/main/java/net/tslat/smartbrainlib/api/core/schedule/SmartBrainSchedule.java:131-133 | sorting the distinct keys yields them strictly ascending, with the same members and the same count |
| Schedules.InsertSorted | Common/src/main/java/net/tslat/smartbrainlib/api/core/schedule/SmartBrainSchedule.java:133 | inserting a new key into a strictly sorted key list keeps it strictly sorted and adds exactly that key |
| Schedules.LookupOfEntry | Common/src/main/java/net/tslat/smartbrainlib/api/core/schedule/SmartBrainSchedule.java:137 | with distinct keys, an entry's key looks up that entry's activity |
| Schedules.Rebuild | Common/src/main/java/net/tslat/smartbrainlib/api/core/schedule/SmartBrainSchedule.java:134-138 | putting every sorted key with its copied activity rebuilds a timeline that is ascending, has distinct keys and holds the same entries |
| Schedules.RebuildDone | Common/src/main/java/net/tslat/smartbrainlib/api/core/schedule/SmartBrainSchedule.java:134-138 | a timeline whose keys are the sorted keys and whose activities are the copy's is ascending and holds exactly the copy's entries |
| Schedules.AgeClearDropsFutureEntry | Common/src/main/java/net/tslat/smartbrainlib/api/core/schedule/SmartBrainSchedule.java:120-121 | a timeline holding only (10, IDLE) ticked at age 0 is cleared although its entry lies ahead, and the tick answers null |
| Schedules.IntendedAgeClearReachesEveryEntry | Common/src/main/java/net/tslat/smartbrainlib/api/core/schedule/SmartBrainSchedule.java:120-121 | with the corrected clear, a timeline is never cleared while an entry lies ahead, and that entry's own tick answers its activity |
| Schedules.SmartBrainSchedule.constructor | Common/src/main/java/net/tslat/smartbrainlib/api/core/schedule/SmartBrainSchedule.java:32-38 | a new schedule of the given type has an empty timeline, no callbacks, and counts as sorted |
| Schedules.SmartBrainSchedule.ActivityAt | Common/src/main/java/net/tslat/smartbrainlib/api/core/schedule/SmartBrainSchedule.java:46-52 | the tick maps to the activity, every other tick keeps its activity, the timeline is marked unsorted and the callbacks are unchanged |
| Schedules.SmartBrainSchedule.DoAt | Common/src/main/java/net/tslat/smartbrainlib/api/core/schedule/SmartBrainSchedule.java:60-64 | the callback is appended to those registered at the tick; the timeline is unchanged |
| Schedules.SmartBrainSchedule.ScheduleTask | Common/src/main/java/net/tslat/smartbrainlib/api/core/schedule/SmartBrainSchedule.java:72-74 | the callback is registered at the tick the delay resolves to for the schedule's type |
| Schedules.SmartBrainSchedule.ClearSchedule | Common/src/main/java/net/tslat/smartbrainlib/api/core/schedule/SmartBrainSchedule.java:79-82 | the timeline and the callbacks become empty; the sorted flag is untouched |
| Schedules.SmartBrainSchedule.SortTimeline | Common/src/main/java/net/tslat/smartbrainlib/api/core/schedule/SmartBrainSchedule.java:129-141 | the timeline becomes ascending with the same entries and length, and is marked sorted |
| Schedules.SmartBrainSchedule.Tick | Common/src/main/java/net/tslat/smartbrainlib/api/core/schedule/SmartBrainSchedule.java:90-127 | runs exactly the callbacks at the resolved tick and, for AGE, drops them; an empty timeline answers null; otherwise answers the activity at the greatest key not above the tick and leaves the timeline sorted, or, for AGE, clears it as soon as every key but the greatest is below the tick |
| Schedules.SmartBrainSchedule.RunDueCallbacks | Common/src/main/java/net/tslat/smartbrainlib/api/core/schedule/SmartBrainSchedule.java:93-98 | returns exactly the callbacks registered at the resolved tick; an AGE schedule drops them and a DAYTIME schedule keeps them |
| Schedules.SmartBrainSchedule.SortedFloor | Common/src/main/java/net/tslat/smartbrainlib/api/core/schedule/SmartBrainSchedule.java:100-118 | the timeline is sorted first when needed, keeps its entries, and the scan answers the activity at the greatest key not above the tick; where the scan stops decides the AGE clear |
| Schedules.SmartBrainSchedule.TickIntended | Common/src/main/java/net/tslat/smartbrainlib/api/core/schedule/SmartBrainSchedule.java:90-127 | the tick with the AGE clear corrected: the same callbacks and answer as `tick`, but an AGE timeline is cleared only once every key is at or below the tick |
| Schedules.LastKeyReached | Common/src/main/java/net/tslat/smartbrainlib/api/core/schedule/SmartBrainSchedule.java:120-121 | on a sorted timeline, every key has been reached exactly when its last key has |
| Schedules.AgeTickDropsFutureEntry | Common/src/main/java/net/tslat/smartbrainlib/api/core/schedule/SmartBrainSchedule.java:120-121 | as written, an AGE schedule holding only (10, IDLE), ticked at age 0, answers null, is emptied, and answers null again at age 10 |
| Schedules.IntendedAgeKeepsFutureEntry | Common/src/main/java/net/tslat/smartbrainlib/api/core/schedule/SmartBrainSchedule.java:120-121 | with the corrected tick, the same schedule answers null at age 0 and IDLE at age 10 |
| Schedules.SmartBrainSchedule.GetActivityAt | Common/src/main/java/net/tslat/smartbrainlib/api/core/schedule/SmartBrainSchedule.java:143-158 | IDLE for AGE; for DAYTIME, the activity before the first key at or after the tick in the timeline's current order, which on a sorted timeline is the activity at the greatest key below the tick |
| Schedules.ScanSorted | Common/src/main/java/net/tslat/smartbrainlib/api/core/schedule/SmartBrainSchedule.java:104-121 | the scan over a sorted timeline answers the floor of the tick (an exact match included) and ends at an index that triggers the AGE clear exactly when every key but the greatest is below the tick |
| Schedules.ScanEnd | Common/src/main/java/net/tslat/smartbrainlib/api/core/schedule/SmartBrainSchedule.java:120 | where the scan ends decides the AGE clear |
| Schedules.FloorAt | Common/src/main/java/net/tslat/smartbrainlib/api/core/schedule/SmartBrainSchedule.java:107-118 | on a sorted timeline the floor of the tick is the last entry whose key is at most the tick |
| BrainRules.PassAppend | common/src/main/java/net/tslat/smartbrainlib/api/core/SmartBrain.java:127-136 | a pass over two runs of behaviours is the pass over the second started from where the first ended, and hands over the first run's behaviours before the second's |
| BrainRules.PassClosedForm | common/src/main/java/net/tslat/smartbrainlib/api/core/SmartBrain.java:139-150 | after a pass a behaviour has the outcome status exactly when it was in the pass and started in the pass's status; it is handed over exactly then, so a later repeat of it changes nothing |
| BrainRules.StartPassFacts | common/src/main/java/net/tslat/smartbrainlib/api/core/SmartBrain.java:124-137 | exactly the STOPPED behaviours of the active activities' lists are tried, and a behaviour is RUNNING afterwards exactly when it was before or was tried and started |
| BrainRules.TickPassFacts | common/src/main/java/net/tslat/smartbrainlib/api/core/SmartBrain.java:139-150 | exactly the RUNNING behaviours are ticked, whatever their activity, and one stays RUNNING exactly when it keeps running |
| BrainRules.StartedIsTicked | common/src/main/java/net/tslat/smartbrainlib/api/core/SmartBrain.java:74-75 | a behaviour started by the start pass is ticked by the tick pass of the same brain tick |
| BrainRules.RunningMembers | common/src/main/java/net/tslat/smartbrainlib/api/core/SmartBrain.java:249-263 | the running list holds exactly the RUNNING behaviours of the table |
| BrainRules.RemovalStops | common/src/main/java/net/tslat/smartbrainlib/api/core/SmartBrain.java:340-345 | removal stops exactly the RUNNING behaviours it removes and leaves every other status alone |
| BrainRules.StopAllStops | common/src/main/java/net/tslat/smartbrainlib/api/core/SmartBrain.java:180-192 | stopAll stops every RUNNING behaviour of the table and leaves every other status alone |
| BrainRules.AddPairsSnoc | common/src/main/java/net/tslat/smartbrainlib/api/core/SmartBrain.java:284-286 | one more (priority, behaviour) pair is one more addBehaviour |
| BrainRules.AddPairsWellFormed | common/src/main/java/net/tslat/smartbrainlib/api/core/SmartBrain.java:303-322 | adding behaviours keeps the table well-formed: distinct priorities, and distinct activities within a priority |
| BrainRules.AddPairsPriorities | common/src/main/java/net/tslat/smartbrainlib/api/core/SmartBrain.java:303-322 | the priorities after adding behaviours are the old ones and those of the added pairs |
| BrainRules.TableAfterWellFormed | common/src/main/java/net/tslat/smartbrainlib/api/core/SmartBrain.java:58-62 | adding activity groups one by one keeps the table well-formed |
| BrainRules.RequirementsAfterLast | common/src/main/java/net/tslat/smartbrainlib/api/core/SmartBrain.java:279 | the last group of an activity decides its start requirements; every group's activity gets an entry and other activities keep theirs |
| BrainRules.Stored | common/src/main/java/net/tslat/smartbrainlib/api/core/SmartBrain.java:201-202 | a present empty collection is stored as an absent value; every other value is stored as it is |
| BrainRules.ListedAfterFacts | common/src/main/java/net/tslat/smartbrainlib/api/core/SmartBrain.java:206-207 | storing a value adds at most its type to the expiry list, and lists it afterwards exactly when it was listed before or an expiring value was stored; only the current edition keeps the list free of duplicates, the older ones append the type on every expiring store |
| BrainRules.Aged | common/src/main/java/net/tslat/smartbrainlib/api/core/SmartBrain.java:160-175 | an absent value stays absent, a non-expiring one is kept, an expired one is erased and any other has one tick less to live |
| BrainRules.Forget | common/src/main/java/net/tslat/smartbrainlib/api/core/SmartBrain.java:152-178 | forgetting keeps the set of registered types and never lengthens the expiry list |
| BrainRules.ForgetOutcome | common/src/main/java/net/tslat/smartbrainlib/api/core/SmartBrain.java:152-178 | with a duplicate-free expiry list every listed value is aged exactly once and every other value is untouched |
| BrainRules.ForgetKept | common/src/main/java/net/tslat/smartbrainlib/api/core/SmartBrain.java:154-177 | with a duplicate-free list, the list kept is the order-preserving filter of the types whose value is present, expiring and not yet expired |
| BrainRules.ForgetKeptFacts | common/src/main/java/net/tslat/smartbrainlib/api/core/SmartBrain.java:154-177 | the kept list is drawn in order from the old one, stays free of duplicates, and holds exactly the listed types whose value stays listed |
| BrainRules.ForgetKeepsRegistered | common/src/main/java/net/tslat/smartbrainlib/api/core/SmartBrain.java:152-178 | every type left on the expiry list after forgetting is still registered |
| BrainRules.ForgetTracksStep | common/src/main/java/net/tslat/smartbrainlib/api/core/SmartBrain.java:152-178 | a value left present and expiring after forgetting was kept on the list, or never was on it |
| BrainRules.ForgetTracks | common/src/main/java/net/tslat/smartbrainlib/api/core/SmartBrain.java:152-178 | forgetting preserves the invariant that every present, expiring memory is on the expiry list |
| BrainRules.StoreTracks | common/src/main/java/net/tslat/smartbrainlib/api/core/SmartBrain.java:199-208 | storing a value preserves the invariant that every present, expiring memory is on the expiry list, in every edition |
| BrainRules.LegacyStoreTwiceAgesTwice | Common/src/main/java/net/tslat/smartbrainlib/api/core/SmartBrain.java:162-170 | in the older editions a value stored twice with five ticks to live is listed twice and is down to three after one pass of forgetting |
| BrainRules.CurrentStoreTwiceAgesOnce | common/src/main/java/net/tslat/smartbrainlib/api/core/SmartBrain.java:206-207 | in the current edition a type stored twice is listed once, so one pass ages its value exactly once |
| BrainRules.CopyNeverForgets | common/src/main/java/net/tslat/smartbrainlib/api/core/SmartBrain.java:235-247 | the copy holds every present memory but lists none for expiry: a value with one tick to live is gone from the original after two passes but the copy's own passes never remove it |
| BrainRules.FirstValidIndex | common/src/main/java/net/tslat/smartbrainlib/api/core/SmartBrain.java:108-116 | the position of the first activity in priority order whose requirements are met, every earlier one failing; the list length when none is |
| BrainRules.FirstValid | common/src/main/java/net/tslat/smartbrainlib/api/core/SmartBrain.java:108-116 | the first activity in priority order whose requirements are met, or null exactly when no activity's requirements are met |
| BrainRules.Activated | common/src/main/java/net/tslat/smartbrainlib/api/core/SmartBrain.java:88 | after activating an activity it is active; an active one changes nothing, and otherwise only the core activities and it remain active |
| BrainRules.WipedFor | common/src/main/java/net/tslat/smartbrainlib/api/core/SmartBrain.java:282 | the memories wiped on switching to an activity are exactly those registered for every other active activity |
| BrainRules.Erase | common/src/main/java/net/tslat/smartbrainlib/api/core/SmartBrain.java:171 | erased types are registered as absent and every other type keeps its value |
| BrainRules.ActivationIdempotent | common/src/main/java/net/tslat/smartbrainlib/api/core/SmartBrain.java:97-98 | activating an activity twice is activating it once, for the active set and for the memories |
| BrainRules.Chosen | common/src/main/java/net/tslat/smartbrainlib/api/core/SmartBrain.java:84-106 | a schedule-ignoring first valid activity wins; then the scheduled activity when its requirements hold; then the first valid activity |
| BrainRules.ChosenIsValid | common/src/main/java/net/tslat/smartbrainlib/api/core/SmartBrain.java:84-106 | a chosen activity has its requirements met and is a prioritised or the scheduled one; none is chosen exactly when the scheduled one fails and no prioritised one is valid |
| BehaviourTables.PriorityIndex | common/src/main/java/net/tslat/smartbrainlib/api/core/SmartBrain.java:304-305 | the first group with the priority, every earlier group having another; the table length when there is none |
| BehaviourTables.ActivityIndex | common/src/main/java/net/tslat/smartbrainlib/api/core/SmartBrain.java:306-307 | the first list for the activity, every earlier list being for another; the list count when there is none |
| BehaviourTables.PriorityIndexAppend | common/src/main/java/net/tslat/smartbrainlib/api/core/SmartBrain.java:320 | appending a group leaves an existing priority's position alone and makes a new priority findable at the end |
| BehaviourTables.ActivityIndexAppend | common/src/main/java/net/tslat/smartbrainlib/api/core/SmartBrain.java:314 | appending a list leaves an existing activity's position alone and makes a new activity findable at the end |
| BehaviourTables.AddBehaviourWellFormed | common/src/main/java/net/tslat/smartbrainlib/api/core/SmartBrain.java:303-322 | adding a behaviour keeps at most one group per priority and one list per activity within a group |
| BehaviourTables.AddBehaviourAppends | common/src/main/java/net/tslat/smartbrainlib/api/core/SmartBrain.java:303-322 | the behaviour is appended to what is registered under its priority and activity |
| BehaviourTables.AddBehaviourKeepsOtherPriorities | common/src/main/java/net/tslat/smartbrainlib/api/core/SmartBrain.java:303-322 | the lists of every other priority are left as they were |
| BehaviourTables.AddBehaviourKeepsOtherActivities | common/src/main/java/net/tslat/smartbrainlib/api/core/SmartBrain.java:306-314 | the other activities' lists of the same priority are left as they were |
| BehaviourTables.OtherActivityList | common/src/main/java/net/tslat/smartbrainlib/api/core/SmartBrain.java:306-314 | adding to one activity's list, or appending a list for it, leaves the lookup of every other activity as it was |
| BehaviourTables.AddBehaviourPriorities | common/src/main/java/net/tslat/smartbrainlib/api/core/SmartBrain.java:303-322 | a group is created exactly when the priority had none, so the priorities become the old ones plus this one |
| BehaviourTables.InsertByPriorityMultiset | common/src/main/java/net/tslat/smartbrainlib/api/core/SmartBrain.java:70 | inserting a group into the sorted run adds exactly that group |
| BehaviourTables.InsertByPriorityLower | common/src/main/java/net/tslat/smartbrainlib/api/core/SmartBrain.java:70 | inserting never puts a priority below a bound the group and the table respect |
| BehaviourTables.InsertByPrioritySorted | common/src/main/java/net/tslat/smartbrainlib/api/core/SmartBrain.java:70 | inserting into a table sorted by priority keeps it sorted |
| BehaviourTables.InsertByPriorityWellFormed | common/src/main/java/net/tslat/smartbrainlib/api/core/SmartBrain.java:70 | inserting a group with a new priority keeps the table well-formed |
| BehaviourTables.SortByPriorityFacts | common/src/main/java/net/tslat/smartbrainlib/api/core/SmartBrain.java:69-70 | the sort yields the same groups, as many, ordered by priority, and keeps a well-formed table well-formed |
| BehaviourTables.SortByPrioritySorted | common/src/main/java/net/tslat/smartbrainlib/api/core/SmartBrain.java:70 | the sorted table is ordered by priority |
| BehaviourTables.SortByPriorityPermutes | common/src/main/java/net/tslat/smartbrainlib/api/core/SmartBrain.java:70 | the sorted table is a permutation of the groups |
| BehaviourTables.SortByPriorityWellFormed | common/src/main/java/net/tslat/smartbrainlib/api/core/SmartBrain.java:70 | sorting keeps a well-formed table well-formed |
| BehaviourTables.PriorityIndexFinds | common/src/main/java/net/tslat/smartbrainlib/api/core/SmartBrain.java:304-305 | in a well-formed table the lookup by priority finds the group itself |
| BehaviourTables.SameGroupsSameBehaviours | common/src/main/java/net/tslat/smartbrainlib/api/core/SmartBrain.java:304-307 | two well-formed tables holding the same groups register the same behaviours under every priority and activity |
| BehaviourTables.SortKeepsBehaviours | common/src/main/java/net/tslat/smartbrainlib/api/core/SmartBrain.java:69-70 | sorting never changes which behaviours are registered under any priority and activity |
| BehaviourTables.SelectedMembers | common/src/main/java/net/tslat/smartbrainlib/api/core/SmartBrain.java:127-134 | a behaviour is visited by a walk of the table exactly when it sits in a list the walk accepts |
| BehaviourTables.GroupSelectedMembers | common/src/main/java/net/tslat/smartbrainlib/api/core/SmartBrain.java:128-134 | a behaviour is visited in a group exactly when it sits in one of the group's accepted lists |
| BehaviourTables.ListSelectedMembers | common/src/main/java/net/tslat/smartbrainlib/api/core/SmartBrain.java:130-133 | a behaviour is visited in a list exactly when the list is accepted and holds it |
| BehaviourTables.Ids | common/src/main/java/net/tslat/smartbrainlib/api/core/SmartBrain.java:255 | the identities of a list's behaviours, in order |
| BehaviourTables.ListSelectedListsIn | common/src/main/java/net/tslat/smartbrainlib/api/core/SmartBrain.java:129-130 | a list whose activity is accepted contributes all its behaviours in order; one that is not, none |
| BehaviourTables.PruneNodeClean | common/src/main/java/net/tslat/smartbrainlib/api/core/SmartBrain.java:382-402 | whatever survives removal keeps its identity and holds no behaviour the predicate matches and no emptied composite |
| BehaviourTables.PruneListClean | common/src/main/java/net/tslat/smartbrainlib/api/core/SmartBrain.java:387-389 | the children left in a composite are all clean |
| BehaviourTables.PruneNodeIdentity | common/src/main/java/net/tslat/smartbrainlib/api/core/SmartBrain.java:382-402 | removing from a tree that holds nothing to remove changes nothing |
| BehaviourTables.PruneListIdentity | common/src/main/java/net/tslat/smartbrainlib/api/core/SmartBrain.java:387-389 | removing from a clean child list changes nothing |
| BehaviourTables.PruneIdempotent | common/src/main/java/net/tslat/smartbrainlib/api/core/SmartBrain.java:330-349 | removing with the same predicate a second time removes nothing more |
| BehaviourTables.PruneGroup | common/src/main/java/net/tslat/smartbrainlib/api/core/SmartBrain.java:331-347 | removal keeps a group's priority and its lists' activities, in place |
| BehaviourTables.PruneTable | common/src/main/java/net/tslat/smartbrainlib/api/core/SmartBrain.java:331-347 | removal keeps every group in place |
| BehaviourTables.PruneTableWellFormed | common/src/main/java/net/tslat/smartbrainlib/api/core/SmartBrain.java:330-349 | removal never breaks the table's shape |
| BehaviourTables.PruneTopClean | common/src/main/java/net/tslat/smartbrainlib/api/core/SmartBrain.java:337-345 | every top-level behaviour left after removal is clean |
| BehaviourTables.LegacyPruneNodeAgrees | Common/src/main/java/net/tslat/smartbrainlib/api/core/SmartBrain.java:313-331 | the middle edition throws UnsupportedOperationException exactly when removal would take a child out of a gate, and otherwise removes as the current edition does |
| BehaviourTables.LegacyPruneListAgrees | Common/src/main/java/net/tslat/smartbrainlib/api/core/SmartBrain.java:318-320 | over a composite's children the middle edition throws exactly when a gate loses a child, and otherwise leaves the same children |
| BehaviourTables.LegacyGateRemovalThrows | Common/src/main/java/net/tslat/smartbrainlib/api/core/SmartBrain.java:318-320 | a gate of two leaves asked to lose one throws in the middle edition and is left as it was, where the current edition leaves the other leaf |
| BehaviourTables.NodeIndex | src/main/java/net/tslat/smartbrainlib/api/core/SmartBrain.java:280 | the first behaviour with the identity, every earlier one differing; the list length when there is none |
| BehaviourTables.WithoutBehaviourWellFormed | src/main/java/net/tslat/smartbrainlib/api/core/SmartBrain.java:274-294 | removing one behaviour keeps the table well-formed |
| BehaviourTables.WithoutBehaviourRemovesFirst | src/main/java/net/tslat/smartbrainlib/api/core/SmartBrain.java:274-294 | the list under the priority and activity loses exactly its first occurrence of the behaviour, and nothing when it holds none |
| BehaviourTables.WithoutBehaviourRemovesAtMostOne | src/main/java/net/tslat/smartbrainlib/api/core/SmartBrain.java:279-284 | at most one behaviour leaves the table: one copy exactly when the list held it |
| BehaviourTables.WithoutBehaviourKeepsOthers | src/main/java/net/tslat/smartbrainlib/api/core/SmartBrain.java:274-294 | every other priority and activity list is left as it was |
| ActivityGroups.PairPriorities | common/src/main/java/net/tslat/smartbrainlib/api/core/BrainActivityGroup.java:87-96 | the counting loop pairs each behaviour, in order, with the start priority plus its position, computed with Java's wrapping int increment |
| ActivityGroups.PairedConsecutive | common/src/main/java/net/tslat/smartbrainlib/api/core/BrainActivityGroup.java:88-93 | without overflow the priorities are consecutive from the start priority |
| ActivityGroups.PairedWraps | common/src/main/java/net/tslat/smartbrainlib/api/core/BrainActivityGroup.java:92 | past Integer.MAX_VALUE the next priority wraps to Integer.MIN_VALUE |
| ActivityGroups.BrainActivityGroup.constructor | common/src/main/java/net/tslat/smartbrainlib/api/core/BrainActivityGroup.java:24-26 | a new group for the activity has start priority 0, no behaviours, no start conditions and no wipe set |
| ActivityGroups.BrainActivityGroup.Priority | common/src/main/java/net/tslat/smartbrainlib/api/core/BrainActivityGroup.java:28-32 | sets the start priority and returns the same group |
| ActivityGroups.BrainActivityGroup.Behaviours | common/src/main/java/net/tslat/smartbrainlib/api/core/BrainActivityGroup.java:34-38 | appends the behaviours, in order, to the existing ones and returns the same group |
| ActivityGroups.BrainActivityGroup.OnlyStartWithMemoryStatus | common/src/main/java/net/tslat/smartbrainlib/api/core/BrainActivityGroup.java:40-44 | adds the (memory, status) start condition to the set and returns the same group |
| ActivityGroups.BrainActivityGroup.WipeMemoriesWhenFinished | common/src/main/java/net/tslat/smartbrainlib/api/core/BrainActivityGroup.java:46-55 | the wipe set becomes the union of every call's memories, created on the first call |
| ActivityGroups.BrainActivityGroup.RequireAndWipeMemoriesOnUse | common/src/main/java/net/tslat/smartbrainlib/api/core/BrainActivityGroup.java:57-65 | each memory becomes a VALUE_PRESENT start condition and a wiped memory |
| ActivityGroups.BrainActivityGroup.WipedMemoriesOnFinish | common/src/main/java/net/tslat/smartbrainlib/api/core/BrainActivityGroup.java:83-85 | the wipe set, empty when nothing was ever added |
| ActivityGroups.BrainActivityGroup.PairBehaviourPriorities | common/src/main/java/net/tslat/smartbrainlib/api/core/BrainActivityGroup.java:87-96 | the pairs are the behaviours with consecutive wrapping priorities from the start priority |
| ActivityGroups.BrainActivityGroup.Compiled | common/src/main/java/net/tslat/smartbrainlib/api/core/BrainActivityGroup.java:67-96 | the group as the brain reads it: its activity, start conditions, paired behaviours and wipe set |
| ActivityGroups.RequireAndWipeTwiceIsOnce | common/src/main/java/net/tslat/smartbrainlib/api/core/BrainActivityGroup.java:57-65 | calling requireAndWipeMemoriesOnUse twice with the same memories leaves the conditions and the wipe set as one call does, and the behaviours and priority untouched |
| ActivityGroups.Empty | common/src/main/java/net/tslat/smartbrainlib/api/core/BrainActivityGroup.java:98-100 | an empty REST group with start priority 0 and nothing registered |
| ActivityGroups.CoreTasks | common/src/main/java/net/tslat/smartbrainlib/api/core/BrainActivityGroup.java:103-105 | a CORE group with start priority 0 holding the behaviours, with no conditions and nothing wiped |
| ActivityGroups.IdleTasks | common/src/main/java/net/tslat/smartbrainlib/api/core/BrainActivityGroup.java:108-110 | an IDLE group with start priority 10 holding the behaviours, with no conditions and nothing wiped |
| ActivityGroups.FightTasks | common/src/main/java/net/tslat/smartbrainlib/api/core/BrainActivityGroup.java:113-115 | a FIGHT group with start priority 10 holding the behaviours, which needs an attack target to start and wipes it when the activity ends |
| Brains.PassList | common/src/main/java/net/tslat/smartbrainlib/api/core/SmartBrain.java:130-133 | the innermost loop of a status pass over one list equals the pass specification on that list's visited behaviours |
| Brains.PassGroup | common/src/main/java/net/tslat/smartbrainlib/api/core/SmartBrain.java:128-134 | the middle loop over one priority group's lists equals the pass specification on the group |
| Brains.PassTable | common/src/main/java/net/tslat/smartbrainlib/api/core/SmartBrain.java:127-136 | a status pass over the whole table, groups then lists then behaviours, equals the pass specification |
| Brains.CollectList | common/src/main/java/net/tslat/smartbrainlib/api/core/SmartBrain.java:255-258 | collects the chosen behaviours of one list, in order |
| Brains.CollectGroup | common/src/main/java/net/tslat/smartbrainlib/api/core/SmartBrain.java:254-259 | collects the chosen behaviours of a group's lists, in order |
| Brains.CollectTable | common/src/main/java/net/tslat/smartbrainlib/api/core/SmartBrain.java:253-260 | collects the chosen behaviours of the whole table, in the brain's iteration order |
| Brains.RemoveFromList | common/src/main/java/net/tslat/smartbrainlib/api/core/SmartBrain.java:337-345 | the innermost removal loop keeps exactly what pruning keeps and stops each RUNNING behaviour it takes out |
| Brains.RemoveFromGroup | common/src/main/java/net/tslat/smartbrainlib/api/core/SmartBrain.java:334-346 | removal over a group's lists keeps what pruning keeps and stops what the pass stops |
| Brains.LegacyRemoveFromList | Common/src/main/java/net/tslat/smartbrainlib/api/core/SmartBrain.java:299-308 | the middle edition's loop over one list: finishes exactly when no behaviour's walk throws, then keeps what pruning keeps; a throw leaves earlier behaviours pruned, the throwing one as far as its walk got and the rest untouched; only the RUNNING behaviours removed before the throw are stopped |
| Brains.LegacyRemoveFromGroup | Common/src/main/java/net/tslat/smartbrainlib/api/core/SmartBrain.java:296-309 | the same over a group's lists: earlier lists pruned, the throwing list as left, later lists untouched, and the stops of the walk up to the throw |
| Brains.LegacyRemoveFromTable | Common/src/main/java/net/tslat/smartbrainlib/api/core/SmartBrain.java:292-311 | the same over the whole table: earlier groups pruned, the throwing group as left, later groups untouched, and the stops of the walk up to the throw |
| BehaviourTables.LegacyRemovalThrows | Common/src/main/java/net/tslat/smartbrainlib/api/core/SmartBrain.java:313-331 | the middle edition's walk over a table throws exactly when some top-level behaviour has a gate below it that would lose a child |
| BehaviourTables.LegacyLeftTableWellFormed | Common/src/main/java/net/tslat/smartbrainlib/api/core/SmartBrain.java:292-311 | a table left by a throw keeps every group's priority and one list per activity, so the brain stays well formed |
| Brains.RemoveFromTable | common/src/main/java/net/tslat/smartbrainlib/api/core/SmartBrain.java:331-348 | removal over the whole table keeps what pruning keeps and stops what the pass stops |
| Brains.FindGroup | common/src/main/java/net/tslat/smartbrainlib/api/core/SmartBrain.java:304-305 | the first group with the priority, or the table length |
| Brains.FindList | common/src/main/java/net/tslat/smartbrainlib/api/core/SmartBrain.java:306-307 | the first list for the activity, or the list count |
| Brains.FindBehaviour | src/main/java/net/tslat/smartbrainlib/api/core/SmartBrain.java:279-280 | the first behaviour with the identity, or the list length |
| Brains.ForgetOne | common/src/main/java/net/tslat/smartbrainlib/api/core/SmartBrain.java:157-176 | one turn of the forgetting loop: an absent, non-expiring or expired value leaves the list (an expired one erased), any other is ticked and stays; no empty collection appears |
| Brains.ForgetLoop | common/src/main/java/net/tslat/smartbrainlib/api/core/SmartBrain.java:154-177 | the iterator loop over the expiry list ends with the memories and kept list the forgetting specification gives |
| Brains.CopyPresent | common/src/main/java/net/tslat/smartbrainlib/api/core/SmartBrain.java:239-244 | putting every present value into a map of the same types, all registered empty, yields the original memories |
| Brains.SmartBrain.constructor | common/src/main/java/net/tslat/smartbrainlib/api/core/SmartBrain.java:51-63 | the brain has the memory types registered empty, the sensors, no expiry list and the table, requirements and wipe sets after adding every group; the oldest edition adds each behaviour at consecutive priorities and records no conditions; the sort flag is up once any priority exists |
| Brains.SmartBrain.AddTaskList | src/main/java/net/tslat/smartbrainlib/api/core/SmartBrain.java:47-53 | the constructor's loop over the groups: the table, requirements and wipe sets as each group added in order makes them, and the sort flag raised exactly when a new priority appeared |
| Brains.SmartBrain.AddBehaviour | common/src/main/java/net/tslat/smartbrainlib/api/core/SmartBrain.java:303-322 | the behaviour joins its priority and activity list, the priorities gain this one, and the sort flag is raised exactly when the priority is new |
| Brains.SmartBrain.AddActivityAndRemoveMemoriesWhenStopped | common/src/main/java/net/tslat/smartbrainlib/api/core/SmartBrain.java:277-287 | the activity's requirements are replaced, its wipe set recorded only when non-empty, and each pair added in order |
| Brains.SmartBrain.AddBehaviours | common/src/main/java/net/tslat/smartbrainlib/api/core/SmartBrain.java:284-286 | each pair, in order, is added with addBehaviour |
| Brains.SmartBrain.AddActivity | common/src/main/java/net/tslat/smartbrainlib/api/core/SmartBrain.java:292-294 | the group's activity, prioritised behaviours, start conditions and wipe set reach the brain |
| Brains.SmartBrain.CheckForNewBehaviours | common/src/main/java/net/tslat/smartbrainlib/api/core/SmartBrain.java:124-137 | tries to start every STOPPED behaviour of an active activity, in table order, as the start pass specifies |
| Brains.SmartBrain.TickRunningBehaviours | common/src/main/java/net/tslat/smartbrainlib/api/core/SmartBrain.java:139-150 | ticks every RUNNING behaviour whatever its activity, as the tick pass specifies |
| Brains.SmartBrain.StopAll | common/src/main/java/net/tslat/smartbrainlib/api/core/SmartBrain.java:180-192 | every RUNNING behaviour is stopped |
| Brains.SmartBrain.GetRunningBehaviors | common/src/main/java/net/tslat/smartbrainlib/api/core/SmartBrain.java:249-263 | the RUNNING behaviours, in table order |
| Brains.SmartBrain.RemoveAllBehaviors | common/src/main/java/net/tslat/smartbrainlib/api/core/SmartBrain.java:272-275 | the table becomes empty |
| Brains.SmartBrain.RemoveBehaviour | common/src/main/java/net/tslat/smartbrainlib/api/core/SmartBrain.java:330-349 | the table becomes its pruned form and each removed RUNNING behaviour is stopped; in the middle edition it throws UnsupportedOperationException exactly when some gate would lose a child, leaving the table as the walk left it and having stopped only the behaviours removed before the throw |
| Brains.SmartBrain.RemoveBehaviourAt | src/main/java/net/tslat/smartbrainlib/api/core/SmartBrain.java:274-294 | the oldest edition's removal drops the first matching behaviour of the first priority group's first activity list |
| Brains.SmartBrain.SetMemoryInternal | common/src/main/java/net/tslat/smartbrainlib/api/core/SmartBrain.java:199-208 | the value is stored (an empty collection as absent) and the expiry list updated per edition, keeping every present, expiring memory listed |
| Brains.SmartBrain.GetMemory | common/src/main/java/net/tslat/smartbrainlib/api/core/SmartBrain.java:194-197 | an unknown type is registered empty, and the answer is the value held, if any |
| Brains.SmartBrain.IsMemoryValue | common/src/main/java/net/tslat/smartbrainlib/api/core/SmartBrain.java:210-215 | true exactly when the memory holds a value equal to the given one |
| Brains.SmartBrain.ForgetOutdatedMemories | common/src/main/java/net/tslat/smartbrainlib/api/core/SmartBrain.java:152-178 | the memories and expiry list become what the forgetting specification gives, keeping every present, expiring memory listed |
| Brains.SmartBrain.FindAndSetActiveActivity | common/src/main/java/net/tslat/smartbrainlib/api/core/SmartBrain.java:84-106 | a schedule-ignoring first valid activity wins without ticking the schedule; otherwise the schedule is ticked, running its callbacks, and its activity taken when its requirements hold; otherwise the first valid activity |
| Brains.SmartBrain.Tick | common/src/main/java/net/tslat/smartbrainlib/api/core/SmartBrain.java:65-82 | sorts the groups when the flag is up, forgets outdated memories, runs the start pass then the tick pass, then chooses the activity (by the schedule in the current edition, by the first valid activity in the older ones) |
| Brains.SmartBrain.TickBehaviours | common/src/main/java/net/tslat/smartbrainlib/api/core/SmartBrain.java:69-75 | the sort, forgetting and the two status passes, in order |
| Brains.SmartBrain.ForgetAndPass | common/src/main/java/net/tslat/smartbrainlib/api/core/SmartBrain.java:72-75 | forgetting, then the start pass, then the tick pass |
| Brains.SmartBrain.RunPasses | common/src/main/java/net/tslat/smartbrainlib/api/core/SmartBrain.java:74-75 | the start pass, then the tick pass over the statuses it left |
| Brains.SmartBrain.SortBehaviours | common/src/main/java/net/tslat/smartbrainlib/api/core/SmartBrain.java:69-70 | with the flag up the groups are sorted by priority, as a permutation; otherwise unchanged |
| Brains.SmartBrain.ChooseActivity | Common/src/main/java/net/tslat/smartbrainlib/api/core/SmartBrain.java:72 | the current edition uses findAndSetActiveActivity; the older ones choose the first valid activity and never tick a schedule |
| Brains.SmartBrain.CopyWithoutBehaviors | common/src/main/java/net/tslat/smartbrainlib/api/core/SmartBrain.java:235-247 | a fresh brain with the same memories and sensors, no behaviours and no schedule, whose expiry list is empty |
| Brains.SmartBrain.CopyWithoutBehaviorsTracked | common/src/main/java/net/tslat/smartbrainlib/api/core/SmartBrain.java:235-247 | the corrected copy stores every present value through setMemoryInternal, so every expiring value stays listed |
| Brains.SmartBrain.StorePresent | common/src/main/java/net/tslat/smartbrainlib/api/core/SmartBrain.java:239-244 | storing every present value through setMemoryInternal yields the original memories with every listed type present and expiring |
| Brains.SmartBrain.SetSchedule | common/src/main/java/net/tslat/smartbrainlib/api/core/SmartBrain.java:356-360 | the brain's schedule becomes the given one |
| Brains.SmartBrain.ScheduleTask | common/src/main/java/net/tslat/smartbrainlib/api/core/SmartBrain.java:375-380 | an existing schedule gains the callback at the resolved delay; with none, a fresh DAYTIME schedule is created holding only that callback |
| Brains.SmartBrain.AddSensor | common/src/main/java/net/tslat/smartbrainlib/api/core/SmartBrain.java:436-440 | the sensor is appended to the brain's sensors |
| Brains.SmartBrain.EraseMemory | common/src/main/java/net/tslat/smartbrainlib/api/core/SmartBrain.java:171 | the memory is stored absent and the expiry list is untouched |
| Brains.SmartBrain.SetCoreActivities | common/src/main/java/net/tslat/smartbrainlib/api/core/SmartBrainProvider.java:120 | the core activities become the given set |
| Brains.SmartBrain.SetDefaultActivity | common/src/main/java/net/tslat/smartbrainlib/api/core/SmartBrainProvider.java:121 | the default activity becomes the given one |
| Brains.SmartBrain.UseDefaultActivity | common/src/main/java/net/tslat/smartbrainlib/api/core/SmartBrainProvider.java:122 | switches to the default activity, wiping the memories of the activities it leaves |
| Brains.SmartBrain.SetActiveActivity | common/src/main/java/net/tslat/smartbrainlib/api/core/SmartBrain.java:88 | switching to an inactive activity wipes the memories of every other active activity and leaves exactly the core activities plus the new one active |
| Brains.SmartBrain.SetActiveActivityToFirstValid | Common/src/main/java/net/tslat/smartbrainlib/api/core/SmartBrain.java:72 | switches to the first activity of the priority list whose requirements hold, if any |
| BrainUtilities.Cleared | Common/src/main/java/net/tslat/smartbrainlib/util/BrainUtils.java:243-247 | every listed type ends registered with no value; every other type is kept as it was |
| BrainUtilities.Registering | Common/src/main/java/net/tslat/smartbrainlib/util/BrainUtils.java:484-497 | every held value is kept, each unknown listed type is registered empty, and nothing else appears |
| BrainUtilities.ClearedAbsent | Common/src/main/java/net/tslat/smartbrainlib/util/BrainUtils.java:243-247 | after clearMemories every listed memory answers VALUE_ABSENT and not VALUE_PRESENT, and holds nothing |
| BrainUtilities.ClearedIdempotent | Common/src/main/java/net/tslat/smartbrainlib/util/BrainUtils.java:243-247 | clearing the same memories twice is clearing them once |
| BrainUtilities.RegisteredKeepsValues | Common/src/main/java/net/tslat/smartbrainlib/util/BrainUtils.java:484-497 | registering changes no value any query sees, and every listed type answers REGISTERED |
| BrainUtilities.MemoryOrDefault | Common/src/main/java/net/tslat/smartbrainlib/util/BrainUtils.java:60-62 | the value held, or the fallback when none is; the type becomes registered |
| BrainUtilities.GetMemory | Common/src/main/java/net/tslat/smartbrainlib/util/BrainUtils.java:86-88 | null exactly when no value is held, otherwise that value; the type becomes registered |
| BrainUtilities.HasMemory | Common/src/main/java/net/tslat/smartbrainlib/util/BrainUtils.java:131-133 | true exactly when a value is held |
| BrainUtilities.SetMemory | Common/src/main/java/net/tslat/smartbrainlib/util/BrainUtils.java:177-179 | stores a never-expiring value (an empty collection reads as absent) and leaves the expiry list as it was |
| BrainUtilities.SetForgettableMemory | Common/src/main/java/net/tslat/smartbrainlib/util/BrainUtils.java:203-205 | stores a value expiring after the given ticks and lists the type for expiry when the value is present and can expire |
| BrainUtilities.ClearMemory | Common/src/main/java/net/tslat/smartbrainlib/util/BrainUtils.java:223-225 | erases one memory and leaves the expiry list alone |
| BrainUtilities.ClearMemories | Common/src/main/java/net/tslat/smartbrainlib/util/BrainUtils.java:243-247 | erases exactly the listed memories and touches no other |
| BrainUtilities.AddMemories | Common/src/main/java/net/tslat/smartbrainlib/util/BrainUtils.java:484-497 | registers each listed type without changing any value |
| BrainUtilities.GetTargetOfEntity | Common/src/main/java/net/tslat/smartbrainlib/util/BrainUtils.java:268-270 | the ATTACK_TARGET value when held, else the fallback entity, else null |
| BrainUtilities.SetTargetOfEntity | Common/src/main/java/net/tslat/smartbrainlib/util/BrainUtils.java:291-301 | a Mob gets the target as its own target too; null clears ATTACK_TARGET, an entity is stored there, and nothing else changes |
| BrainUtilities.AddSensor | Common/src/main/java/net/tslat/smartbrainlib/util/BrainUtils.java:466-480 | a sensor that is not an extended sensor throws IllegalArgumentException and adds nothing; an extended one is appended |
| BrainUtilities.AddScheduledActivityTransition | Common/src/main/java/net/tslat/smartbrainlib/util/BrainUtils.java:505-513 | a schedule of the given type is created only when the brain has none; either way the schedule then maps the tick to the activity and nothing else of the brain changes |
| MemoryTests.Tagged | common/src/main/java/net/tslat/smartbrainlib/object/MemoryTest.java:54-60 | a plural call's pairs: one per argument, in argument order, each with the call's status |
| MemoryTests.TaggedMet | common/src/main/java/net/tslat/smartbrainlib/object/MemoryTest.java:54-60 | the conditions a plural call adds hold exactly when every named memory has that status |
| MemoryTests.AppendMet | common/src/main/java/net/tslat/smartbrainlib/object/MemoryTest.java:110-114 | appending conditions keeps the earlier ones in force: the list is met exactly when both parts are |
| MemoryTests.SizedBuilder | common/src/main/java/net/tslat/smartbrainlib/object/MemoryTest.java:14-26 | builder(size) throws IllegalArgumentException exactly when the capacity is negative, as ObjectArrayList(int) does; otherwise it gives a fresh, empty list |
| MemoryTests.Builder | common/src/main/java/net/tslat/smartbrainlib/object/MemoryTest.java:34-36 | builder() passes the default capacity 10, so it never throws, and starts a fresh, empty list |
| MemoryTests.MemoryTest.Add | common/src/main/java/net/tslat/smartbrainlib/object/MemoryTest.java:110-114 | appends exactly one pair, keeps every earlier one (duplicates included) and returns the same list |
| MemoryTests.MemoryTest.HasMemory | common/src/main/java/net/tslat/smartbrainlib/object/MemoryTest.java:44-46 | appends one VALUE_PRESENT pair and returns the same list |
| MemoryTests.MemoryTest.NoMemory | common/src/main/java/net/tslat/smartbrainlib/object/MemoryTest.java:68-70 | appends one VALUE_ABSENT pair and returns the same list |
| MemoryTests.MemoryTest.UsesMemory | common/src/main/java/net/tslat/smartbrainlib/object/MemoryTest.java:92-94 | appends one REGISTERED pair and returns the same list |
| MemoryTests.MemoryTest.AddEach | common/src/main/java/net/tslat/smartbrainlib/object/MemoryTest.java:54-60 | the plural forms' loop appends one pair per argument, in order |
| MemoryTests.MemoryTest.HasMemories | common/src/main/java/net/tslat/smartbrainlib/object/MemoryTest.java:54-60 | appends one VALUE_PRESENT pair per argument, in order |
| MemoryTests.MemoryTest.HasNoMemories | common/src/main/java/net/tslat/smartbrainlib/object/MemoryTest.java:78-84 | appends one VALUE_ABSENT pair per argument, in order |
| MemoryTests.MemoryTest.UsesMemories | common/src/main/java/net/tslat/smartbrainlib/object/MemoryTest.java:102-108 | appends one REGISTERED pair per argument, in order |
| Providers.TaskMemoriesLeaves | common/src/main/java/net/tslat/smartbrainlib/api/core/SmartBrainProvider.java:89-99 | a task contributes exactly the entry-condition memories of the leaf behaviours beneath it; gates and groups add none of their own |
| Providers.NodesMemoriesMembers | common/src/main/java/net/tslat/smartbrainlib/api/core/SmartBrainProvider.java:89-99 | a list of tasks contributes exactly its members' memories |
| Providers.ListsMemoriesMembers | common/src/main/java/net/tslat/smartbrainlib/api/core/SmartBrainProvider.java:80-84 | the groups contribute exactly their lists' memories |
| Providers.SensorsMemoriesMembers | common/src/main/java/net/tslat/smartbrainlib/api/core/SmartBrainProvider.java:85-86 | the sensors contribute exactly the memories each one uses |
| Providers.MemoryListMembers | common/src/main/java/net/tslat/smartbrainlib/api/core/SmartBrainProvider.java:80-87 | a type is on the memory list exactly when some leaf of some group names it, or some sensor uses it; the list is a set, so it holds no duplicates |
| Providers.ParentMemories | common/src/main/java/net/tslat/smartbrainlib/api/core/SmartBrainProvider.java:92-96 | a gate or group's memories are its children's |
| Providers.CollectMemoriesFromTask | common/src/main/java/net/tslat/smartbrainlib/api/core/SmartBrainProvider.java:89-99 | the recursive walk adds exactly a task node's memories to the set being filled |
| Providers.BehaviourLists | common/src/main/java/net/tslat/smartbrainlib/api/core/SmartBrainProvider.java:83-84 | the behaviour lists of the groups, one per group, in order |
| Providers.CreateMemoryList | common/src/main/java/net/tslat/smartbrainlib/api/core/SmartBrainProvider.java:80-87 | the loops over groups, behaviours and sensors compute the memory list |
| Providers.IfNonEmpty | common/src/main/java/net/tslat/smartbrainlib/api/core/SmartBrainProvider.java:104-112 | a group is kept exactly when it has behaviours |
| Providers.NonStaticBypassesCache | common/src/main/java/net/tslat/smartbrainlib/api/core/SmartBrainProvider.java:63-71 | with per-instance memories the computed list is used and the cache is left as it was |
| Providers.CachedListReused | common/src/main/java/net/tslat/smartbrainlib/api/core/SmartBrainProvider.java:63-71 | after one static lookup the next one for that entity type reuses the cached list, whatever it would compute |
| Providers.CacheTouchesOneType | common/src/main/java/net/tslat/smartbrainlib/api/core/SmartBrainProvider.java:68-69 | a lookup caches at most its own type and changes no other entry |
| Providers.BrainMemoryCache.constructor | common/src/main/java/net/tslat/smartbrainlib/api/core/SmartBrainProvider.java:32 | the cache starts empty |
| Providers.SmartBrainProvider.constructor | common/src/main/java/net/tslat/smartbrainlib/api/core/SmartBrainProvider.java:50-55 | the provider records its owner and the per-instance memories flag |
| Providers.SmartBrainProvider.CompileTasks | common/src/main/java/net/tslat/smartbrainlib/api/core/SmartBrainProvider.java:101-117 | core, idle and fight groups each appear exactly when they have behaviours, before every additional group, which follow in order |
| Providers.SmartBrainProvider.BrainMemories | common/src/main/java/net/tslat/smartbrainlib/api/core/SmartBrainProvider.java:62-71 | the memory list read from or written to the cache as the per-instance flag decides |
| Providers.SmartBrainProvider.MakeBrain | common/src/main/java/net/tslat/smartbrainlib/api/core/SmartBrainProvider.java:58-77 | a fresh current-edition brain with the (possibly cached) memory list registered empty, the compiled table, the owner's sensors and schedule, and the default activity active beside the core ones; the brain is handed once to the owner's setup hook |
| Providers.SmartBrainProvider.NewBrain | common/src/main/java/net/tslat/smartbrainlib/api/core/SmartBrainProvider.java:73-75 | construction then finalisation give the brain that configuration, and the new brain is the one handed to the owner's setup hook |
| Providers.SmartBrainProvider.FinaliseBrain | common/src/main/java/net/tslat/smartbrainlib/api/core/SmartBrainProvider.java:119-125 | core activities, default activity (made active) and schedule come from the owner; memories, table and sensors are untouched; the brain is appended to the calls of the owner's `handleAdditionalBrainSetup` hook |
| Behaviours.EntryConditionOf | src/main/java/net/tslat/smartbrainlib/core/behaviour/ExtendedBehaviour.java:37-43 | the entry-condition map has exactly the types the requirement list names |
| Behaviours.EntryConditionLastWins | src/main/java/net/tslat/smartbrainlib/core/behaviour/ExtendedBehaviour.java:40-42 | a type named more than once keeps the status of its last occurrence |
| Behaviours.EntryConditionExact | src/main/java/net/tslat/smartbrainlib/core/behaviour/ExtendedBehaviour.java:40-42 | with no repeated types the map holds exactly the listed pairs |
| Behaviours.ExtendedBehaviour.constructor | src/main/java/net/tslat/smartbrainlib/core/behaviour/ExtendedBehaviour.java:33-43 | a stopped behaviour whose entry conditions come from its requirements, with runtime 60, cooldown 0 and no timestamps |
| Behaviours.ExtendedBehaviour.RunFor | src/main/java/net/tslat/smartbrainlib/core/behaviour/ExtendedBehaviour.java:78-82 | the runtime provider becomes the given one and the behaviour itself is returned |
| Behaviours.ExtendedBehaviour.CooldownFor | src/main/java/net/tslat/smartbrainlib/core/behaviour/ExtendedBehaviour.java:92-96 | the cooldown provider becomes the given one and the behaviour itself is returned |
| Behaviours.ExtendedBehaviour.HasRequiredMemories | src/main/java/net/tslat/smartbrainlib/core/behaviour/ExtendedBehaviour.java:210-220 | true exactly when every memory requirement holds; true for none |
| Behaviours.ExtendedBehaviour.TryStart | src/main/java/net/tslat/smartbrainlib/core/behaviour/ExtendedBehaviour.java:98-109 | starts exactly when the cooldown has passed, every requirement holds and the extra conditions pass; then RUNNING until now plus a sampled runtime, with the start callback run once; otherwise nothing changes |
| Behaviours.ExtendedBehaviour.Stop | src/main/java/net/tslat/smartbrainlib/core/behaviour/ExtendedBehaviour.java:156-163 | the cooldown ends a sampled number of ticks from now and the stop callback runs once |
| Behaviours.ExtendedBehaviour.DoStop | src/main/java/net/tslat/smartbrainlib/core/behaviour/ExtendedBehaviour.java:156-163 | the behaviour becomes STOPPED and its stop hook runs |
| Behaviours.ExtendedBehaviour.TimedOut | src/main/java/net/tslat/smartbrainlib/core/behaviour/ExtendedBehaviour.java:104 | timed out exactly once the game time passes the end timestamp set at start |
| Behaviours.ExtendedBehaviour.CanStillUse | src/main/java/net/tslat/smartbrainlib/core/behaviour/ExtendedBehaviour.java:182-185 | never still usable unless a subclass says otherwise |
| Behaviours.ExtendedBehaviour.TickOrStop | src/main/java/net/tslat/smartbrainlib/core/behaviour/ExtendedBehaviour.java:182-199 | a usable, unexpired behaviour ticks; any other stops, with its cooldown set |
| Behaviours.RestartAtStopTick | src/main/java/net/tslat/smartbrainlib/core/behaviour/ExtendedBehaviour.java:98-109 | with the default cooldown of 0, a behaviour stopped at a tick may start again at that tick, decided by its memory requirements alone |
| Behaviours.DelayedBehaviour.constructor | src/main/java/net/tslat/smartbrainlib/api/core/behaviour/DelayedBehaviour.java:19-23 | the delay is recorded, the timer is disarmed and the runtime is max(delay, 60) |
| Behaviours.DelayedBehaviour.TryStart | src/main/java/net/tslat/smartbrainlib/api/core/behaviour/DelayedBehaviour.java:36-47 | the base start rule; a positive delay arms the timer for now plus the delay, otherwise the delayed action runs at once |
| Behaviours.DelayedBehaviour.Stop | src/main/java/net/tslat/smartbrainlib/api/core/behaviour/DelayedBehaviour.java:49-54 | the base stop, then the timer is disarmed |
| Behaviours.DelayedBehaviour.CanStillUse | src/main/java/net/tslat/smartbrainlib/api/core/behaviour/DelayedBehaviour.java:56-59 | still usable until the tick the timer fires, inclusive |
| Behaviours.DelayedBehaviour.Tick | src/main/java/net/tslat/smartbrainlib/api/core/behaviour/DelayedBehaviour.java:61-69 | the base tick hook runs on every tick; from the timer's tick on, the action and then the callback run too |
| Behaviours.DelayedBehaviour.TickOrStop | src/main/java/net/tslat/smartbrainlib/api/core/behaviour/DelayedBehaviour.java:56-69 | the vanilla tick-or-stop step with the delayed canStillUse: a tick runs the action when due; a stop disarms the timer |
| Behaviours.DelayFiresOnTime | src/main/java/net/tslat/smartbrainlib/api/core/behaviour/DelayedBehaviour.java:36-69 | a delayed behaviour started with a positive delay is still running when the delay has passed, and that tick runs the action |
| Behaviours.HeldBehaviour.constructor | common/src/main/java/net/tslat/smartbrainlib/api/core/behaviour/HeldBehaviour.java:17-19 | a stopped behaviour over a fresh ExtendedBehaviour with the given requirements and cooldown 0, its counter at 0 |
| Behaviours.HeldBehaviour.ShouldKeepRunning | common/src/main/java/net/tslat/smartbrainlib/api/core/behaviour/HeldBehaviour.java:38-41 | always keeps running |
| Behaviours.HeldBehaviour.TimedOut | common/src/main/java/net/tslat/smartbrainlib/api/core/behaviour/HeldBehaviour.java:17-19 | never times out |
| Behaviours.HeldBehaviour.TryStart | common/src/main/java/net/tslat/smartbrainlib/api/core/behaviour/HeldBehaviour.java:43-48 | starts exactly when the base behaviour would; a start runs the base start hook and puts the counter back to 0, and a refusal changes neither |
| Behaviours.HeldBehaviour.Tick | common/src/main/java/net/tslat/smartbrainlib/api/core/behaviour/HeldBehaviour.java:50-58 | the base tick hook runs; a false answer from the consumer ends in doStop, which marks the behaviour stopped, starts the cooldown at gameTime plus the sampled cooldown and runs the stop callback; the counter advances by one either way, wrapping as a Java int |
| Behaviours.HeldRestartAfterCooldown | common/src/main/java/net/tslat/smartbrainlib/api/core/behaviour/HeldBehaviour.java:54-57 | after the consumer answers false at a tick, the behaviour can start again at a later tick exactly when the cooldown has run out and its requirements hold, and a restart resets the counter |
| GroupBehaviours.GroupBehaviour.constructor | common/src/main/java/net/tslat/smartbrainlib/api/core/behaviour/GroupBehaviour.java:35-44 | every child joins the list with weight 1, in argument order, none of them running |
| GroupBehaviours.GroupBehaviour.GetStatus | common/src/main/java/net/tslat/smartbrainlib/api/core/behaviour/GroupBehaviour.java:103-109 | STOPPED with no running child, otherwise the running child's status |
| GroupBehaviours.GroupBehaviour.ShouldKeepRunning | common/src/main/java/net/tslat/smartbrainlib/api/core/behaviour/GroupBehaviour.java:72-75 | keeps running exactly when a child runs and can still be used |
| GroupBehaviours.GroupBehaviour.TimedOut | common/src/main/java/net/tslat/smartbrainlib/api/core/behaviour/GroupBehaviour.java:77-80 | timed out with no running child, otherwise exactly when that child has timed out |
| GroupBehaviours.GroupBehaviour.Stop | common/src/main/java/net/tslat/smartbrainlib/api/core/behaviour/GroupBehaviour.java:93-101 | the base stop, then the running child's stop hook, and no child runs afterwards |
| GroupBehaviours.GroupBehaviour.Tick | common/src/main/java/net/tslat/smartbrainlib/api/core/behaviour/GroupBehaviour.java:82-91 | ticks the running child; once that child has stopped it is cleared before the group stops, so its stop hook is not called again |
| Sequentials.SequentialBehaviour.constructor | Forge/src/main/java/net/tslat/smartbrainlib/api/core/behaviour/SequentialBehaviour.java:19-30 | the children in order, none running, and the index at the first one |
| Sequentials.SequentialBehaviour.Pick | Forge/src/main/java/net/tslat/smartbrainlib/api/core/behaviour/SequentialBehaviour.java:67-88 | only the child at the index is tried, and not at all past the end or when a child runs and the early-reset predicate holds for it; on success it runs and the index moves on by one; otherwise nothing changes |
| Sequentials.SequentialBehaviour.DoStartCheck | common/src/main/java/net/tslat/smartbrainlib/api/core/behaviour/GroupBehaviour.java:64-70 | the base checks, then the picked child becomes the running one; starts exactly when both succeed |
| Sequentials.SequentialBehaviour.ShouldKeepRunning | Forge/src/main/java/net/tslat/smartbrainlib/api/core/behaviour/SequentialBehaviour.java:45-48 | keeps running exactly when a running child is not stopped |
| Sequentials.SequentialBehaviour.TimedOut | Forge/src/main/java/net/tslat/smartbrainlib/api/core/behaviour/SequentialBehaviour.java:50-53 | timed out with no running child; otherwise only once that child has timed out and no child is left |
| Sequentials.SequentialBehaviour.Stop | Forge/src/main/java/net/tslat/smartbrainlib/api/core/behaviour/SequentialBehaviour.java:90-95 | the group's stop, and the sequence restarts from its first child |
| Sequentials.SequentialBehaviour.Tick | Forge/src/main/java/net/tslat/smartbrainlib/api/core/behaviour/SequentialBehaviour.java:55-65 | as written: ticks the running child; once it stops the next child is tried; when none starts the sequence stops with the finished child still set, so its stop hook runs a second time |
| Sequentials.SequentialBehaviour.TickClearingFinished | Forge/src/main/java/net/tslat/smartbrainlib/api/core/behaviour/SequentialBehaviour.java:55-65 | the corrected tick clears the finished child before stopping, so each child's stop hook runs once |
| Sequentials.SoleChildStoppedTwice | Forge/src/main/java/net/tslat/smartbrainlib/api/core/behaviour/SequentialBehaviour.java:55-65 | a sole child that stops on its first tick has its stop hook called again by the group |
| Sequentials.SoleChildStoppedOnce | common/src/main/java/net/tslat/smartbrainlib/api/core/behaviour/GroupBehaviour.java:82-91 | with the corrected tick the same run calls the child's stop hook only from its own tick |
| Sequentials.PositionAfter | Common/src/main/java/net/tslat/smartbrainlib/api/core/behaviour/SequentialBehaviour.java:47-60 | the position after the first occurrence of the last-run child, when that is not the final child |
| Sequentials.NextPosition | Common/src/main/java/net/tslat/smartbrainlib/api/core/behaviour/SequentialBehaviour.java:40-60 | the scan tries the first child when nothing ran last, and never a position past the list |
| Sequentials.NextPositionDistinct | Common/src/main/java/net/tslat/smartbrainlib/api/core/behaviour/SequentialBehaviour.java:47-60 | over distinct children the scan tries the child after the last-run one, and none after the last |
| Sequentials.PositionAfterAt | Common/src/main/java/net/tslat/smartbrainlib/api/core/behaviour/SequentialBehaviour.java:47-60 | a scan meeting the first occurrence at i, before the end, tries position i + 1 |
| Sequentials.LastRunSequentialBehaviour.EffectiveLast | Common/src/main/java/net/tslat/smartbrainlib/api/core/behaviour/SequentialBehaviour.java:40-45 | the scan starts from no last run when the early-reset predicate holds for it |
| Sequentials.LastRunSequentialBehaviour.constructor | Common/src/main/java/net/tslat/smartbrainlib/api/core/behaviour/SequentialBehaviour.java:17-26 | the children in order, none running and no last run |
| Sequentials.LastRunSequentialBehaviour.Pick | Common/src/main/java/net/tslat/smartbrainlib/api/core/behaviour/SequentialBehaviour.java:37-65 | at most one child is tried, the one after the last run; on success it becomes the last run; with no such child the last run is reset and nothing is tried |
| Sequentials.LastRunSequentialBehaviour.DoStartCheck | common/src/main/java/net/tslat/smartbrainlib/api/core/behaviour/GroupBehaviour.java:64-70 | the base checks, then the picked child becomes the running one and the last run |
| Repeats.RepeatableBehaviour.constructor | Common/src/main/java/net/tslat/smartbrainlib/api/core/behaviour/RepeatableBehaviour.java:17-28 | the children in order, none running, and both repeat counters at 0 |
| Repeats.RepeatableBehaviour.Repeat | Common/src/main/java/net/tslat/smartbrainlib/api/core/behaviour/RepeatableBehaviour.java:42-46 | the repeat limit becomes the given count and the behaviour itself is returned |
| Repeats.RepeatableBehaviour.Pick | Common/src/main/java/net/tslat/smartbrainlib/api/core/behaviour/RepeatableBehaviour.java:77-92 | nothing once the count has reached the limit; otherwise child 0 (an empty list throws), tried only when the repeat predicate holds; a start makes it the running child and counts one repeat, never beyond the limit |
| Repeats.RepeatableBehaviour.DoStartCheck | common/src/main/java/net/tslat/smartbrainlib/api/core/behaviour/GroupBehaviour.java:64-70 | the base checks, then the pick; the exception of an empty list propagates |
| Repeats.RepeatableBehaviour.ShouldKeepRunning | Common/src/main/java/net/tslat/smartbrainlib/api/core/behaviour/RepeatableBehaviour.java:55-58 | keeps running exactly when a running child is not stopped |
| Repeats.RepeatableBehaviour.TimedOut | Common/src/main/java/net/tslat/smartbrainlib/api/core/behaviour/RepeatableBehaviour.java:60-63 | timed out with no running child; otherwise only once that child has timed out and no repeat is left |
| Repeats.RepeatableBehaviour.Stop | Common/src/main/java/net/tslat/smartbrainlib/api/core/behaviour/RepeatableBehaviour.java:94-98 | the group's stop, and the repeat count starts over |
| Repeats.RepeatableBehaviour.Tick | Common/src/main/java/net/tslat/smartbrainlib/api/core/behaviour/RepeatableBehaviour.java:65-75 | as written: ticks the running child; once it stops a repeat is tried; when none starts the group stops with the finished child still set, so its stop hook runs a second time |
| Repeats.RepeatableBehaviour.TickClearingFinished | Common/src/main/java/net/tslat/smartbrainlib/api/core/behaviour/RepeatableBehaviour.java:65-75 | the corrected tick clears the finished child before stopping, so its stop hook runs once |
| Repeats.DefaultNeverStarts | Common/src/main/java/net/tslat/smartbrainlib/api/core/behaviour/RepeatableBehaviour.java:17-20 | with the default limit of 0 the behaviour never starts and never asks a child |
| Repeats.RepeatingBehaviour.constructor | common/src/main/java/net/tslat/smartbrainlib/api/core/behaviour/RepeatingBehaviour.java:27-37 | the wrapper takes its child's requirements as entry conditions and the default repeat count Integer.MAX_VALUE |
| Repeats.RepeatingBehaviour.RepeatNTimes | common/src/main/java/net/tslat/smartbrainlib/api/core/behaviour/RepeatingBehaviour.java:64-66 | the repeat count becomes n, so the child runs n + 1 times, and the behaviour itself is returned |
| Repeats.RepeatingBehaviour.DoStartCheck | common/src/main/java/net/tslat/smartbrainlib/api/core/behaviour/RepeatingBehaviour.java:82-85 | the base checks and then a successful child start; the child is not asked when the base fails |
| Repeats.RepeatingBehaviour.Start | common/src/main/java/net/tslat/smartbrainlib/api/core/behaviour/RepeatingBehaviour.java:87-92 | the start callback runs and the repeats come from the provider |
| Repeats.RepeatingBehaviour.TryStart | common/src/main/java/net/tslat/smartbrainlib/api/core/behaviour/RepeatingBehaviour.java:82-92 | starts exactly when the base checks and the child both succeed, then with the provided repeats; otherwise nothing changes |
| Repeats.RepeatingBehaviour.CanStillUse | common/src/main/java/net/tslat/smartbrainlib/api/core/behaviour/RepeatingBehaviour.java:94-97 | usable exactly when no stop condition holds and the child still runs or a repeat is left |
| Repeats.RepeatingBehaviour.Tick | common/src/main/java/net/tslat/smartbrainlib/api/core/behaviour/RepeatingBehaviour.java:99-111 | the base tick hook runs; then a running child is ticked; a stopped one is restarted only while repeats remain and the repeat predicate holds, and a restart spends one repeat |
| Repeats.RepeatingBehaviour.Stop | common/src/main/java/net/tslat/smartbrainlib/api/core/behaviour/RepeatingBehaviour.java:113-119 | the cooldown and stop callback, and a child still running is stopped too |
| Repeats.OneRepeatRunsTwice | common/src/main/java/net/tslat/smartbrainlib/api/core/behaviour/RepeatingBehaviour.java:64-66 | one repeat runs the child twice, then the wrapper can no longer be used |
| AllApplicable.LastStartedAt | common/src/main/java/net/tslat/smartbrainlib/api/core/behaviour/AllApplicableBehaviours.java:30-39 | the position of the last listed child that starts, none exactly when no child starts |
| AllApplicable.TickedAt | common/src/main/java/net/tslat/smartbrainlib/api/core/behaviour/AllApplicableBehaviours.java:65-79 | after the tick loop a child has stopped exactly when it is listed, was running and did not keep going; nothing else changes |
| AllApplicable.StoppedAllAt | common/src/main/java/net/tslat/smartbrainlib/api/core/behaviour/AllApplicableBehaviours.java:82-92 | after the stop loop no listed child runs; the others are as they were |
| AllApplicable.TickCallsAreRunning | common/src/main/java/net/tslat/smartbrainlib/api/core/behaviour/AllApplicableBehaviours.java:65-75 | exactly the listed children running when the tick began are ticked |
| AllApplicable.StopCallsAreRunning | common/src/main/java/net/tslat/smartbrainlib/api/core/behaviour/AllApplicableBehaviours.java:82-91 | exactly the listed children that were running are stopped |
| AllApplicable.NothingToStop | common/src/main/java/net/tslat/smartbrainlib/api/core/behaviour/AllApplicableBehaviours.java:82-92 | the stop loop changes nothing when no listed child runs |
| AllApplicable.AllApplicableBehaviours.constructor | common/src/main/java/net/tslat/smartbrainlib/api/core/behaviour/AllApplicableBehaviours.java:24-26 | the children in order, none running |
| AllApplicable.AllApplicableBehaviours.TryAll | common/src/main/java/net/tslat/smartbrainlib/api/core/behaviour/AllApplicableBehaviours.java:30-39 | every child is asked to start, in order, and each that starts is running |
| AllApplicable.AllApplicableBehaviours.Pick | common/src/main/java/net/tslat/smartbrainlib/api/core/behaviour/AllApplicableBehaviours.java:30-39 | returns the last child that started, or none when none did |
| AllApplicable.AllApplicableBehaviours.DoStartCheck | common/src/main/java/net/tslat/smartbrainlib/api/core/behaviour/GroupBehaviour.java:64-70 | the base checks, then it succeeds exactly when some child started |
| AllApplicable.AllApplicableBehaviours.ForgePick | Forge/src/main/java/net/tslat/smartbrainlib/api/core/behaviour/AllApplicableBehaviours.java:33-40 | every child is asked to start and none is reported |
| AllApplicable.AllApplicableBehaviours.ForgeDoStartCheck | Forge/src/main/java/net/tslat/smartbrainlib/api/core/behaviour/AllApplicableBehaviours.java:24-30 | its own cooldown, memory, start-condition and extra checks, then the pick, so it never succeeds even when children started |
| AllApplicable.AllApplicableBehaviours.GetStatus | common/src/main/java/net/tslat/smartbrainlib/api/core/behaviour/AllApplicableBehaviours.java:94-102 | RUNNING exactly when some child runs |
| AllApplicable.AllApplicableBehaviours.ShouldKeepRunning | common/src/main/java/net/tslat/smartbrainlib/api/core/behaviour/AllApplicableBehaviours.java:41-50 | keeps running exactly when some running child can still be used |
| AllApplicable.AllApplicableBehaviours.TimedOut | common/src/main/java/net/tslat/smartbrainlib/api/core/behaviour/AllApplicableBehaviours.java:52-62 | timed out exactly when every running child has timed out, so with none running |
| AllApplicable.AllApplicableBehaviours.StopChildren | common/src/main/java/net/tslat/smartbrainlib/api/core/behaviour/AllApplicableBehaviours.java:84-91 | every listed child still running is stopped through its doStop, in order |
| AllApplicable.AllApplicableBehaviours.Stop | common/src/main/java/net/tslat/smartbrainlib/api/core/behaviour/AllApplicableBehaviours.java:81-92 | the cooldown and stop callback, and afterwards no child runs |
| AllApplicable.AllApplicableBehaviours.TickChildren | common/src/main/java/net/tslat/smartbrainlib/api/core/behaviour/AllApplicableBehaviours.java:66-75 | each listed child still running is ticked, in order; the answer is whether any kept running |
| AllApplicable.AllApplicableBehaviours.Tick | common/src/main/java/net/tslat/smartbrainlib/api/core/behaviour/AllApplicableBehaviours.java:64-79 | every running child is ticked; when none still runs the group stops |
| AllApplicable.ForgeStartedChildUnreported | Forge/src/main/java/net/tslat/smartbrainlib/api/core/behaviour/AllApplicableBehaviours.java:24-40 | a single child that starts: the Forge start check reports failure although the group's status is RUNNING |
| AllApplicable.StartedChildReported | common/src/main/java/net/tslat/smartbrainlib/api/core/behaviour/AllApplicableBehaviours.java:30-39 | the same child under the common edition's check: the start is reported |
| ShufflingLists.RemoveAt | Common/src/main/java/net/tslat/smartbrainlib/object/SBLShufflingList.java:60-62 | removing index i keeps the elements before i, shifts the rest down by one and loses exactly that one element |
| ShufflingLists.EntriesOf | Common/src/main/java/net/tslat/smartbrainlib/object/SBLShufflingList.java:26-32 | one weighted entry per pair, in the order given |
| ShufflingLists.ShufflingList.constructor | Common/src/main/java/net/tslat/smartbrainlib/object/SBLShufflingList.java:18-20 | a new list is empty |
| ShufflingLists.ShufflingList.FromPairs | Common/src/main/java/net/tslat/smartbrainlib/object/SBLShufflingList.java:26-32 | the pair constructor holds one entry per pair, in order |
| ShufflingLists.ShufflingList.Add | Common/src/main/java/net/tslat/smartbrainlib/object/SBLShufflingList.java:41-43 | appends exactly one entry with its weight and reports success |
| ShufflingLists.ShufflingList.Get | Common/src/main/java/net/tslat/smartbrainlib/object/SBLShufflingList.java:45-48 | the object at an index inside the list, IndexOutOfBoundsException outside it |
| ShufflingLists.ShufflingList.Contents | Common/src/main/java/net/tslat/smartbrainlib/object/SBLShufflingList.java:72-78 | forEach and stream give each object in list order |
| ShufflingLists.ShufflingList.Iterator | Common/src/main/java/net/tslat/smartbrainlib/object/SBLShufflingList.java:52-69 | a fresh index-based iterator at the start of this list, with lastReturned left at 0 |
| ShufflingLists.ShufflingList.IteratorCorrected | Common/src/main/java/net/tslat/smartbrainlib/object/SBLShufflingList.java:52-69 | the corrected iterator starts with nothing returned (lastReturned -1) |
| ShufflingLists.ShufflingList.ListIterator | src/main/java/net/tslat/smartbrainlib/object/SBLShufflingList.java:52-58 | the other edition's iterator starts at pointer 0 with nothing returned |
| ShufflingLists.IndexBasedIterator.constructor | Common/src/main/java/net/tslat/smartbrainlib/object/SBLShufflingList.java:144-149 | the iterator starts at position 0 with lastReturned at Java's default 0 |
| ShufflingLists.IndexBasedIterator.Unstarted | Common/src/main/java/net/tslat/smartbrainlib/object/SBLShufflingList.java:144-149 | the corrected iterator starts with lastReturned -1 |
| ShufflingLists.IndexBasedIterator.HasNext | Common/src/main/java/net/tslat/smartbrainlib/object/SBLShufflingList.java:195-198 | true exactly while the position is before the end |
| ShufflingLists.IndexBasedIterator.Next | Common/src/main/java/net/tslat/smartbrainlib/object/SBLShufflingList.java:200-204 | returns the element at the position, which becomes lastReturned, and steps on; NoSuchElementException at the end, changing nothing |
| ShufflingLists.IndexBasedIterator.Remove | Common/src/main/java/net/tslat/smartbrainlib/object/SBLShufflingList.java:206-213 | IllegalStateException with nothing returned; otherwise deletes lastReturned, steps the position back when it lay before it, and forgets lastReturned |
| ShufflingLists.IndexBasedIterator.ForEachRemaining | Common/src/main/java/net/tslat/smartbrainlib/object/SBLShufflingList.java:215-220 | hands every remaining element to the action, in order, and ends at the end of the list |
| ShufflingLists.IndexBasedIterator.Skip | Common/src/main/java/net/tslat/smartbrainlib/object/SBLShufflingList.java:222-235 | IllegalArgumentException for a negative count; otherwise moves forward by n, stopping at the end, and reports how far it moved |
| ShufflingLists.ListIterator.constructor | src/main/java/net/tslat/smartbrainlib/object/SBLShufflingList.java:57-58 | pointer 0 and nothing returned |
| ShufflingLists.ListIterator.HasNext | src/main/java/net/tslat/smartbrainlib/object/SBLShufflingList.java:60-63 | true exactly while the pointer is before the end |
| ShufflingLists.ListIterator.HasPrevious | src/main/java/net/tslat/smartbrainlib/object/SBLShufflingList.java:65-68 | true exactly when the pointer is past the start |
| ShufflingLists.ListIterator.NextIndex | src/main/java/net/tslat/smartbrainlib/object/SBLShufflingList.java:86-89 | the index next would read, within [0, size] |
| ShufflingLists.ListIterator.PreviousIndex | src/main/java/net/tslat/smartbrainlib/object/SBLShufflingList.java:91-94 | the index previous would read, within [-1, size) |
| ShufflingLists.ListIterator.Next | src/main/java/net/tslat/smartbrainlib/object/SBLShufflingList.java:70-76 | NoSuchElementException at the end; otherwise last and the pointer step forward and the element at last is returned |
| ShufflingLists.ListIterator.Previous | src/main/java/net/tslat/smartbrainlib/object/SBLShufflingList.java:78-84 | NoSuchElementException at the start; otherwise the pointer steps back, becomes last, and that element is returned |
| ShufflingLists.ListIterator.Remove | src/main/java/net/tslat/smartbrainlib/object/SBLShufflingList.java:96-107 | IllegalStateException with nothing returned; otherwise deletes index last, steps the pointer back when it lay before it, and forgets last |
| ShufflingLists.ListIterator.ForEachRemaining | src/main/java/net/tslat/smartbrainlib/object/SBLShufflingList.java:109-114 | hands every remaining element to the consumer, in order, and ends at the end of the list |
| ShufflingLists.ListIterator.Skip | src/main/java/net/tslat/smartbrainlib/object/SBLShufflingList.java:136-154 | IllegalArgumentException for a negative count; otherwise moves forward by n, stopping at the end, and reports how far it moved |
| ShufflingLists.ListIterator.Back | src/main/java/net/tslat/smartbrainlib/object/SBLShufflingList.java:116-134 | as written: the count is clamped by the distance to the end of the list, not to its start |
| ShufflingLists.ListIterator.BackCorrected | src/main/java/net/tslat/smartbrainlib/object/SBLShufflingList.java:116-134 | the corrected back moves back by n, stopping at the start, and reports how far it moved |
| ShufflingLists.IterateAll | Common/src/main/java/net/tslat/smartbrainlib/object/SBLShufflingList.java:195-204 | calling next until hasNext fails yields the list's objects in order |
| ShufflingLists.RemoveEverything | Common/src/main/java/net/tslat/smartbrainlib/object/SBLShufflingList.java:200-213 | alternating next and remove deletes every entry, front first |
| ShufflingLists.RemoveBeforeNextAsWritten | Common/src/main/java/net/tslat/smartbrainlib/object/SBLShufflingList.java:206-213 | as written, remove straight after creating the iterator deletes the first entry instead of throwing IllegalStateException |
| ShufflingLists.RemoveBeforeNextCorrected | Common/src/main/java/net/tslat/smartbrainlib/object/SBLShufflingList.java:206-213 | with lastReturned starting at -1 that remove throws IllegalStateException and the list is untouched |
| ShufflingLists.IterateBackward | src/main/java/net/tslat/smartbrainlib/object/SBLShufflingList.java:78-84 | skipping to the end and calling previous back to the start yields the objects in reverse |
| ShufflingLists.BackPastStartAsWritten | src/main/java/net/tslat/smartbrainlib/object/SBLShufflingList.java:116-134 | five entries, pointer 1, back(3): the pointer goes to -2 and the next read fails inside the list |
| ShufflingLists.BackPastStartCorrected | src/main/java/net/tslat/smartbrainlib/object/SBLShufflingList.java:116-134 | the same calls with the corrected back stop at the start, and next returns the first object |
| Sensors.SpacedScansApart | Common/src/main/java/net/tslat/smartbrainlib/api/core/sensor/ExtendedSensor.java:55-62 | with non-negative scan rates any two scans are more than the earlier one's rate apart |
| Sensors.ExtendedSensor.constructor | Common/src/main/java/net/tslat/smartbrainlib/api/core/sensor/ExtendedSensor.java:21-28 | a new sensor's next tick time is 0 and it has not scanned |
| Sensors.ExtendedSensor.Tick | Common/src/main/java/net/tslat/smartbrainlib/api/core/sensor/ExtendedSensor.java:55-62 | scans exactly when the next tick time has passed, and then sets it the sampled rate ahead; otherwise nothing changes |
| Sensors.ExtendedSensor.Requires | Common/src/main/java/net/tslat/smartbrainlib/api/core/sensor/ExtendedSensor.java:93-96 | the set of the memory types the sensor uses |
| Sensors.FlagAfter | Common/src/main/java/net/tslat/smartbrainlib/api/core/sensor/custom/UnreachableTargetSensor.java:61-71 | the TARGET_UNREACHABLE value after an update: kept, cleared, or set to whether the target is above |
| Sensors.SinceOf | Common/src/main/java/net/tslat/smartbrainlib/api/core/sensor/custom/UnreachableTargetSensor.java:53 | the CANT_REACH_WALK_TARGET_SINCE time held, if any |
| Sensors.UnreachableStep | Common/src/main/java/net/tslat/smartbrainlib/api/core/sensor/custom/UnreachableTargetSensor.java:43-79 | no target or no time resets the recorded time, clearing the flag only if a time was recorded; a first time is only recorded; the same time again clears the flag; a newer one is recorded and sets the flag to whether the target is above; an older one changes nothing |
| Sensors.LastNeverDecreases | Common/src/main/java/net/tslat/smartbrainlib/api/core/sensor/custom/UnreachableTargetSensor.java:61-71 | between resets the recorded time never goes down |
| Sensors.EntityOf | Common/src/main/java/net/tslat/smartbrainlib/api/core/sensor/custom/UnreachableTargetSensor.java:45 | the entity a memory holds, if it holds one |
| Sensors.ReadMemory | Common/src/main/java/net/tslat/smartbrainlib/api/core/sensor/custom/UnreachableTargetSensor.java:53 | the value held; the type is registered and no value changes |
| Sensors.UnreachableTargetSensor.constructor | Common/src/main/java/net/tslat/smartbrainlib/api/core/sensor/custom/UnreachableTargetSensor.java:28-35 | a fresh rate-limited sensor using its three memories, with no time recorded |
| Sensors.UnreachableTargetSensor.ResetState | Common/src/main/java/net/tslat/smartbrainlib/api/core/sensor/custom/UnreachableTargetSensor.java:74-79 | clears TARGET_UNREACHABLE only when a time had been recorded, forgets the time and changes no other memory |
| Sensors.UnreachableTargetSensor.ReadSince | Common/src/main/java/net/tslat/smartbrainlib/api/core/sensor/custom/UnreachableTargetSensor.java:53 | the time the owner has been unable to reach its walk target since, with no value changed |
| Sensors.UnreachableTargetSensor.Record | Common/src/main/java/net/tslat/smartbrainlib/api/core/sensor/custom/UnreachableTargetSensor.java:61-71 | the three-way comparison of the observed time with the recorded one updates the time and the flag as the scan step says |
| Sensors.UnreachableTargetSensor.DoTick | Common/src/main/java/net/tslat/smartbrainlib/api/core/sensor/custom/UnreachableTargetSensor.java:43-72 | TARGET_UNREACHABLE and the recorded time change as the scan step says; no other memory's value changes |
| Sensors.UnreachableTargetSensor.Tick | Common/src/main/java/net/tslat/smartbrainlib/api/core/sensor/ExtendedSensor.java:55-62 | doTick runs exactly on the scans the rate limiter lets through |
| NearestVisible.FirstVisibleIndex | Common/src/main/java/net/tslat/smartbrainlib/object/backport/NearestVisibleLivingEntities.java:38-45 | the index of the first entity that matches and is in line of sight, with none before it; none when no entity is accepted |
| NearestVisible.FirstVisibleIndexIs | Common/src/main/java/net/tslat/smartbrainlib/object/backport/NearestVisibleLivingEntities.java:38-45 | an accepted entity with nothing accepted before it is the one the first-match scan finds |
| NearestVisible.FirstVisible | Common/src/main/java/net/tslat/smartbrainlib/object/backport/NearestVisibleLivingEntities.java:38-45 | the first accepted entity, and empty exactly when no entity is accepted |
| NearestVisible.AllVisible | Common/src/main/java/net/tslat/smartbrainlib/object/backport/NearestVisibleLivingEntities.java:47-53 | exactly the accepted entities |
| NearestVisible.FirstVisibleHeadsAll | Common/src/main/java/net/tslat/smartbrainlib/object/backport/NearestVisibleLivingEntities.java:38-53 | findClosest answers the head of what findAll lists |
| NearestVisible.AllVisibleIsSublist | Common/src/main/java/net/tslat/smartbrainlib/object/backport/NearestVisibleLivingEntities.java:47-53 | findAll keeps the list order: it is a sublist of the nearby entities |
| NearestVisible.NearestVisibleLivingEntities.constructor | Common/src/main/java/net/tslat/smartbrainlib/object/backport/NearestVisibleLivingEntities.java:27-32 | the nearby entities and a line-of-sight test that has asked nothing yet |
| NearestVisible.NearestVisibleLivingEntities.Empty | Common/src/main/java/net/tslat/smartbrainlib/object/backport/NearestVisibleLivingEntities.java:22-25 | no entities, and a test that always fails |
| NearestVisible.NearestVisibleLivingEntities.LineOfSight | Common/src/main/java/net/tslat/smartbrainlib/object/backport/NearestVisibleLivingEntities.java:29-31 | the targetability answer, computed only the first time an entity is asked about and remembered |
| NearestVisible.NearestVisibleLivingEntities.FindClosest | Common/src/main/java/net/tslat/smartbrainlib/object/backport/NearestVisibleLivingEntities.java:38-45 | the first entity, in list order, that satisfies the predicate and is in line of sight |
| NearestVisible.NearestVisibleLivingEntities.FindAll | Common/src/main/java/net/tslat/smartbrainlib/object/backport/NearestVisibleLivingEntities.java:47-53 | the accepted entities, in list order |
| NearestVisible.NearestVisibleLivingEntities.Contains | Common/src/main/java/net/tslat/smartbrainlib/object/backport/NearestVisibleLivingEntities.java:55-57 | the entity is listed and in line of sight; line of sight is never checked for an unlisted one |
| NearestVisible.NearestVisibleLivingEntities.ContainsMatching | Common/src/main/java/net/tslat/smartbrainlib/object/backport/NearestVisibleLivingEntities.java:59-66 | true exactly when findClosest finds an entity |
| NearestVisible.VisibleEntityList.constructor | src/main/java/net/tslat/smartbrainlib/object/NearestVisibleLivingEntities.java:31-34 | the entries and the given line-of-sight test |
| NearestVisible.VisibleEntityList.Empty | src/main/java/net/tslat/smartbrainlib/object/NearestVisibleLivingEntities.java:19-23 | no entries, and a test that always fails |
| NearestVisible.VisibleEntityList.FindFirstMatchingEntry | src/main/java/net/tslat/smartbrainlib/object/NearestVisibleLivingEntities.java:40-48 | the first entry satisfying the condition and in line of sight |
| NearestVisible.VisibleEntityList.FindAllMatchingEntries | src/main/java/net/tslat/smartbrainlib/object/NearestVisibleLivingEntities.java:50-58 | exactly the accepted entries, each once, in no promised order |
| NearestVisible.VisibleEntityList.Contains | src/main/java/net/tslat/smartbrainlib/object/NearestVisibleLivingEntities.java:60-62 | listed and in line of sight |
| NearestVisible.VisibleEntityList.ContainsEntryMatching | src/main/java/net/tslat/smartbrainlib/object/NearestVisibleLivingEntities.java:64-72 | true exactly when findFirstMatchingEntry finds an entry |
| TargetBehaviours.ReactToUnreachableTarget.constructor | Common/src/main/java/net/tslat/smartbrainlib/api/core/behaviour/custom/misc/ReactToUnreachableTarget.java:23-26 | no reaction pending and none made |
| TargetBehaviours.ReactToUnreachableTarget.TimedOut | Common/src/main/java/net/tslat/smartbrainlib/api/core/behaviour/custom/misc/ReactToUnreachableTarget.java:55-58 | timed out exactly when no reaction is pending or its time has passed |
| TargetBehaviours.ReactToUnreachableTarget.ShouldKeepRunning | Common/src/main/java/net/tslat/smartbrainlib/api/core/behaviour/custom/misc/ReactToUnreachableTarget.java:60-63 | keeps running exactly while both required memories are present |
| TargetBehaviours.ReactToUnreachableTarget.Start | Common/src/main/java/net/tslat/smartbrainlib/api/core/behaviour/custom/misc/ReactToUnreachableTarget.java:65-68 | the reaction is due the sampled delay from now |
| TargetBehaviours.ReactToUnreachableTarget.Stop | Common/src/main/java/net/tslat/smartbrainlib/api/core/behaviour/custom/misc/ReactToUnreachableTarget.java:70-73 | no reaction pending |
| TargetBehaviours.ReactToUnreachableTarget.Tick | Common/src/main/java/net/tslat/smartbrainlib/api/core/behaviour/custom/misc/ReactToUnreachableTarget.java:75-79 | the callback runs, with the TARGET_UNREACHABLE value, only on the tick that is exactly the reaction time |
| TargetBehaviours.ReactionRun | Common/src/main/java/net/tslat/smartbrainlib/api/core/behaviour/custom/misc/ReactToUnreachableTarget.java:55-79 | a run ticked every game tick until it times out reacts exactly once when the delay is non-negative and the reaction time is not 0, and never otherwise |
| TargetBehaviours.IsTargetInvalid | Common/src/main/java/net/tslat/smartbrainlib/api/core/behaviour/custom/target/InvalidateAttackTarget.java:74-79 | a target in another level is always invalid; otherwise exactly a dead, dying or removed one |
| TargetBehaviours.IsTiredOfPathing | Common/src/main/java/net/tslat/smartbrainlib/api/core/behaviour/custom/target/InvalidateAttackTarget.java:85-92 | never with a span of 0 or less; otherwise exactly when the walk target has been unreachable for longer than the span |
| TargetBehaviours.InvalidateAttackTarget.constructor | Common/src/main/java/net/tslat/smartbrainlib/api/core/behaviour/custom/target/InvalidateAttackTarget.java:28 | the attention span is 200 |
| TargetBehaviours.InvalidateAttackTarget.StopTryingToPathAfter | Common/src/main/java/net/tslat/smartbrainlib/api/core/behaviour/custom/target/InvalidateAttackTarget.java:55-59 | the span becomes the given ticks and the behaviour itself is returned |
| TargetBehaviours.InvalidateAttackTarget.IgnoreFailedPathfinding | Common/src/main/java/net/tslat/smartbrainlib/api/core/behaviour/custom/target/InvalidateAttackTarget.java:47-49 | a span of 0, so pathing never tires |
| TargetBehaviours.InvalidateAttackTarget.Start | Common/src/main/java/net/tslat/smartbrainlib/api/core/behaviour/custom/target/InvalidateAttackTarget.java:62-72 | with no target nothing changes; otherwise ATTACK_TARGET is cleared exactly when one of the four reasons holds, and no other memory's value changes |
| TargetBehaviours.VisibleCandidate | common/src/main/java/net/tslat/smartbrainlib/api/core/behaviour/custom/target/TargetOrRetaliate.java:143-146 | the closest visible entity the attack predicate accepts, and none without the memory |
| TargetBehaviours.Candidate | common/src/main/java/net/tslat/smartbrainlib/api/core/behaviour/custom/target/TargetOrRetaliate.java:137-150 | the priority memory's entity, else the attacker's, else the closest accepted visible entity; none exactly when every source is empty |
| TargetBehaviours.GetTarget | common/src/main/java/net/tslat/smartbrainlib/api/core/behaviour/custom/target/TargetOrRetaliate.java:135-157 | the candidate exactly when it is not the existing target and the predicate accepts it |
| TargetBehaviours.ReadVisibleCandidate | common/src/main/java/net/tslat/smartbrainlib/api/core/behaviour/custom/target/TargetOrRetaliate.java:143-146 | the read of the visible entities and their closest match, changing no value |
| TargetBehaviours.ReadEntity | common/src/main/java/net/tslat/smartbrainlib/api/core/behaviour/custom/target/TargetOrRetaliate.java:137 | the entity a memory holds, changing no value |
| TargetBehaviours.ReadCandidate | common/src/main/java/net/tslat/smartbrainlib/api/core/behaviour/custom/target/TargetOrRetaliate.java:137-150 | each source is read only when the earlier ones held nothing, and the result is the candidate |
| TargetBehaviours.Retarget | common/src/main/java/net/tslat/smartbrainlib/api/core/behaviour/custom/target/TargetOrRetaliate.java:163-164 | ATTACK_TARGET, and a Mob's own target, become the chosen target and CANT_REACH_WALK_TARGET_SINCE is cleared; nothing else changes |
| TargetBehaviours.TargetOrRetaliate.constructor | common/src/main/java/net/tslat/smartbrainlib/api/core/behaviour/custom/target/TargetOrRetaliate.java:58-61 | swapping allowed, no chosen target, NEAREST_ATTACKABLE looked at first |
| TargetBehaviours.TargetOrRetaliate.NoTargetSwapping | common/src/main/java/net/tslat/smartbrainlib/api/core/behaviour/custom/target/TargetOrRetaliate.java:111-115 | a held target is never swapped |
| TargetBehaviours.TargetOrRetaliate.UseMemory | common/src/main/java/net/tslat/smartbrainlib/api/core/behaviour/custom/target/TargetOrRetaliate.java:79-83 | the memory looked at first becomes the given one |
| TargetBehaviours.TargetOrRetaliate.DoStartCheck | common/src/main/java/net/tslat/smartbrainlib/api/core/behaviour/custom/target/TargetOrRetaliate.java:122-125 | the base check, and either no target or, with swapping allowed, a tick count that is a multiple of 100 |
| TargetBehaviours.TargetOrRetaliate.CheckExtraStartConditions | common/src/main/java/net/tslat/smartbrainlib/api/core/behaviour/custom/target/TargetOrRetaliate.java:127-132 | remembers the target getTarget chooses and passes exactly when there is one; no value changes |
| TargetBehaviours.TargetOrRetaliate.Start | common/src/main/java/net/tslat/smartbrainlib/api/core/behaviour/custom/target/TargetOrRetaliate.java:159-170 | the chosen target becomes ATTACK_TARGET and a Mob's own target, CANT_REACH_WALK_TARGET_SINCE is cleared, allies are alerted only when the predicate holds and there was no target before, and the choice is forgotten |
| EntityRetrieval.PartEntities | Common/src/main/java/net/tslat/smartbrainlib/util/EntityRetrievalUtil.java:493-500 | the entities of the part entities that are inside the bounds and match, in part order |
| EntityRetrieval.NearestIndexIsNearest | Common/src/main/java/net/tslat/smartbrainlib/util/EntityRetrievalUtil.java:52-62 | the scan keeps an entity strictly nearer than Double.MAX_VALUE, no farther than any other and strictly nearer than every earlier one, so the earliest wins a tie; none exactly when every distance is at least Double.MAX_VALUE |
| EntityRetrieval.Nearest | Common/src/main/java/net/tslat/smartbrainlib/util/EntityRetrievalUtil.java:52-64 | the nearest entity is one of the list, and there is none exactly when no distance is below Double.MAX_VALUE |
| EntityRetrieval.GetNearest | Common/src/main/java/net/tslat/smartbrainlib/util/EntityRetrievalUtil.java:47-65 | the scan loop finds the nearest entity of the list; null for an empty list |
| EntityRetrieval.GetNearestEntity | Common/src/main/java/net/tslat/smartbrainlib/util/EntityRetrievalUtil.java:175-194 | the nearest entity the lookup hands over that passes the predicate |
| EntityRetrieval.GetNearestPlayer | Common/src/main/java/net/tslat/smartbrainlib/util/EntityRetrievalUtil.java:257-274 | the nearest of the level's players inside the bounds that passes the predicate |
| EntityRetrieval.GetPlayers | Common/src/main/java/net/tslat/smartbrainlib/util/EntityRetrievalUtil.java:345-354 | exactly the players inside the bounds that pass the predicate, in the level's order |
| EntityRetrieval.FindPlayer | Common/src/main/java/net/tslat/smartbrainlib/util/EntityRetrievalUtil.java:541-548 | the first player inside the bounds that passes the predicate, none exactly when no player does |
| EntityRetrieval.CollectParts | Common/src/main/java/net/tslat/smartbrainlib/util/EntityRetrievalUtil.java:493-500 | the part loop of getEntities collects the matching part entities |
| EntityRetrieval.GetEntities | Common/src/main/java/net/tslat/smartbrainlib/util/EntityRetrievalUtil.java:482-503 | the matching entities the lookup hands over, then the matching part entities |
| EntityRetrieval.FirstFound | Common/src/main/java/net/tslat/smartbrainlib/util/EntityRetrievalUtil.java:625-633 | the lookup aborts at the first matching entity |
| EntityRetrieval.FirstPart | Common/src/main/java/net/tslat/smartbrainlib/util/EntityRetrievalUtil.java:638-646 | the part loop breaks at the first matching part entity |
| EntityRetrieval.PartsPrefix | Common/src/main/java/net/tslat/smartbrainlib/util/EntityRetrievalUtil.java:638-646 | the matches of a prefix of the parts come first among those of all parts |
| EntityRetrieval.FindEntity | Common/src/main/java/net/tslat/smartbrainlib/util/EntityRetrievalUtil.java:621-650 | the first matching entity the lookup hands over, else the first matching part entity: the head of what getEntities returns; parts are searched only when the lookup found nothing |
| EntityRetrieval.TakeFound | Common/src/main/java/net/tslat/smartbrainlib/util/EntityRetrievalUtil.java:724-733 | the lookup adds each match and aborts once the list holds at least max, so it takes one match even for max 0 |
| EntityRetrieval.TakeParts | Common/src/main/java/net/tslat/smartbrainlib/util/EntityRetrievalUtil.java:738-747 | the part loop adds matches until the list is full |
| EntityRetrieval.FindEntities | Common/src/main/java/net/tslat/smartbrainlib/util/EntityRetrievalUtil.java:720-751 | as written: a negative max throws from the list's capacity; max 0 still returns one match; otherwise the first max matches of the lookup then the parts, with parts searched only while fewer than max were found |
| EntityRetrieval.FindEntitiesCorrected | Common/src/main/java/net/tslat/smartbrainlib/util/EntityRetrievalUtil.java:720-751 | with the size test before the add, at most max matches are returned for every max, none for 0 |
| EntityRetrieval.FindNoneAsWritten | Common/src/main/java/net/tslat/smartbrainlib/util/EntityRetrievalUtil.java:724-733 | with a max of 0 and one matching entity, findEntities returns that entity |
| EntityRetrieval.FindNoneCorrected | Common/src/main/java/net/tslat/smartbrainlib/util/EntityRetrievalUtil.java:735 | the corrected search returns nothing for a max of 0 |
| EntityRetrieval.GetNearestEntityAround | Common/src/main/java/net/tslat/smartbrainlib/util/EntityRetrievalUtil.java:77-79 | the nearest entity around the origin, never the origin itself |
| EntityRetrieval.GetNearestMatchingAround | Common/src/main/java/net/tslat/smartbrainlib/util/EntityRetrievalUtil.java:121-123 | the nearest matching entity around the origin, never the origin itself |
| EntityRetrieval.GetPlayersAround | Common/src/main/java/net/tslat/smartbrainlib/util/EntityRetrievalUtil.java:316-318 | exactly the players around the origin that match, and never the origin itself |
| PlayerSensors.InsertByDistance | common/src/main/java/net/tslat/smartbrainlib/api/core/sensor/vanilla/NearbyPlayersSensor.java:90 | inserting one player into the list adds exactly that player |
| PlayerSensors.SortByDistance | common/src/main/java/net/tslat/smartbrainlib/api/core/sensor/vanilla/NearbyPlayersSensor.java:90 | sorting by distance keeps the same players, each as often |
| PlayerSensors.SortIsSorted | common/src/main/java/net/tslat/smartbrainlib/api/core/sensor/vanilla/NearbyPlayersSensor.java:90 | the sorted list is in ascending order of distance |
| PlayerSensors.InsertKeepsSorted | common/src/main/java/net/tslat/smartbrainlib/api/core/sensor/vanilla/NearbyPlayersSensor.java:90 | inserting into a list sorted by distance keeps it sorted |
| PlayerSensors.InsertAtLeast | common/src/main/java/net/tslat/smartbrainlib/api/core/sensor/vanilla/NearbyPlayersSensor.java:90 | inserting a player no nearer than a bound keeps every player at least that far |
| PlayerSensors.HeadValue | common/src/main/java/net/tslat/smartbrainlib/api/core/sensor/vanilla/NearbyPlayersSensor.java:101-102 | a list's value for the nearest-visible memories is its first element, and nothing exactly when it is empty |
| PlayerSensors.ScanPlayers | common/src/main/java/net/tslat/smartbrainlib/api/core/sensor/vanilla/NearbyPlayersSensor.java:88-98 | the scan's players are those around the owner, sorted by distance; the targetable ones are exactly the targetable players and the attackable ones exactly the targetable and attackable players, each a sublist of the one before |
| PlayerSensors.NotSpectator | common/src/main/java/net/tslat/smartbrainlib/api/core/sensor/vanilla/NearbyPlayersSensor.java:42 | the default predicate accepts exactly the players that are not spectators |
| PlayerSensors.NearbyPlayersSensor.constructor | common/src/main/java/net/tslat/smartbrainlib/api/core/sensor/vanilla/NearbyPlayersSensor.java:38-43 | a new sensor has no radius of its own and excludes spectators |
| PlayerSensors.NearbyPlayersSensor.SetRadius | common/src/main/java/net/tslat/smartbrainlib/api/core/sensor/vanilla/NearbyPlayersSensor.java:62-66 | setRadius(xz, y) stores that radius and returns the sensor itself |
| PlayerSensors.NearbyPlayersSensor.SetRadiusBoth | common/src/main/java/net/tslat/smartbrainlib/api/core/sensor/vanilla/NearbyPlayersSensor.java:51-53 | setRadius(r) stores r on both axes and returns the sensor itself |
| PlayerSensors.NearbyPlayersSensor.EffectiveRadius | common/src/main/java/net/tslat/smartbrainlib/api/core/sensor/vanilla/NearbyPlayersSensor.java:80-86 | a scan uses the radius set, else the owner's follow range on both axes |
| PlayerSensors.NearbyPlayersSensor.DoTick | common/src/main/java/net/tslat/smartbrainlib/api/core/sensor/vanilla/NearbyPlayersSensor.java:79-103 | the players of the level within the radius, other than the owner, that pass the predicate become NEAREST_PLAYERS nearest first; the first targetable one becomes NEAREST_VISIBLE_PLAYER and the first attackable one NEAREST_VISIBLE_ATTACKABLE_PLAYER, each cleared when there is none; no other memory changes |
| PlayerSensors.WritePlayers | common/src/main/java/net/tslat/smartbrainlib/api/core/sensor/vanilla/NearbyPlayersSensor.java:100-102 | the three memory writes of the scan, and no other memory changes |
| PlayerSensors.WriteHead | common/src/main/java/net/tslat/smartbrainlib/api/core/sensor/vanilla/NearbyPlayersSensor.java:101 | a memory is set to a list's head, or cleared for an empty list, and no other memory changes |
| PlayerSensors.WardenTarget | Forge/src/main/java/net/tslat/smartbrainlib/api/core/sensor/vanilla/WardenSpecificSensor.java:44-61 | the warden's target is the first player of the list, else its first entity, else none |
| PlayerSensors.WardenPrefersPlayers | Forge/src/main/java/net/tslat/smartbrainlib/api/core/sensor/vanilla/WardenSpecificSensor.java:46-51 | with any player in the list, the target is a player of the list |
| PlayerSensors.WardenScan | Forge/src/main/java/net/tslat/smartbrainlib/api/core/sensor/vanilla/WardenSpecificSensor.java:44-56 | the loop stops at the first player and keeps the first entity as the fallback, giving the warden's target |
| PlayerSensors.WardenTick | Forge/src/main/java/net/tslat/smartbrainlib/api/core/sensor/vanilla/WardenSpecificSensor.java:40-63 | with a NEAREST_LIVING_ENTITIES list, NEAREST_ATTACKABLE becomes the warden's target or is cleared when there is none; without a list no memory changes; no other memory changes |
| Navigation.CanPathOnto | Forge/src/main/java/net/tslat/smartbrainlib/api/core/navigation/ExtendedNavigator.java:40-45 | a path type is a surface exactly when it is not water, lava or open air |
| Navigation.CanPathInto | Forge/src/main/java/net/tslat/smartbrainlib/api/core/navigation/ExtendedNavigator.java:50-55 | a path type is safe to path into exactly when it is fire or another damaging type |
| Navigation.Ceil | Forge/src/main/java/net/tslat/smartbrainlib/api/core/navigation/ExtendedNavigator.java:82 | Mth.ceil gives the least integer at or above its argument |
| Navigation.Path.constructor | Common/src/main/java/net/tslat/smartbrainlib/api/core/navigation/SmoothGroundNavigation.java:61 | a new path starts at its first node |
| Navigation.Path.GetNode | Forge/src/main/java/net/tslat/smartbrainlib/api/core/navigation/ExtendedNavigator.java:81 | reading a node inside the path gives it; an index outside throws |
| Navigation.Path.Advance | Common/src/main/java/net/tslat/smartbrainlib/api/core/navigation/SmoothGroundNavigation.java:79 | advancing moves the next-node index on by one |
| Navigation.StrideEnd | Forge/src/main/java/net/tslat/smartbrainlib/api/core/navigation/ExtendedNavigator.java:82 | the stride ends at the node count or at the next node plus half the width rounded up plus one, whichever is smaller |
| Navigation.ShortcutScan | Forge/src/main/java/net/tslat/smartbrainlib/api/core/navigation/ExtendedNavigator.java:108-116 | the descending scan yields the highest collision-free index above the next node, none when no index in between is free, and throws only on an index outside the path |
| Navigation.ShortcutIsHighestFree | Forge/src/main/java/net/tslat/smartbrainlib/api/core/navigation/ExtendedNavigator.java:101-119 | for a target within the path the scan never throws, and it finds a shortcut exactly when some index strictly between the next node and the target is collision-free |
| Navigation.SmoothGroundNavigation.constructor | Common/src/main/java/net/tslat/smartbrainlib/api/core/navigation/SmoothGroundNavigation.java:32-34 | a new navigation has the vanilla waypoint distance of 0.5 and has run no stuck detection |
| Navigation.SmoothGroundNavigation.IsAboutToTraverseVertically | Forge/src/main/java/net/tslat/smartbrainlib/api/core/navigation/ExtendedNavigator.java:77-90 | true exactly when some node within the mob's stride after the next node has another height; on a finished path reading the next node throws |
| Navigation.SmoothGroundNavigation.AttemptShortcut | Forge/src/main/java/net/tslat/smartbrainlib/api/core/navigation/ExtendedNavigator.java:101-119 | the first collision-free node scanning down from before the target becomes the next node and the result is true; with none the path is unchanged and the result false; a node outside the path throws |
| Navigation.SmoothGroundNavigation.GetClosestVerticalTraversal | Common/src/main/java/net/tslat/smartbrainlib/api/core/navigation/SmoothGroundNavigation.java:106-115 | the first index from the next node on whose height differs from the safe surface height, or the node count when every remaining node is at that height |
| Navigation.SmoothGroundNavigation.WaypointDistance | Common/src/main/java/net/tslat/smartbrainlib/api/core/navigation/SmoothGroundNavigation.java:75 | half the width for a mob wider than 0.75, else 0.75 less half the width |
| Navigation.SmoothGroundNavigation.FollowThePath | Common/src/main/java/net/tslat/smartbrainlib/api/core/navigation/SmoothGroundNavigation.java:72-83 | sets the waypoint distance, shortcuts to the highest free node before the nearest vertical traversal, and only when none is free advances one node if close to the next, or about to change height and within the waypoint distance; stuck detection then always runs |
| RandomPositions.ClimbFrom | Common/src/main/java/net/tslat/smartbrainlib/object/backport/RandomPos.java:61 | the climb stays in the column, never rises past the height limit from below it, and stops at the limit or at a position failing the predicate |
| RandomPositions.ClimbFromPasses | Common/src/main/java/net/tslat/smartbrainlib/object/backport/RandomPos.java:61 | every position the climb passes satisfies the predicate |
| RandomPositions.MoveUpOutOfSolid | Common/src/main/java/net/tslat/smartbrainlib/object/backport/RandomPos.java:57-64 | a position failing the predicate comes back as it is; otherwise the result is strictly higher in the same column, every position from the start up to it satisfies the predicate, and it is at the height limit or fails the predicate |
| RandomPositions.MoveUpToAboveSolid | Common/src/main/java/net/tslat/smartbrainlib/object/backport/RandomPos.java:73-90 | a position failing the predicate comes back as it is; otherwise from the surface found as in moveUpOutOfSolid the result rises through positions failing the predicate, by at most the ground clearance and never past the height limit, and stops at the limit, at the clearance, or below a position satisfying the predicate |
| RandomPositions.BestIndexIsBest | Common/src/main/java/net/tslat/smartbrainlib/object/backport/RandomPos.java:102-116 | the kept candidate weighs more than negative infinity, no candidate weighs more, and every earlier candidate weighs strictly less, so the earliest of equal weights wins; none is kept exactly when every candidate is null or weighs negative infinity |
| RandomPositions.GenerateRandomPos | Common/src/main/java/net/tslat/smartbrainlib/object/backport/RandomPos.java:101-119 | the supplier is called exactly ten times, and the result is the bottom centre of the best-weighted candidate, null when none is kept |
| RandomPositions.RandomDirection | Common/src/main/java/net/tslat/smartbrainlib/object/backport/RandomPos.java:22-27 | the offset is drawn lateral, vertical, lateral, each shifted down by its radius in Java `int` arithmetic; it throws exactly when a wrapped bound 2r+1 is not positive, which every radius of 2^30 or more gives, and never for radii in [0, 2^30) |
| RandomPositions.BoundWraps | Common/src/main/java/net/tslat/smartbrainlib/object/backport/RandomPos.java:24-26 | the Java bound 2r+1 is exact below 2^30 and wraps to a negative value from 2^30 up |
| RandomPositions.RandomDirectionBounds | Common/src/main/java/net/tslat/smartbrainlib/object/backport/RandomPos.java:22-27 | with radii in [0, 2^30) and in-range draws the offset lies within the radii on every axis |
| RandomPositions.RandomDirectionCovers | Common/src/main/java/net/tslat/smartbrainlib/object/backport/RandomPos.java:22-27 | every offset within radii below 2^30 is produced by some in-range draws |

## Left out

- The game world is replaced by oracles, which are parameters of the members that use them. They cover:
  - a behaviour's own start check and keep-running answer, and what a child does when started or ticked;
  - entity facts (alive, attackable, targetable, spectator, player, line of sight);
  - the level's entity and player lookups, bounding-box tests, squared distances and path-type lookups;
  - collision-free traversal (`isCollisionFreeTraversal`), closeness to the next node (`isCloseToNextNode`) and `getEntityPosAtNode`;
  - the position supplier, the path weights and every random draw.
- Floating-point values (distances, radii, widths, Double.MAX_VALUE, negative infinity) are modelled as reals. NaN, rounding and float-to-double widening are not modelled.
- Vanilla code that is not part of this library is modelled from vanilla's behaviour and is an assumption of the model:
  - `ExpirableValue` and its tick;
  - `Brain.checkMemory`, `setActiveActivity`, `useDefaultActivity`, `setActiveActivityToFirstValid`, `eraseMemory`, `setCoreActivities` and `setDefaultActivity`;
  - the memory-erasing loop of `activityRequirementsAreMet` and `setActiveActivity`;
  - `Behavior.tryStart`, `doStop`, `timedOut` and `tickOrStop`, and the `GateBehavior` child list;
  - the common edition's `ExtendedBehaviour.noTimeout`, which is not part of this model and is taken to disable the timeout (HeldBehaviour, GroupBehaviour and RepeatingBehaviour, among others, call it).
  Their rows cite the library lines that call them.
- The brain's behaviours are identities with a status table. A behaviour object shared between two places of the table, or between two brains, is not modelled.
- Sensor ticking inside the brain tick, `setAggressive`, the profiler and all logging are not modelled.
- The schedule's callbacks are recorded as the list of callbacks due, not as their effects on the game.
- Memory values are a closed datatype, so a value of the wrong type for its memory cannot be stored. Java's unchecked casts on memory values are not modelled.
- Registering a memory or sensor through `BrainUtils` is modelled for the brain's own tables. Its side effects on vanilla's sensor and memory registries are not modelled.
- `long` overflow of game times is not modelled: game times are unbounded integers. `int` wrap-around is modelled where the source relies on it: priorities past Integer.MAX_VALUE, the AGE resolver, HeldBehaviour's running time and the bounds and offsets of `generateRandomDirection`.
- Java NullPointerException paths are not modelled. The classes' `Valid()` predicates exclude the null fields that would cause them.
- Some files exist in several editions and are modelled once, with one edition standing for the others:
  - `BrainUtilities` models the Common edition of `BrainUtils`; the common/ `BrainUtil` helpers the current brain calls are taken to behave the same.
  - `SmoothGroundNavigation` (Common) is modelled with the Forge `ExtendedNavigator` interface it implements; the Common edition is not part of this model.
  - The common/ `NearbyPlayersSensor` is modelled with the Common `EntityRetrievalUtil.getPlayers`.
  - The Common and Forge `GroupBehaviour` bases are taken to equal the common/ one.
- Brains.SmartBrain.CopyWithoutBehaviors: the copy holds the same `ExpirableValue` objects as the original, so the original's forget passes age the copy's values in place. The model gives the copy independent values, and this aliasing is not modelled.
- Providers.SmartBrainProvider.FinaliseBrain: the call to the owner's `handleAdditionalBrainSetup(brain)` is recorded in `setupBrains`. What the hook does is the owner's code; the contract takes it to be the interface's empty default, so the brain's stated configuration holds only for owners that do not override it.
- Providers.SmartBrainProvider.MakeBrain: finalises through FinaliseBrain, so the same holds: an owner's `handleAdditionalBrainSetup` override is recorded as a call, and its effects on the brain are not modelled.
- Providers.SmartBrainProvider.NewBrain: as MakeBrain, the setup hook is recorded as a call and its effects on the brain are not modelled.
- PlayerSensors.SortByDistance: stability of `List.sort` is not stated. The model's insertion sort is stable, but the contract states only that the list is a permutation sorted by distance.
- TargetBehaviours.TargetOrRetaliate.Start: `alertAllies` is a counter of calls. Its writes to each ally's brain are not modelled.
- The `whenStarting` and `whenStopping` callbacks of behaviours are counters of calls. The attack and alert predicates of `TargetOrRetaliate` are oracles.
- `EntityRetrievalUtil.streamEntities` and `makeLazyTypeTest` are not modelled: they are section-storage internals and class reflection.
- `RandomPos.generateRandomDirectionWithinRadians` and `generateRandomPosTowardDirection` are trigonometry over floating-point values and are not modelled.
- `SBLShufflingList.shuffle` (weights through `Math.pow` and random draws), `toString` and the capacity constructor `SBLShufflingList(int size)` are not modelled. Capacity is not observable, and a negative capacity's exception is left out. The list's `Pair` constructor is modelled (`ShufflingLists.ShufflingList.FromPairs`). The `GroupBehaviour` combinators' `Pair` and `Collection` constructors, which give each child its own weight, are not modelled: only the constructor that gives every child weight 1 is.
- The src `SBLShufflingList` iterator's unused copy of the list is not modelled. The consumer given to `forEachRemaining` is recorded in order and does not change the list.
- Behaviours.HeldBehaviour.GetRunningTime: only reads the counter and has no row of its own. The counter's value is stated by `TryStart` and `Tick`.
- `RepeatingBehaviour`'s repeat provider is a fixed count, as `repeatNTimes` sets it. Sampling a random `IntProvider` and `RandomUtil` are not modelled.
- `BrainUtils.forEachBehaviour` (a visitor over foreign code) is not modelled. Nor are `withMemory` beyond the warden sensor's use, `getTimeUntilMemoryExpires`, `getLastAttacker`, `canSee`, `getAllBehaviours`, `removeBehaviour`, `addBehaviour` and `addActivity`. Their vanilla-brain branches read state this model cannot see.

## Findings

| source | as written | input that shows it | evidently intended | confidence | as-written member | corrected member |
|---|---|---|---|---|---|---|
| Common/src/main/java/net/tslat/smartbrainlib/object/SBLShufflingList.java:144-149 | the iterator's `lastReturned` starts at 0, so `remove` before any `next` is allowed | a fresh iterator over [a, b]: `remove()` deletes a | `lastReturned` starts at -1, and that remove throws IllegalStateException | not executed | ShufflingLists.RemoveBeforeNextAsWritten | ShufflingLists.RemoveBeforeNextCorrected |
| src/main/java/net/tslat/smartbrainlib/object/SBLShufflingList.java:116-134 | `back(n)` clamps n by size - pointer instead of by pointer | five entries, pointer 1, `back(3)`: the pointer becomes -2 and the next `next()` fails | `back` stops at the start of the list | not executed | ShufflingLists.BackPastStartAsWritten | ShufflingLists.BackPastStartCorrected |
| Common/src/main/java/net/tslat/smartbrainlib/api/core/schedule/SmartBrainSchedule.java:120-121 | an AGE timeline is cleared once the scan reaches its last index, even when that entry's key lies in the future | timeline [(10, IDLE)] ticked at age 0: cleared, null returned, IDLE never scheduled | clear only once the last entry has been reached in time | not executed | Schedules.AgeTickDropsFutureEntry | Schedules.IntendedAgeKeepsFutureEntry |
| Common/src/main/java/net/tslat/smartbrainlib/api/core/SmartBrain.java:162-170 | `setMemoryInternal` adds the type to `expirableMemories` every time it is stored | a value set twice with five ticks to live: listed twice, so one forget pass ages it by two | each type listed once, as the current edition does | not executed | BrainRules.LegacyStoreTwiceAgesTwice | BrainRules.CurrentStoreTwiceAgesOnce |
| common/src/main/java/net/tslat/smartbrainlib/api/core/SmartBrain.java:235-247 | `copyWithoutBehaviors` copies the values into the memory map directly, and the copy's expiry list stays empty | a value with one tick to live: the copy never forgets it | the copy's expiring memories expire as in the original | not executed | BrainRules.CopyNeverForgets | Brains.SmartBrain.CopyWithoutBehaviorsTracked |
| Common/src/main/java/net/tslat/smartbrainlib/api/core/SmartBrain.java:318-320 | gate children are removed through `behaviors.stream().iterator()`, whose `remove` is unsupported | a gate of two leaves, removing one: UnsupportedOperationException | remove through the list's own iterator, as the current edition does | not executed | BehaviourTables.LegacyGateRemovalThrows | BehaviourTables.PruneNodeClean |
| Forge/src/main/java/net/tslat/smartbrainlib/api/core/behaviour/AllApplicableBehaviours.java:24-40 | `pickBehaviour` always returns null, so `doStartCheck` reports failure even when children started | one child that starts: the check is false while the child is RUNNING | report success when a child started, as the common edition does | not executed | AllApplicable.ForgeStartedChildUnreported | AllApplicable.StartedChildReported |
| Forge/src/main/java/net/tslat/smartbrainlib/api/core/behaviour/SequentialBehaviour.java:55-65 | `tick` does not clear the running child before the group's `doStop`, so `stop` stops the finished child again | a sole child that stops on its first tick: its stop hook runs twice | clear the running child first, as the common/ `GroupBehaviour.tick` does | not executed | Sequentials.SoleChildStoppedTwice | Sequentials.SoleChildStoppedOnce |
| Common/src/main/java/net/tslat/smartbrainlib/api/core/behaviour/RepeatableBehaviour.java:65-75 | `tick` does not clear the finished child before the group's `doStop`, so `stop` stops it again | a child that stops when no repeat is left: its stop hook runs twice | clear the finished child first | not executed | Repeats.RepeatableBehaviour.Tick | Repeats.RepeatableBehaviour.TickClearingFinished |
| Common/src/main/java/net/tslat/smartbrainlib/util/EntityRetrievalUtil.java:724-733 | `findEntities` adds a match before comparing the size with max | max 0 and one matching entity: that entity is returned | at most max entities, none for max 0 | not executed | EntityRetrieval.FindNoneAsWritten | EntityRetrieval.FindNoneCorrected |
