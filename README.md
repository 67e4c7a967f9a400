# DynamoDB duplicate finder, modelled in Dafny

The tool scans a DynamoDB table, collects the distinct values of one
secondary-index attribute, looks up every value through the index and reports
each value shared by two or more items ("a duplicate group"). It counts the
groups in `duplicatedItems` and their items in `total`, and logs every item of
every duplicate group.

This project models that search and the `Statistic` counter object it updates:

- `iterators.dfy` (module `Iterators`): `Cursor`, a single-pass iterator over a
  finite sequence with a position, standing for the `java.util.Iterator` values
  the table client hands out.
- `statistic.dfy` (module `Statistics`): the `Statistic` class with its two
  counters, two increments and two getters.
- `groups.dfy` (module `Groups`): items, the table accessor (`Accessor`: the
  rows a scan yields and an index lookup `query(column, value)`), log entries,
  and the order-free specification of the search: the distinct values
  (`IndexValues`), what a group contributes (`GroupDuplicated`, `GroupTotal`,
  `GroupLog`), the counts over a visiting order (`OrderDuplicated`,
  `OrderTotal`, `OrderLog`) and over a set (`SetDuplicated`, `SetTotal`), with
  the lemmas relating them.
- `finder.dfy` (module `Finder`): the `DuplicateFinder` class, whose methods
  follow `getAllIndexColumnValues`, `logDuplicatesIfPresent` and
  `startSearchOfDuplicates` loop by loop and are proved against the functions of
  `Groups`; `FindDuplicates`, one run on a fresh finder; the unit test's
  scenario and a worked example.

The lookup is an arbitrary function, so a value whose lookup yields nothing
(an index that lags behind the table) is covered; `Consistent` names the case
where every lookup returns one item per row carrying the value (the items are
the index's projection of those rows, so they need not equal the scanned rows,
which keep only the index attribute). The HashSet's
iteration order is not fixed: the model picks any remaining value
(`var v :| v in remaining`), returns the order it took as a ghost result, and
states the counters by the order-free `SetDuplicated` and `SetTotal`.

The log is modelled as a sequence of entries kept by the finder (`Started`, one
`Record(item)` per logged item, `Finished`, `Summary(duplicatedItems, total)`);
in the source it is a class-wide `java.util.logging.Logger`.

Note: the statistic is a field created once per `DuplicateFinder`
(src/main/java/org/aws/dynamodb/DuplicateFinder.java:23), so a second call of
`startSearchOfDuplicates` on the same finder adds to the counts of the first
instead of reporting the same figures again. `StartSearchOfDuplicates` states
its counters relative to their values before the call; only `FindDuplicates`,
which uses a fresh finder as `main` does, states absolute figures.

## Model

| member | source | states |
|---|---|---|
| `Statistics.Statistic.constructor` | src/main/java/org/aws/dynamodb/Statistic.java:7-8 | a new statistic has `duplicatedItems = 0` and `total = 0` |
| `Statistics.Statistic.IncrementDuplicatedItems` | src/main/java/org/aws/dynamodb/Statistic.java:10-12 | `duplicatedItems` grows by exactly one and `total` is unchanged, so neither counter ever decreases |
| `Statistics.Statistic.IncrementTotal` | src/main/java/org/aws/dynamodb/Statistic.java:14-16 | `total` grows by exactly one and `duplicatedItems` is unchanged |
| `Statistics.Statistic.GetDuplicatedItems` | src/main/java/org/aws/dynamodb/Statistic.java:18-20 | returns the current `duplicatedItems` and changes nothing |
| `Statistics.Statistic.GetTotal` | src/main/java/org/aws/dynamodb/Statistic.java:22-24 | returns the current `total` and changes nothing |
| `Iterators.Cursor.HasNext` | src/main/java/org/aws/dynamodb/DuplicateFinder.java:70 | true exactly when an element is left; consumes nothing |
| `Iterators.Cursor.Next` | src/main/java/org/aws/dynamodb/DuplicateFinder.java:72 | yields the first unconsumed element and advances by one; callable only when one is left |
| `Groups.ValueOf` | src/main/java/org/aws/dynamodb/DuplicateFinder.java:72 | the value read is the one the row stores under the index attribute (the row must carry it; the null result for a missing attribute is listed under Left out) |
| `Groups.IndexValuesExactly` | src/main/java/org/aws/dynamodb/DuplicateFinder.java:65-76 | every scanned row's index value is in the distinct-value set, and every member of the set is the value of some scanned row |
| `Groups.IndexValuesBounded` | src/main/java/org/aws/dynamodb/DuplicateFinder.java:66-73 | the set has at most as many values as the scan has rows |
| `Groups.RepeatedValueCollapses` | src/main/java/org/aws/dynamodb/DuplicateFinder.java:66-73 | two rows with the same value collapse to one entry: the set is strictly smaller than the scan |
| `Groups.RecordAllExactly` | src/main/java/org/aws/dynamodb/DuplicateFinder.java:90-94 | the records logged for a group are exactly its items, each once, in iterator order, first item first |
| `Groups.OrderLogRecordsTotal` | src/main/java/org/aws/dynamodb/DuplicateFinder.java:86-95 | over any visiting order, the log holds only item records and exactly as many as `total` counts |
| `Groups.SetTallyRemove` | src/main/java/org/aws/dynamodb/DuplicateFinder.java:45-47 | any distinct value can be visited first: the set counts split into that value's group plus the counts of the rest |
| `Groups.OrderTallyIsSetTally` | src/main/java/org/aws/dynamodb/DuplicateFinder.java:45-47 | visiting the values of a set once each, in any order, accumulates exactly the order-free counts |
| `Groups.OrderIndependent` | src/main/java/org/aws/dynamodb/DuplicateFinder.java:45-47 | two visiting orders of the same distinct values give the same `duplicatedItems` and the same `total` |
| `Groups.DuplicatedItemsCountsGroups` | src/main/java/org/aws/dynamodb/DuplicateFinder.java:83-97 | `duplicatedItems` is the number of distinct values whose group has two or more items |
| `Groups.TotalAtLeastTwiceGroups` | src/main/java/org/aws/dynamodb/DuplicateFinder.java:86-95 | `total >= 2 * duplicatedItems` for every set of values and every lookup |
| `Groups.SingletonGroupsCountNothing` | src/main/java/org/aws/dynamodb/DuplicateFinder.java:84-86 | when no group has more than one item, both counters stay at zero |
| `Groups.DistinctRowsNoDuplicates` | src/main/java/org/aws/dynamodb/DynamoDBClient.java:61-68 | a table whose rows all carry different index values, with a lookup that agrees with it, yields zero duplicate groups and zero total |
| `Groups.ConsistentDuplicatedItems` | src/main/java/org/aws/dynamodb/DynamoDBClient.java:61-68 | with a lookup that agrees with the table, `duplicatedItems` is the number of index values carried by two or more rows |
| `Finder.DuplicateFinder.constructor` | src/main/java/org/aws/dynamodb/DuplicateFinder.java:21-34 | a new finder holds the given table client, a fresh statistic at zero and an empty log |
| `Finder.DuplicateFinder.GetAllIndexColumnValues` | src/main/java/org/aws/dynamodb/DuplicateFinder.java:65-76 | the scan loop returns exactly the set of index values of the scanned rows, no larger than the scan |
| `Finder.DuplicateFinder.LogDuplicatesIfPresent` | src/main/java/org/aws/dynamodb/DuplicateFinder.java:83-97 | consumes the whole iterator; an empty or one-item group leaves both counters and the log unchanged; a group of n >= 2 adds 1 to `duplicatedItems`, n to `total` and logs its n items in order |
| `Finder.DuplicateFinder.LogGroupOf` | src/main/java/org/aws/dynamodb/DuplicateFinder.java:46-47 | looking up one value and logging its group adds that group's contribution to the counters and the log |
| `Finder.DuplicateFinder.ForEachValue` | src/main/java/org/aws/dynamodb/DuplicateFinder.java:45-47 | every distinct value is visited exactly once; the counters and the log grow by what the visiting order accumulates |
| `Finder.DuplicateFinder.StartSearchOfDuplicates` | src/main/java/org/aws/dynamodb/DuplicateFinder.java:42-53 | returns its statistic, grown by the order-free counts of the distinct values; the log gains the start line, the duplicate groups' records and the closing summary of the counters |
| `Finder.FindDuplicates` | src/main/java/org/aws/dynamodb/DuplicateFinder.java:119-120 | on a fresh finder: `duplicatedItems` = number of values with a group of two or more, `total` = sum of those groups' sizes, `total >= 2 * duplicatedItems`, one log record per counted item, and an empty table gives 0, 0 and no records |
| `Finder.TestWithDuplicates` | src/test/java/org/aws/dynamodb/DuplicateFinderTest.java:72-103 | two distinct values whose groups have two items and one item give `total = 2` and `duplicatedItems = 1` |
| `Finder.ExampleRun` | src/main/java/org/aws/dynamodb/DuplicateFinder.java:42-53 | a table with index values A, A, B, B, B, C and a lookup that agrees with it gives `duplicatedItems = 2` and `total = 5` |

## Left out

- The DynamoDB client (src/main/java/org/aws/dynamodb/DynamoDBClient.java): building the SDK client, connecting to a table, the scan and the index query are network calls into the AWS SDK; the model takes their results as the `Accessor` value given to the finder's constructor.
- Building the client from a region name and connecting to the table in the `DuplicateFinder` constructor and `buildDynamoDBClient`: dependency wiring, replaced by passing the accessor in.
- `main`'s check of the argument count and its usage messages: process plumbing; `FindDuplicates` starts where `main` has its three arguments.
- Log formatting and `Item.toJSON()`: a logged item is kept as the item itself.
- Pagination, remote failures and exceptions raised by the scan or the lookup: each iterator is a finite sequence consumed once, and no failure can abort a run.
- Finder.DuplicateFinder.GetAllIndexColumnValues: requires every scanned row to carry the index attribute as a string; for a row without it `getString` yields null and the source adds null to the set; that path is not modelled, and a non-string index attribute is outside the model.
- Statistics.Statistic.IncrementDuplicatedItems: the counter is an unbounded natural, so Java's 32-bit `int` wrap-around past 2147483647 is not modelled.
- Statistics.Statistic.IncrementTotal: the counter is an unbounded natural, so Java's 32-bit `int` wrap-around past 2147483647 is not modelled.
