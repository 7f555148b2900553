# A Dafny model of the og load generator's core

og is a load generator for object stores. It issues write, read, delete and
metadata requests against a storage system and keeps a pool of the objects it
has written so it can read or delete them later. It stops a test when a
configured condition is met and then reports statistics and a summary.

This project models the following parts of og as pure functions over
immutable values and proves properties about them:

- **Object identity** (`ObjectMetadata`, built on `Bytes`). `LegacyObjectMetadata` is a
  30-octet packed record. It holds an 18-octet name, an 8-octet big-endian
  size and a 4-octet big-endian container suffix. The name is shown as 36
  lowercase hex characters. Equality, hashing and ordering are all defined on
  the packed octets.
- **The object pool** (`ObjectPool`). This is the contract of
  `ObjectManager`. `add` puts an object under management. `get` reserves an
  object for reading and `getComplete` releases it. `remove` takes an object
  out of management.
- **Name routing** (`NameRouting`).
  - `ObjectNameProcessor` decides which object-manager call a request or
    response leads to.
  - `UUIDObjectNameProducer` derives a new object's name from a UUID.
- **Weighted choice** (`Producers`). These are the build and selection rules
  of the random choice producer, and the constant producer.
- **Request selection** (`RequestManagers`).
  - `SimpleRequestManager` has nine request kinds. Each weight must be in
    [0, 100] and the weights must sum to 100 within 10^-6.
  - `OGModule.provideRequestProducer` has three kinds and checks only the sum.
- **Stopping conditions** (`Conditions`). `OGModule.provideTestConditions`
  builds them, and the module's test pins how their configuration is
  validated.
- **Statistics** (`Statistics`). These are the per-operation counters and
  status-code histograms that `Statistics.update` maintains, plus the
  end-of-test `Summary` and `LoadTestResult`.
- **The HTTP operation record** (`Http`). This is the legacy mutable record
  `HTTPOperation`: a URL, a method, header maps and a response code.

Some inputs are taken as parameters instead of being produced inside the
model:

- random draws;
- random UUIDs;
- the object manager's replies;
- timestamps.

A call that throws in the source returns `Err(...)` or `Fail(...)` here, naming
the exception: `IllegalArgument`, `NullPointer`, `UnsupportedMethod`, and so on.

## Model

| member | source | states |
|---|---|---|
| ObjectMetadata.RecordWidth | og-object/src/main/java/com/ibm/og/object/LegacyObjectMetadata.java:22-25 | The packed record is 30 octets. The size field starts at offset 18 and the suffix field at offset 26. |
| ObjectMetadata.FromBytes | og-object/src/main/java/com/ibm/og/object/LegacyObjectMetadata.java:40-47 | Succeeds exactly when the input is 30 octets long and fails with an illegal argument otherwise. The record holds exactly the given octets. |
| ObjectMetadata.BytesRoundTrip | og-object/src/main/java/com/ibm/og/object/LegacyObjectMetadata.java:40-47 | `fromBytes` and `toBytes` are inverse in both directions. |
| ObjectMetadata.FromMetadata | og-object/src/main/java/com/ibm/og/object/LegacyObjectMetadata.java:58-74 | Succeeds exactly when all of these hold: the name has 36 characters and is lowercase base16, the size is not negative, and the suffix is at least -1. Otherwise it fails with an illegal argument. Reading the record back gives the same name, size and suffix. |
| ObjectMetadata.FromMetadataLayout | og-object/src/main/java/com/ibm/og/object/LegacyObjectMetadata.java:69-73 | The packed record holds the decoded name at offset 0, the big-endian size at offset 18 and the big-endian suffix at offset 26. |
| ObjectMetadata.FieldsRoundTrip | og-object/src/main/java/com/ibm/og/object/LegacyObjectMetadata.java:58-89 | A record whose size and suffix are in range is rebuilt exactly by `fromMetadata(getName(), getSize(), getContainerSuffix())`. |
| ObjectMetadata.Name | og-object/src/main/java/com/ibm/og/object/LegacyObjectMetadata.java:76-79 | The name is always 36 lowercase hex characters. |
| ObjectMetadata.EqualsIsIdentity | og-object/src/main/java/com/ibm/og/object/LegacyObjectMetadata.java:91-108 | Two records are equal exactly when they are the same record. Equal records have equal hash codes. |
| ObjectMetadata.WrapInt32 | og-object/src/main/java/com/ibm/og/object/LegacyObjectMetadata.java:105-108 | Java's `int` overflow: the result is the 32-bit value congruent to the input modulo 2^32. |
| ObjectMetadata.CompareBytes | og-object/src/main/java/com/ibm/og/object/LegacyObjectMetadata.java:110-131 | The comparison loop returns the lexicographic difference over signed octets. It is zero exactly on equal arrays. |
| ObjectMetadata.CompareTo | og-object/src/main/java/com/ibm/og/object/LegacyObjectMetadata.java:110-131 | `compareTo` is zero exactly when the records are equal. |
| ObjectMetadata.LexZeroIffEqual | og-object/src/main/java/com/ibm/og/object/LegacyObjectMetadata.java:117-130 | The lexicographic difference is zero exactly on equal octet sequences. |
| ObjectMetadata.LexAntisymmetric | og-object/src/main/java/com/ibm/og/object/LegacyObjectMetadata.java:117-130 | Swapping the arguments negates the comparison. |
| ObjectMetadata.LexTransitive | og-object/src/main/java/com/ibm/og/object/LegacyObjectMetadata.java:117-130 | The strict order given by the comparison is transitive. |
| ObjectMetadata.CompareToContract | og-object/src/main/java/com/ibm/og/object/LegacyObjectMetadata.java:110-131 | `compareTo` is zero exactly on equal records. a < b exactly when b > a. |
| ObjectMetadata.ToBytes | og-object/src/main/java/com/ibm/og/object/LegacyObjectMetadata.java:133-136 | `toBytes` always yields the 30 octets of the record. |
| Bytes.Signed | og-object/src/main/java/com/ibm/og/object/LegacyObjectMetadata.java:123-126 | An octet read as a Java `byte` lies in [-128, 128) and is congruent to the octet modulo 256. |
| Bytes.EncodeHex | og-object/src/main/java/com/ibm/og/object/LegacyObjectMetadata.java:76-79 | Lowercase base16 encoding yields two lowercase hex characters per octet. |
| Bytes.DecodeHexSucceedsIff | og-object/src/main/java/com/ibm/og/object/LegacyObjectMetadata.java:63-70 | Decoding succeeds exactly on even-length strings over the lowercase hex alphabet. |
| Bytes.DecodeEncodeHex | og-object/src/main/java/com/ibm/og/object/LegacyObjectMetadata.java:70-78 | Decoding the encoding of octets gives back the octets. |
| Bytes.EncodeDecodeHex | og-object/src/main/java/com/ibm/og/object/LegacyObjectMetadata.java:70-78 | Encoding the decoding of a decodable name gives back the name. |
| Bytes.HexValueOfHexChar | og-object/src/main/java/com/ibm/og/object/LegacyObjectMetadata.java:26 | Each nibble's character maps back to that nibble. |
| Bytes.FromToBigEndian | og-object/src/main/java/com/ibm/og/object/LegacyObjectMetadata.java:71-88 | Reading back the big-endian octets of a value in range yields that value. |
| Bytes.ToFromBigEndian | og-object/src/main/java/com/ibm/og/object/LegacyObjectMetadata.java:71-88 | Rewriting the value read from octets yields those octets. |
| Bytes.DecodeEncodeSigned | og-object/src/main/java/com/ibm/og/object/LegacyObjectMetadata.java:71-88 | The two's-complement value written by `putLong`/`putInt` is read back unchanged by `getLong`/`getInt`. |
| Bytes.EncodeDecodeSigned | og-object/src/main/java/com/ibm/og/object/LegacyObjectMetadata.java:71-88 | Writing back a value that was read reproduces the octets. |
| Bytes.Int64RoundTrip | og-object/src/main/java/com/ibm/og/object/LegacyObjectMetadata.java:71 | Every `long` survives an 8-octet write and read. |
| Bytes.Int32RoundTrip | og-object/src/main/java/com/ibm/og/object/LegacyObjectMetadata.java:72 | Every `int` survives a 4-octet write and read. |
| ObjectPool.EmptyPool | og-object/src/main/java/com/ibm/og/object/ObjectManager.java:14-42 | A fresh manager manages nothing. |
| ObjectPool.Add | og-object/src/main/java/com/ibm/og/object/ObjectManager.java:15-20 | After `add` the object is under management and available, and the reservations are unchanged. A duplicate is refused. |
| ObjectPool.Get | og-object/src/main/java/com/ibm/og/object/ObjectManager.java:22-28 | `get` returns an available object and reserves it. The set under management is unchanged. It fails exactly when nothing is available. |
| ObjectPool.GetComplete | og-object/src/main/java/com/ibm/og/object/ObjectManager.java:30-35 | `getComplete` makes a reserved object available again. Every other reservation and every other available object is kept, and what is managed is unchanged. It fails exactly for an object that is not reserved. |
| ObjectPool.Remove | og-object/src/main/java/com/ibm/og/object/ObjectManager.java:37-42 | `remove` takes exactly one managed, unreserved object out of management. It fails exactly when nothing is available. |
| ObjectPool.SwapRemove | og-object/src/main/java/com/ibm/og/object/ObjectManager.java:22-42 | Removing a slot drops exactly that object and keeps the list free of duplicates. |
| ObjectPool.Run | og-object/src/main/java/com/ibm/og/object/ObjectManager.java:14-42 | Any sequence of pool calls keeps the pool well formed: no duplicates, and nothing both available and reserved. |
| ObjectPool.StepKeepsManaged | og-object/src/main/java/com/ibm/og/object/ObjectManager.java:15-35 | No call other than `remove` takes an object out of management. |
| ObjectPool.OnlyRemoveShrinks | og-object/src/main/java/com/ibm/og/object/ObjectManager.java:14-42 | Over any run without `remove`, the managed set only grows. |
| ObjectPool.DrainPool | og-object/src/main/java/com/ibm/og/object/ObjectManager.java:37-42 | As many removals as there are available objects succeed. They return every available object exactly once and leave only the reserved objects. |
| ObjectPool.DrainedPoolIsEmpty | og-object/src/main/java/com/ibm/og/object/ObjectManager.java:37-42 | Once the pool is drained, the next `remove` reports an empty pool. |
| NameRouting.Produce | oom-object/src/main/java/com/cleversafe/oom/object/manager/ObjectNameProcessor.java:51-72 | GET asks the manager for a name to read and DELETE asks for a name to delete. Any other method fails. A manager failure yields no name and raises no error. |
| NameRouting.Consume | oom-object/src/main/java/com/cleversafe/oom/object/manager/ObjectNameProcessor.java:74-111 | A response carrying `object_name` completes that write, whatever the URL. Otherwise, a URL path with exactly one `/` releases its name for a GET and fails for any other method. Any other path leads to no manager call. |
| NameRouting.ObjectNameFromPath | oom-object/src/main/java/com/cleversafe/oom/object/manager/ObjectNameProcessor.java:113-119 | A name is extracted exactly when the path splits into two parts, that is, when it holds exactly one `/`. The name holds no `/`. |
| NameRouting.ObjectNameIsAfterSlash | oom-object/src/main/java/com/cleversafe/oom/object/manager/ObjectNameProcessor.java:113-119 | The extracted name is what follows the path's single `/`. |
| NameRouting.SlashNameYieldsName | oom-object/src/main/java/com/cleversafe/oom/object/manager/ObjectNameProcessor.java:113-119 | The path `/name` yields `name`. |
| NameRouting.Split | oom-object/src/main/java/com/cleversafe/oom/object/manager/ObjectNameProcessor.java:41 | `Splitter.on("/")` yields at least one part, and no part contains the separator. |
| NameRouting.SplitJoin | oom-object/src/main/java/com/cleversafe/oom/object/manager/ObjectNameProcessor.java:41 | Rejoining the parts with the separator restores the input. |
| NameRouting.SplitCount | oom-object/src/main/java/com/cleversafe/oom/object/manager/ObjectNameProcessor.java:115-116 | There is one more part than there are separators. |
| NameRouting.UuidObjectName | oom-object/src/main/java/com/cleversafe/oom/object/manager/UUIDObjectNameProducer.java:30-33 | The name is the UUID's non-dash characters, in order, followed by `0000`. It holds no dash. |
| NameRouting.RemoveDashesAppend | oom-object/src/main/java/com/cleversafe/oom/object/manager/UUIDObjectNameProducer.java:32 | Removing dashes distributes over concatenation. |
| NameRouting.CanonicalUuidDashes | oom-object/src/main/java/com/cleversafe/oom/object/manager/UUIDObjectNameProducer.java:32 | A canonical 8-4-4-4-12 UUID has exactly four dashes. |
| NameRouting.CanonicalUuidName | oom-object/src/main/java/com/cleversafe/oom/object/manager/UUIDObjectNameProducer.java:32 | A UUID-derived name is 36 lowercase hex characters, which is exactly what `LegacyObjectMetadata.fromMetadata` accepts. |
| Producers.WithChoice | og-util/src/test/java/com/cleversafe/og/util/producer/RandomChoiceProducerTest.java:78-81 | The builder appends the choice with its weight, after the earlier ones. |
| Producers.WithDefaultChoice | og-util/src/test/java/com/cleversafe/og/util/producer/RandomChoiceProducerTest.java:65-73 | A choice added without a weight is appended after the earlier choices with the default weight. |
| Producers.Build | og-util/src/test/java/com/cleversafe/og/util/producer/RandomChoiceProducerTest.java:35-63 | `build` fails with an illegal argument exactly when there is no choice or some weight is not positive. Otherwise it keeps the choices as given. |
| Producers.SelectIndex | og-util/src/test/java/com/cleversafe/og/util/producer/RandomChoiceProducerTest.java:75-100 | A draw in [0, total) selects the choice whose cumulative-weight interval holds it. |
| Producers.SelectIndexUnique | og-util/src/test/java/com/cleversafe/og/util/producer/RandomChoiceProducerTest.java:75-100 | The intervals do not overlap, so the selected choice is the only one whose interval holds the draw. |
| Producers.CumulativeMonotone | og-util/src/test/java/com/cleversafe/og/util/producer/RandomChoiceProducerTest.java:75-100 | With positive weights the interval bounds strictly increase. |
| Producers.EveryChoiceSelectable | og-util/src/test/java/com/cleversafe/og/util/producer/RandomChoiceProducerTest.java:75-100 | Every choice, fractional weights included, owns a non-empty interval and is produced by some draw. |
| Producers.Produce | og-util/src/test/java/com/cleversafe/og/util/producer/RandomChoiceProducerTest.java:65-100 | `produce` returns one of the configured items. |
| Producers.OneChoice | og-util/src/test/java/com/cleversafe/og/util/producer/RandomChoiceProducerTest.java:65-73 | With a single choice, every draw produces it. |
| Producers.NChoices | og-util/src/test/java/com/cleversafe/og/util/producer/RandomChoiceProducerTest.java:75-100 | With weights 33, 33.5 and 33, each of the three items is produced by some draw. |
| Producers.NewConstant | og-util/src/main/java/com/cleversafe/og/util/producer/ConstantProducer.java:27-30 | Construction fails with a null pointer exactly when no item is given. Otherwise the producer returns the given item. |
| Producers.ProduceMany | og-util/src/main/java/com/cleversafe/og/util/producer/ConstantProducer.java:32-36 | `n` calls of `produce` give `n` results. |
| Producers.ConstantIsConstant | og-util/src/main/java/com/cleversafe/og/util/producer/ConstantProducer.java:25-36 | Every call of `produce` returns the item given at construction. |
| RequestManagers.PositiveChoices | og-test/src/main/java/com/ibm/og/test/SimpleRequestManager.java:105-132 | The choice table has only positive weights. Each entry carries its own kind's weight. |
| RequestManagers.TableFollowsOrder | og-test/src/main/java/com/ibm/og/test/SimpleRequestManager.java:105-132 | Kinds enter the table in the constructor's order: write, overwrite, read, metadata, delete, list, container list, container create, multipart write. |
| RequestManagers.TableMembership | og-test/src/main/java/com/ibm/og/test/SimpleRequestManager.java:105-132 | A kind is in the table exactly when its weight is positive. |
| RequestManagers.SomeWeightPositive | og-test/src/main/java/com/ibm/og/test/SimpleRequestManager.java:99-103 | When the weight sum is positive, some kind has a positive weight, so the table is not empty. |
| RequestManagers.NewSimpleRequestManager | og-test/src/main/java/com/ibm/og/test/SimpleRequestManager.java:81-133 | Construction succeeds exactly when every weight is in [0, 100] and the sum is 100 within 10^-6. Otherwise it fails with an illegal argument. On success the choice table is the positive-weight kinds in order. |
| RequestManagers.GetRequest | og-test/src/main/java/com/ibm/og/test/SimpleRequestManager.java:136-140 | `get` returns a kind that is in the table. |
| RequestManagers.GetHasPositiveWeight | og-test/src/main/java/com/ibm/og/test/SimpleRequestManager.java:105-140 | A kind with weight 0 is never returned. |
| RequestManagers.TableTotal | og-test/src/main/java/com/ibm/og/test/SimpleRequestManager.java:99-132 | With no negative weight, the table's total weight equals the configured sum. |
| RequestManagers.ValidTableTotal | og-test/src/main/java/com/ibm/og/test/SimpleRequestManager.java:32-33 | The table of a valid manager totals within 10^-6 of 100. |
| RequestManagers.SumOfOne | og-test/src/main/java/com/ibm/og/test/SimpleRequestManager.java:99-101 | When only one kind has a non-zero weight, the sum is that weight. |
| RequestManagers.SingleKindAlwaysChosen | og-test/src/main/java/com/ibm/og/test/SimpleRequestManager.java:81-140 | A kind weighted 100 with every other kind at 0 is valid and is returned by every draw. |
| RequestManagers.ProvideRequestProducer | og-configuration/src/main/java/com/cleversafe/og/guice/OGModule.java:139-164 | Succeeds exactly when the three weights sum to 100 within 10^-6. A kind is offered exactly when its weight is positive. Each offered kind carries its own weight, and the kinds appear in the order write, read, delete. |
| RequestManagers.OfferIfPositive | og-configuration/src/main/java/com/cleversafe/og/guice/OGModule.java:156-161 | A kind is appended to the builder with its weight exactly when that weight is positive. |
| RequestManagers.ThreeKindTableOffers | og-configuration/src/main/java/com/cleversafe/og/guice/OGModule.java:154-161 | The table holds each positive-weight kind once, with its own weight, in the order write, read, delete, and no other kind. |
| RequestManagers.ThreeKindTableOffersEach | og-configuration/src/main/java/com/cleversafe/og/guice/OGModule.java:154-161 | A kind is in the table exactly when its weight is positive, and it carries that weight. |
| RequestManagers.ThreeKindTableInRankOrder | og-configuration/src/main/java/com/cleversafe/og/guice/OGModule.java:154-161 | Write comes before read, and read before delete, so no kind appears twice. |
| RequestManagers.ProvideRequestProducerAcceptsNegativeWeight | og-configuration/src/main/java/com/cleversafe/og/guice/OGModule.java:150-161 | The weights write 150, read -50, delete 0 pass the check and give a producer that offers only writes, with weight 150. |
| RequestManagers.ProvideRequestProducerChecked | og-configuration/src/main/java/com/cleversafe/og/guice/OGModule.java:150-152 | With the range check restored, this succeeds exactly when each weight is in [0, 100] and the sum is 100. No offered weight exceeds 100. |
| Conditions.Validate | og-configuration/src/test/java/com/ibm/og/guice/OGModuleTest.java:50-61 | A configuration passes exactly when it is well formed. A missing unit or map is a null pointer. A negative operations count, runtime, concurrency or status-code count is an illegal argument. |
| Conditions.StatusCodeConditions | og-configuration/src/main/java/com/cleversafe/og/guice/OGModule.java:118-124 | There is one status-code condition per map entry with a positive count, and no other. |
| Conditions.StatusCodeConditionCount | og-configuration/src/main/java/com/cleversafe/og/guice/OGModule.java:118-124 | The number of status-code conditions is the number of entries with a positive count. |
| Conditions.BuildConditions | og-configuration/src/main/java/com/cleversafe/og/guice/OGModule.java:108-124 | Building fails with a null pointer exactly when the status-code map is missing. |
| Conditions.ProvideTestConditions | og-configuration/src/main/java/com/cleversafe/og/guice/OGModule.java:97-135 | Conditions are provided exactly for well-formed configurations. A failure reports the validation error. On success the list is the one the module builds. |
| Conditions.ConditionMembership | og-configuration/src/main/java/com/cleversafe/og/guice/OGModule.java:110-127 | The operations counter, the aborts counter and the runtime condition are each present exactly when their threshold is positive, and then carry it. A status-code condition is present exactly for an entry with a positive count. |
| Conditions.ConditionCountAndOrder | og-configuration/src/main/java/com/cleversafe/og/guice/OGModule.java:108-134 | The list has one condition per positive threshold, ordered operations, aborts, status codes, runtime. |
| Conditions.NothingConfiguredNoConditions | og-configuration/src/main/java/com/cleversafe/og/guice/OGModule.java:108-134 | All-zero thresholds give an empty list. |
| Conditions.InvalidConditionRows | og-configuration/src/test/java/com/ibm/og/guice/OGModuleTest.java:54-60 | The six invalid configurations of the test fail with their expected exceptions. |
| Statistics.FreshStatistics | og-statistic/src/test/java/com/cleversafe/og/statistic/StatisticsTest.java:45-47 | New statistics count nothing and have seen no status code. |
| Statistics.GetStatusCode | og-statistic/src/test/java/com/cleversafe/og/statistic/StatisticsTest.java:122-138 | `getStatusCode` fails with an illegal argument exactly for codes outside [100, 600). Otherwise it returns the code's count in the `statusCodes` histogram, or 0 when the code was never seen. |
| Statistics.InvalidStatusCodeRows | og-statistic/src/test/java/com/cleversafe/og/statistic/StatisticsTest.java:122-129 | The codes -1, 0, 99 and 600 are refused. |
| Statistics.KindOf | og-statistic/src/test/java/com/cleversafe/og/statistic/StatisticsTest.java:62-110 | An exchange is never counted under `All` directly. |
| Statistics.Transferred | og-statistic/src/test/java/com/cleversafe/og/statistic/StatisticsTest.java:75-110 | An unsuccessful exchange moves no bytes. A successful write moves exactly its request body and a successful read exactly its response body. Nothing else moves bytes. |
| Statistics.Update | og-statistic/src/test/java/com/cleversafe/og/statistic/StatisticsTest.java:62-110 | `update` records the exchange in its kind and in `All`: one more operation, the transferred bytes, and one more response with its code. Every other kind is unchanged. |
| Statistics.AfterUpdate | og-statistic/src/test/java/com/cleversafe/og/statistic/StatisticsTest.java:168-179 | Seen through `get` and `getStatusCode`, an update adds one operation, the transferred bytes and one count for its code. No other code changes. |
| Statistics.UpdateKeepsCounterSums | og-statistic/src/test/java/com/cleversafe/og/statistic/StatisticsTest.java:62-110 | If each `All` counter is the sum over the kinds before an update, it still is afterwards. |
| Statistics.UpdateKeepsCodeSums | og-statistic/src/test/java/com/cleversafe/og/statistic/StatisticsTest.java:62-110 | If each `All` status-code count is the sum over the kinds before an update, it still is afterwards. |
| Statistics.UpdateKeepsAggregate | og-statistic/src/test/java/com/cleversafe/og/statistic/StatisticsTest.java:62-110 | An update keeps `All` equal to the sum of the kinds, counter by counter and code by code. |
| Statistics.AggregateIsSum | og-statistic/src/test/java/com/cleversafe/og/statistic/StatisticsTest.java:62-110 | Any sequence of updates keeps `All` equal to the sum of the kinds. |
| Statistics.FreshIsConsistent | og-statistic/src/test/java/com/cleversafe/og/statistic/StatisticsTest.java:45-47 | New statistics satisfy the aggregate invariant. |
| Statistics.CountersMonotone | og-statistic/src/test/java/com/cleversafe/og/statistic/StatisticsTest.java:62-110 | Counters never decrease. |
| Statistics.RepeatedUpdatesFrom | og-statistic/src/test/java/com/cleversafe/og/statistic/StatisticsTest.java:140-166 | `n` identical updates add `n` operations and `n` times the transferred bytes. They add `n` to the count of their code and nothing to other codes. |
| Statistics.RepeatedUpdates | og-statistic/src/test/java/com/cleversafe/og/statistic/StatisticsTest.java:140-166 | From fresh statistics, `n` identical updates leave `n` operations, `n` times the bytes, and a histogram holding only their code with count `n`. |
| Statistics.RepeatedUpdatesHistogram | og-statistic/src/test/java/com/cleversafe/og/statistic/StatisticsTest.java:165-179 | After `n` identical updates, `getStatusCode` reports `n`, and every histogram entry agrees with `getStatusCode`. |
| Statistics.OneUpdate | og-statistic/src/test/java/com/cleversafe/og/statistic/StatisticsTest.java:62-66 | After one update of fresh statistics, its kind has one operation, the transferred bytes and one response with its code. |
| Statistics.TwoUpdates | og-statistic/src/test/java/com/cleversafe/og/statistic/StatisticsTest.java:68-81 | After two updates of one kind, the kind has two operations, both byte counts, and both codes counted. |
| Statistics.WriteRow | og-statistic/src/test/java/com/cleversafe/og/statistic/StatisticsTest.java:62-66 | One 201 write of 1024 bytes gives 1 operation, 1024 bytes and one 201. |
| Statistics.WriteTwiceRow | og-statistic/src/test/java/com/cleversafe/og/statistic/StatisticsTest.java:68-73 | Two such writes give 2 operations, 2048 bytes and two 201s. |
| Statistics.WriteFailedRow | og-statistic/src/test/java/com/cleversafe/og/statistic/StatisticsTest.java:75-81 | A write answered 500 counts as an operation but adds no bytes and no 201. |
| Statistics.ReadRow | og-statistic/src/test/java/com/cleversafe/og/statistic/StatisticsTest.java:83-90 | A read counts its 1024-byte response body. |
| Statistics.ReadFailedRow | og-statistic/src/test/java/com/cleversafe/og/statistic/StatisticsTest.java:92-102 | A read answered 500 adds no bytes. |
| Statistics.DeleteRow | og-statistic/src/test/java/com/cleversafe/og/statistic/StatisticsTest.java:104-110 | A delete counts one operation and no bytes. |
| Statistics.Snapshot | og-configuration/src/test/java/com/cleversafe/og/cli/SummaryTest.java:72-86 | A summary line reports its operation, its counters and a histogram that agrees with `getStatusCode`. |
| Statistics.NewSummary | og-configuration/src/test/java/com/cleversafe/og/cli/SummaryTest.java:35-70 | A summary needs non-negative, ordered timestamps and fails with an illegal argument otherwise. It echoes the timestamps, and the runtime is their difference divided by 1000. It counts all operations and mirrors the write, read and delete statistics. |
| Statistics.SummaryTotal | og-configuration/src/test/java/com/cleversafe/og/cli/SummaryTest.java:65-86 | The summary's operation total is the sum of the kinds' operations. |
| Statistics.InvalidSummaryRows | og-configuration/src/test/java/com/cleversafe/og/cli/SummaryTest.java:38-41 | The timestamp pairs (-1, 0), (0, -1) and (1, 0) are refused. |
| Statistics.OneReadSummary | og-configuration/src/test/java/com/cleversafe/og/cli/SummaryTest.java:52-87 | After one 200 read of 1024 bytes, the summary shows 1 operation, runtime 0.1, a read line (1, 1024, {200: 1}), and empty write and delete lines. |
| Statistics.NewLoadTestResult | og-test/src/main/java/com/ibm/og/test/condition/LoadTestResult.java:18-28 | A result needs 0 <= start <= finish and fails with an illegal argument otherwise. The fields are kept as given. |
| Statistics.InstantResult | og-test/src/main/java/com/ibm/og/test/condition/LoadTestResult.java:20-22 | A test that starts and finishes at the same instant is a valid result. |
| Http.NewOperation | oom-http/src/test/java/com/cleversafe/oom/operation/HTTPOperationTest.java:37-42 | A new operation has the given URL and method, no headers, and response code -1. |
| Http.SetUrl | oom-http/src/test/java/com/cleversafe/oom/operation/HTTPOperationTest.java:68-75 | `getURL` after `setURL` returns the new URL. Nothing else changes. |
| Http.SetMethod | oom-http/src/test/java/com/cleversafe/oom/operation/HTTPOperationTest.java:89-94 | `getMethod` after `setMethod` returns the new method. Nothing else changes. |
| Http.SetResponseCode | oom-http/src/test/java/com/cleversafe/oom/operation/HTTPOperationTest.java:150-186 | Only positive codes are accepted, and the others fail with an illegal argument. An accepted code is what `getResponseCode` returns. |
| Http.GetHeader | oom-http/src/test/java/com/cleversafe/oom/operation/HTTPOperationTest.java:102-106 | A header lookup finds a value exactly when the key is set. |
| Http.SetRequestHeader | oom-http/src/test/java/com/cleversafe/oom/operation/HTTPOperationTest.java:120-125 | After `setRequestHeader`, the key maps to the value and every other request header is unchanged. The response headers are untouched. |
| Http.SetResponseHeader | oom-http/src/test/java/com/cleversafe/oom/operation/HTTPOperationTest.java:212-217 | After `setResponseHeader`, the key maps to the value and every other response header is unchanged. The request headers are untouched. |
| Http.RequestHeaderIterator | oom-http/src/test/java/com/cleversafe/oom/operation/HTTPOperationTest.java:127-148 | After setting pairs with distinct keys, the request-header iterator yields exactly the earlier pairs plus those pairs. |
| Http.ResponseHeaderIterator | oom-http/src/test/java/com/cleversafe/oom/operation/HTTPOperationTest.java:219-240 | After setting pairs with distinct keys, the response-header iterator yields exactly the earlier pairs plus those pairs. |
| Http.ItemsOfNewKey | oom-http/src/test/java/com/cleversafe/oom/operation/HTTPOperationTest.java:136-141 | Setting a new key adds exactly its pair to what the iterator yields. |

## Left out

- Concurrency is left out. Each `update` of `Statistics` is modelled as one atomic step. The test's ten-thread run is modelled as 1000 sequential updates (`Statistics.RepeatedUpdates`).
- Null arguments are left out. Each `checkNotNull` on a required collaborator, and each null key or value in a test, has no counterpart in Dafny's types. The exception is where the null is data the source branches on: a missing status-code map, a missing runtime unit, a manager failure, or a missing constant item.
- The event bus is left out: registering conditions and statistics with it, and delivering events.
- Shutting down the object manager is left out, and so is persisting its objects to files.
- Guice wiring is left out: `configure`, `provideStatistics`, `provideObjectManager`, and the object-name producer and consumer providers in `OGModule.java` lines 77-93 and 166-217.
- When a test condition fires is left out. The model builds the list of conditions and their thresholds. The conditions observe `Statistics` and stop the test, and that part is not modelled.
- Conditions.ProvideTestConditions: the validation is taken from `OGModuleTest.java`, because `OGModule.provideTestConditions` (OGModule.java:97-135) validates nothing. The test calls a newer signature that takes separate stopping and failing configurations plus a concurrency configuration. Both configurations are merged into one here. A concurrent-requests condition is validated but not built, because `OGModule.provideTestConditions` builds none.
- Conditions.BuildConditions: a Java `HashMap` has no fixed iteration order. The status-code map is taken as its entries, in the order the map yields them.
- Statistics: `Statistics.java` is not part of this model. Its update rule is taken from what `StatisticsTest.java` and `SummaryTest.java` pin:
  - PUT and POST count as writes, GET as reads, HEAD as metadata and DELETE as deletes.
  - Only a 2xx response moves bytes: a write moves its request body, a read its response body, and anything else moves nothing.
  - `All` accumulates every kind.

  The tests do not pin the POST and HEAD mapping or the aborts counter. Aborts are never incremented here.
- Statistics.NewSummary: Java `long` timestamps and the `double` runtime are modelled as an unbounded integer and an exact real.
- Statistics.NewLoadTestResult: `messages` is a list of strings kept as given. Immutability is a property of Dafny's values.
- ObjectPool: `ObjectManager.java` is an interface whose comments leave these behaviours unspecified:
  - adding a duplicate;
  - `get` or `remove` on an empty pool;
  - completing an object that was not reserved.

  The model refuses each of them with an error and leaves the pool unchanged. Which object a random draw picks is modelled as swap-removal at an index reduced modulo the number of available objects.
- NameRouting.Consume: a written name is converted through `LegacyObjectName.forBytes(...getBytes())`, and that conversion is not modelled. The name is passed on as text.
- Producers: `RandomChoiceProducer.java` is not part of this model. Build and selection follow what `RandomChoiceProducerTest.java` pins. The random source is a draw in [0, total weight), so the probability distribution itself is not stated. Weights that are themselves producers (`Producers.of(33.5)`) are taken as their constant values. The default weight of a choice added without one is assumed to be 1.0; the test only needs it to be positive.
- RequestManagers.NewSimpleRequestManager: `double` arithmetic is modelled with reals. Floating-point rounding in the weight sum is not modelled.
- WeightedRandomChoiceProducer, ApacheClient, NOHModule, ObjectManagerModule, the S3 multipart consumer, MonitoringInputStream, the time-unit type adapter, MetaDataEntry and ByteBufferConsumer are left out. None of them is part of the modelled core.
- `LegacyObjectMetadata.toString` is left out because it only formats text.
- ObjectMetadata.ToBytes: Java's `toBytes` returns the record's internal buffer (LegacyObjectMetadata.java:134-136), so a caller can change the record through it. The model is immutable and drops that aliasing.

## Findings

| source | as written | input that shows it | evidently intended | confidence | as-written member | corrected member |
|---|---|---|---|---|---|---|
| og-configuration/src/main/java/com/cleversafe/og/guice/OGModule.java:150-161 | `provideRequestProducer` checks only that the three weights sum to 100, so a negative weight is accepted and the other weights can exceed 100 | write 150, read -50, delete 0: accepted, and the producer offers only writes, with weight 150 | each weight in [0, 100], as `SimpleRequestManager` checks at lines 81-98 | not executed | RequestManagers.ProvideRequestProducerAcceptsNegativeWeight | RequestManagers.ProvideRequestProducerChecked |
