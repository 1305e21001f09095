# embedded-redis-cluster: node-table check and OS detection in Dafny

This project models two self-contained pieces of the embedded Redis cluster library:

- **The node-table check** of `RedisClusterTest.testClusterRolesAreCorrectlyInitialized`.
  It takes the text of a `CLUSTER NODES` report. It splits the text into lines and each line
  into space-separated fields. Lines with fewer than three fields are skipped. From the others
  it reads the node id, the port in `host:port@busport` and the comma-separated flags. It builds
  a map from node id to port and a map from replica port to master id. A port above 8000 must
  carry the `slave` flag; any other port must carry `master`. Every replica's master must listen
  1000 below the replica. The fixed-port fixture of `setUp` (groups 7001/8001, 7002/8002,
  7003/8003) is modelled as well, with the report that the node on port 7001 gives once the
  cluster has formed. That report is in the `CLUSTER NODES` layout. Each line holds the id,
  the address, the flags (`myself,master` on the queried node's own line), the master id or
  `-`, ping and pong times, the config epoch, the link state and, on masters, a slot range.
  Redis draws node ids at random, so the ids are a parameter of the fixture lemmas.
- **`OSDetector`**. It classifies an OS name as `WINDOWS`, `UNIX` or `MAC_OS_X`, or fails with
  `OsDetectionException`. It lower-cases the name and runs an ordered chain of tests.
  `getArchitecture` always answers `x86_64`.

Files:

- `results.dfy`: module `Results`, with `Option` and `Result`. A thrown exception or a failed
  assertion becomes an error value.
- `java_lang.dfy`: module `JavaLang`, the Java library behaviour the code relies on.
  `String.split` with a one-character pattern gives the whole string when the character does
  not occur. Otherwise it gives the pieces between occurrences, with trailing empty pieces
  dropped. `Integer.parseInt` accepts an optional sign, then decimal digits, within the `int`
  range. The module also has ASCII `toLowerCase`, `contains` and `equalsIgnoreCase`.
- `os_detector.dfy`: module `OSDetection`, with `GetOS` as a pure function of the name and the
  properties of the test order.
- `node_table.dfy`: module `NodeTable`. `ScanLines` is the line loop, specified as a left fold
  over the lines. `VerifyNodeTable` is the loop itself: a method that updates the two maps, then
  runs the replica loop in `CheckReplicas`. The lemmas state what the maps hold and when the
  check fails.
- `cluster_fixture.dfy`: module `ClusterFixture`, with the `setUp` port groups, reports of
  well-formed replication groups in general, and the report of the formed fixture cluster.

Failures are reported in the order the code meets them, and each carries its line index:

- an address with no field after `:` gives `AddressIndexOutOfBounds`;
- a port that is not an `int` gives `PortNotANumber`;
- a line with exactly three fields passes the length guard, but reading field 3 fails, giving
  `ReplicaOfIndexOutOfBounds`;
- a missing role flag gives `RoleAssertionFailed`.

The node id is stored before field 3 is read. This has no effect, because any failure ends the
check. In the replica loop, a master id that is not a node id makes the unboxing of `null`
throw, giving `MasterNotFound`. A master on the wrong port fails `assertEquals`, giving
`MasterPortMismatch`. `HashMap` iteration order is unspecified, so `CheckReplicas` takes the
entries in any order. Its contract holds for every order: it passes exactly when every entry
passes, and a failure names some failing entry.

Two details of the code are easy to misread, and the model keeps them as written:

- The code splits each line on a single space, not on whitespace, so two spaces in a row make
  an empty field.
- The port is field 1 of the part before the first `@`, split on `:`. It is the text between
  the first and the second `:`, not everything after the first `:`.

## Model

| member | source | states |
|---|---|---|
| `NodeTable.VerifyNodeTable` | src/test/java/redis/embedded/RedisClusterTest.java:83-117 | a failure in the line loop is the result as-is; otherwise the check succeeds, returning exactly the two maps of the line loop, iff every replica entry is consistent, and otherwise fails on some inconsistent entry |
| `NodeTable.CheckReplicas` | src/test/java/redis/embedded/RedisClusterTest.java:111-116 | in any iteration order: succeeds iff every replica's master id is a node id whose port is the replica port minus 1000; a failure names an entry that fails (master missing or on the wrong port) |
| `NodeTable.ErrorPersists` | src/test/java/redis/embedded/RedisClusterTest.java:86-109 | once a prefix of the lines fails, the whole report fails with that same failure (the first failure ends the check) |
| `NodeTable.PrefixScans` | src/test/java/redis/embedded/RedisClusterTest.java:86-109 | if the whole line loop completes, every prefix of it completes |
| `NodeTable.ShortLineSkipped` | src/test/java/redis/embedded/RedisClusterTest.java:90-93 | removing a line with fewer than three fields changes neither whether the loop completes nor the maps it builds, and a failure stays the same failure apart from its line number |
| `NodeTable.ShortLastLineSkipped` | src/test/java/redis/embedded/RedisClusterTest.java:91-93 | a short final line leaves the outcome of the lines before it unchanged |
| `NodeTable.ThreeFieldLineFails` | src/test/java/redis/embedded/RedisClusterTest.java:91-100 | a line with exactly three fields always makes the check fail; if no earlier line failed, the failure is on that line, and it is the missing field 3 when the address holds a port |
| `NodeTable.BusSuffixIgnored` | src/test/java/redis/embedded/RedisClusterTest.java:95 | appending `@` and any bus suffix to an address without `@` never changes the port read from it, nor the error |
| `NodeTable.AddressRoundTrip` | src/test/java/redis/embedded/RedisClusterTest.java:95 | `host:port@bus` with a host free of `:` and `@` yields exactly `port`, for every int port |
| `NodeTable.NodeIdKeys` | src/test/java/redis/embedded/RedisClusterTest.java:98 | the node map's keys are exactly the ids (field 0) of the lines that are not skipped |
| `NodeTable.NodePortFromLine` | src/test/java/redis/embedded/RedisClusterTest.java:95-98 | every port in the node map is the port of some node line with that id |
| `NodeTable.NodeIdToPortIsLastWrite` | src/test/java/redis/embedded/RedisClusterTest.java:98 | a node line's id maps to that line's port unless a later node line has the same id (a later line overwrites an earlier one) |
| `NodeTable.ReplicaKeys` | src/test/java/redis/embedded/RedisClusterTest.java:102-108 | the replica map's keys are exactly the ports above 8000 carried by node lines; no port at or below 8000 is ever entered |
| `NodeTable.ReplicaIsLastWrite` | src/test/java/redis/embedded/RedisClusterTest.java:100-104 | a replica port maps to field 3 of the last node line with that port |
| `NodeTable.NodeLineRoles` | src/test/java/redis/embedded/RedisClusterTest.java:100-108 | on a completed loop every node line has a field 3 and a port; a port above 8000 has the `slave` flag and is a replica key, any other port has the `master` flag |
| `NodeTable.MasterLineOf` | src/test/java/redis/embedded/RedisClusterTest.java:111-116 | on a passing check, each replica's master id is field 0 of a node line whose port is 1000 below the replica |
| `NodeTable.PassedReplicaHasMaster` | src/test/java/redis/embedded/RedisClusterTest.java:111-116 | on a passing check, field 3 of each replica line (the last one with its port) names a node line listening 1000 below it |
| `NodeTable.ScanNextIgnoresLineNumber` | src/test/java/redis/embedded/RedisClusterTest.java:86-109 | whether a line passes, and the maps it yields, do not depend on the line's position |
| `NodeTable.NodeLineFields` | src/test/java/redis/embedded/RedisClusterTest.java:88-90 | a line written in the layout of the `CLUSTER NODES` report splits back into exactly its fields |
| `NodeTable.NodeLineScans` | src/test/java/redis/embedded/RedisClusterTest.java:90-108 | a well-formed line whose comma-separated flags include the role its port calls for records its id and port, and a replica line also records its master id under its port; the fields after the master id are never read |
| `NodeTable.NodeLineIsOneLine` | src/test/java/redis/embedded/RedisClusterTest.java:83 | a rendered node line whose fields hold no newline is itself free of newlines and not empty, so it stays one line of the report |
| `ClusterFixture.FixtureFollowsConvention` | src/test/java/redis/embedded/RedisClusterTest.java:24-26 | each group is a master and one replica exactly 1000 above it, the master at or below 8000 and the replica above, and the six ports are pairwise distinct |
| `ClusterFixture.MasterLineScans` | src/test/java/redis/embedded/RedisClusterTest.java:95-107 | a well-formed group's master line, flagged "master" among other flags, adds the master's id and port and no replica entry |
| `ClusterFixture.ReplicaLineScans` | src/test/java/redis/embedded/RedisClusterTest.java:95-104 | a well-formed group's replica line adds the replica's id and port and its master's id under its port |
| `ClusterFixture.GroupLinesScan` | src/test/java/redis/embedded/RedisClusterTest.java:86-109 | a group's master line followed by its replica line, after lines that pass, adds both ids and the replica's master entry |
| `ClusterFixture.GroupLinesAreLines` | src/test/java/redis/embedded/RedisClusterTest.java:83 | a well-formed group's two lines contain no newline and are not empty |
| `ClusterFixture.ReportLinesAreLines` | src/test/java/redis/embedded/RedisClusterTest.java:83 | no line of a report of well-formed groups contains a newline or is empty |
| `ClusterFixture.ReportScans` | src/test/java/redis/embedded/RedisClusterTest.java:86-109 | for any number of well-formed groups, the line loop over their report completes with both ids of every group and every replica's master id |
| `ClusterFixture.ThreeGroupsScan` | src/test/java/redis/embedded/RedisClusterTest.java:86-109 | a report of three well-formed groups consists of single lines and scans to the six ids and three replica entries |
| `ClusterFixture.MyselfMasterFlags` | src/test/java/redis/embedded/RedisClusterTest.java:96 | the queried node's flags "myself,master" split into the two flags "myself" and "master" |
| `ClusterFixture.FixtureGroupsWellFormed` | src/test/java/redis/embedded/RedisClusterTest.java:24-34 | for any node ids that are non-empty, distinct and free of spaces and newlines, the three fixture groups are well formed |
| `ClusterFixture.FixtureLinesScan` | src/test/java/redis/embedded/RedisClusterTest.java:86-109 | whatever ids the nodes drew, the fixture report's six lines are single lines and the loop over them builds exactly the expected node and replica maps |
| `ClusterFixture.FixtureReportPasses` | src/test/java/redis/embedded/RedisClusterTest.java:83-117 | whatever ids the nodes drew, the newline-terminated report of the formed fixture cluster passes the whole check, with the expected maps |
| `JavaLang.SplitShape` | src/test/java/redis/embedded/RedisClusterTest.java:90 | no field of a split contains the separator, and a string without it splits into itself |
| `JavaLang.SplitJoin` | src/test/java/redis/embedded/RedisClusterTest.java:90 | splitting parts joined by a separator gives the parts back, when no part holds the separator and the last part is not empty |
| `JavaLang.SplitTerminated` | src/test/java/redis/embedded/RedisClusterTest.java:83 | a report whose every line ends in a newline splits into exactly its lines (the trailing empty piece is dropped) |
| `JavaLang.SplitAfterPrefix` | src/test/java/redis/embedded/RedisClusterTest.java:95 | the first field of a split is the text before the first separator, or the split is empty when that text is |
| `JavaLang.JoinPieces` | src/test/java/redis/embedded/RedisClusterTest.java:90 | joining the pieces of a string with the separator gives back the string |
| `JavaLang.PiecesJoin` | src/test/java/redis/embedded/RedisClusterTest.java:90 | the pieces of a join are the joined parts, when no part holds the separator |
| `JavaLang.DropTrailingEmptyShape` | src/test/java/redis/embedded/RedisClusterTest.java:90 | dropping trailing empty fields keeps a prefix, removes only empty strings and leaves no empty last field |
| `JavaLang.ParseIntAccepts` | src/test/java/redis/embedded/RedisClusterTest.java:95 | a parsed port is a Java int, written as an optional sign or a digit followed only by digits |
| `JavaLang.ParseDecimal` | src/test/java/redis/embedded/RedisClusterTest.java:95 | parsing the decimal text of any non-negative int gives that int back |
| `JavaLang.DecimalValue` | src/test/java/redis/embedded/RedisClusterTest.java:95 | the digits of the decimal rendering of n have value n |
| `JavaLang.EqualsIgnoreCaseIsLowerEquality` | src/main/java/redis/embedded/util/OSDetector.java:14 | equalsIgnoreCase holds exactly when both strings are equal after lower-casing |
| `JavaLang.LowerIdempotent` | src/main/java/redis/embedded/util/OSDetector.java:8 | lower-casing twice is lower-casing once |
| `JavaLang.ContainsChar` | src/main/java/redis/embedded/util/OSDetector.java:10-13 | if a string contains a substring, it contains each character of it |
| `OSDetection.GetOS` | src/main/java/redis/embedded/util/OSDetector.java:7-19 | a failure carries the message "Unrecognized OS: " followed by the lower-cased name |
| `OSDetection.GetArchitecture` | src/main/java/redis/embedded/util/OSDetector.java:21-23 | the architecture is always x86_64, never any other architecture |
| `OSDetection.CaseInsensitive` | src/main/java/redis/embedded/util/OSDetector.java:8 | classifying the lower-cased name gives the same outcome as classifying the name |
| `OSDetection.SameLowerSameOS` | src/main/java/redis/embedded/util/OSDetector.java:8 | two names that agree after lower-casing are classified alike |
| `OSDetection.WindowsIffWin` | src/main/java/redis/embedded/util/OSDetector.java:10-11 | the result is WINDOWS iff the lower-cased name contains "win", whatever else it contains |
| `OSDetection.DarwinIsWindows` | src/main/java/redis/embedded/util/OSDetector.java:10-11 | "Darwin" and "darwin" are classified WINDOWS, because they contain "win" |
| `OSDetection.UnixIff` | src/main/java/redis/embedded/util/OSDetector.java:12-13 | the result is UNIX iff the lower-cased name has no "win" but contains "nix", "nux" or "aix" |
| `OSDetection.NoneOfTheSubstrings` | src/main/java/redis/embedded/util/OSDetector.java:10-13 | a name with neither 'n' nor 'i' matches none of the WINDOWS and UNIX tests |
| `OSDetection.MacNameHasNoEarlierMatch` | src/main/java/redis/embedded/util/OSDetector.java:10-15 | "mac os x" passes none of the tests that come before the MAC_OS_X test |
| `OSDetection.MacIffWholeName` | src/main/java/redis/embedded/util/OSDetector.java:14-15 | the result is MAC_OS_X iff the whole lower-cased name is "mac os x" |
| `OSDetection.MacSubstringNotEnough` | src/main/java/redis/embedded/util/OSDetector.java:14-18 | "Mac OS X 10.15" merely contains "mac os x" and is rejected, with message "Unrecognized OS: mac os x 10.15" |
| `OSDetection.UnrecognizedIff` | src/main/java/redis/embedded/util/OSDetector.java:16-18 | the detection fails iff the lower-cased name passes none of the three tests; otherwise an OS is returned |

## Left out

- Cluster start and stop, `ports()`, the builder and the ephemeral cluster
  (RedisClusterTest.java:31-45, 128-129). `RedisCluster`, process spawning and port discovery
  are not part of this model.
- The Jedis and JedisCluster calls and the set/get round trip through a live cluster
  (RedisClusterTest.java:47-75, 82, 119-123). They are a network client against external
  servers. The `clusterNodes()` text is the `report` parameter of `VerifyNodeTable`.
- The JUnit lifecycle and the exception classes. Assertion failures, runtime exceptions and
  `OsDetectionException` are error values.
- `System.getProperty("os.name")`. The name is the parameter of `GetOS`.
- `Lower`, `EqualsIgnoreCase`: only ASCII letters are case-folded. Java's `toLowerCase`
  depends on the locale and on Unicode case mappings. For example, the Turkish locale folds
  `I` to a dotless `ı`, and that is not modelled.
- `ParseInt`: only ASCII digits count as digits. Java's `Character.digit` also accepts other
  Unicode decimal digits.
- `Split`: only splitting on one character that is not a regular-expression metacharacter is
  modelled, since that is all the code does. General regular-expression splitting is left out.
- The `Architecture` enum beyond the constant the code names. Its other values are gathered in
  `OtherArchitecture`, because `Architecture.java` is not part of this model.
- The fixture report's ping and pong times are fixed stand-ins for values Redis reads from its
  clock. `NodeLineScans` holds for any fields after the master id, so their values do not matter.
- The fixture report lists the groups in declaration order. Redis may list nodes in another
  order. The model does not prove that reordering the lines of a report keeps its maps.
