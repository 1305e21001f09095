/**
 * The cluster node-table check of RedisClusterTest.testClusterRolesAreCorrectlyInitialized:
 * it reads the text that `CLUSTER NODES` returns, one node per line, with space-separated
 * fields `<id> <host:port@busport> <flags> <master-id> ...`, builds a map from node id to
 * port and a map from replica port to master id, and checks the test cluster's port
 * conventions: a port above 8000 is a replica ("slave" flag), any other port a master
 * ("master" flag), and every replica's master listens 1000 below it.
 *
 * `ScanLines` is the specification of the first loop as a left fold over the lines;
 * `VerifyNodeTable` is the loop itself, with its two maps as local state.
 */
module NodeTable {
  import opened Results
  import opened JavaLang

  /** Ports above this are expected to be replicas. */
  const ReplicaPortFloor: int := 8000
  /** A replica's master listens this much below the replica. */
  const MasterPortOffset: int := 1000

  /** Why the check fails; `line` is the index of the line in the report. */
  datatype Failure =
    | AddressIndexOutOfBounds(line: nat)   // the address has no field after ':' (ArrayIndexOutOfBoundsException)
    | PortNotANumber(line: nat)            // that field is not an int (NumberFormatException)
    | ReplicaOfIndexOutOfBounds(line: nat) // the line has no fourth field (ArrayIndexOutOfBoundsException)
    | RoleAssertionFailed(line: nat)       // the flags lack the role the port calls for (assertTrue)
    | MasterNotFound(replicaPort: int)     // the master id is not a node id (NullPointerException)
    | MasterPortMismatch(replicaPort: int) // the master does not listen 1000 below (assertEquals)

  /** The two maps the check builds: `nodeIdToPort` and `replicas` (replica port to master id). */
  datatype Tables = Tables(nodeIdToPort: map<string, int>, replicas: map<int, string>)

  datatype AddressError = NoPortField | PortNotInt

  function Lines(report: string): seq<string> { Split(report, '\n') }

  function Fields(line: string): seq<string> { Split(line, ' ') }

  /** A line that is not skipped: at least three fields. */
  predicate IsNodeLine(line: string) { |Fields(line)| >= 3 }

  /** The port in `host:port@busport`: field 1 of the part before the first '@', split on ':'. */
  function AddressPort(address: string): Result<int, AddressError>
  {
    var beforeBus := Split(address, '@');
    if |beforeBus| == 0 then Err(NoPortField)
    else
      var hostPort := Split(beforeBus[0], ':');
      if |hostPort| < 2 then Err(NoPortField)
      else match ParseInt(hostPort[1])
        case None => Err(PortNotInt)
        case Some(p) => Ok(p)
  }

  /** The line is a node line whose address yields `port`. */
  predicate HasPort(line: string, port: int)
  {
    IsNodeLine(line) && AddressPort(Fields(line)[1]) == Ok(port)
  }

  /** One iteration of the first loop, on line number `k`, from the maps `t`. */
  function ScanLine(t: Tables, line: string, k: nat): Result<Tables, Failure>
  {
    var parts := Fields(line);
    if |parts| < 3 then Ok(t)
    else match AddressPort(parts[1])
      case Err(NoPortField) => Err(AddressIndexOutOfBounds(k))
      case Err(PortNotInt) => Err(PortNotANumber(k))
      case Ok(port) =>
        var tags := Split(parts[2], ',');
        var nodes := t.nodeIdToPort[parts[0] := port];
        if |parts| < 4 then Err(ReplicaOfIndexOutOfBounds(k))
        else if port > ReplicaPortFloor then
          if "slave" in tags then Ok(Tables(nodes, t.replicas[port := parts[3]]))
          else Err(RoleAssertionFailed(k))
        else if "master" in tags then Ok(Tables(nodes, t.replicas))
        else Err(RoleAssertionFailed(k))
  }

  /** Continues the loop with line number `k` unless it has already failed. */
  function ScanNext(r: Result<Tables, Failure>, line: string, k: nat): Result<Tables, Failure>
  {
    match r
    case Err(e) => Err(e)
    case Ok(t) => ScanLine(t, line, k)
  }

  /** The first loop over all `lines`: the maps it builds, or the first failure. */
  function ScanLines(lines: seq<string>): Result<Tables, Failure>
  {
    if lines == [] then Ok(Tables(map[], map[]))
    else ScanNext(ScanLines(lines[..|lines| - 1]), lines[|lines| - 1], |lines| - 1)
  }

  /** The second loop's check of one replica entry. */
  function MasterCheck(t: Tables, replicaPort: int): Option<Failure>
    requires replicaPort in t.replicas
  {
    var masterId := t.replicas[replicaPort];
    if masterId !in t.nodeIdToPort then Some(MasterNotFound(replicaPort))
    else if t.nodeIdToPort[masterId] != replicaPort - MasterPortOffset then Some(MasterPortMismatch(replicaPort))
    else None
  }

  /** Every replica's master is a known node listening 1000 below the replica. */
  predicate ReplicasConsistent(t: Tables)
  {
    forall p | p in t.replicas :: MasterCheck(t, p) == None
  }

  /**
   * The whole check on the text of a `CLUSTER NODES` report. It fails with the first
   * failure of the line loop; otherwise it succeeds, with the two maps, exactly when every
   * replica entry passes, and fails on some failing entry (HashMap order is unspecified).
   */
  method VerifyNodeTable(report: string) returns (v: Result<Tables, Failure>)
    ensures ScanLines(Lines(report)).Err? ==> v == ScanLines(Lines(report))
    ensures ScanLines(Lines(report)).Ok? ==>
      var t := ScanLines(Lines(report)).value;
      && (v.Ok? <==> ReplicasConsistent(t))
      && (v.Ok? ==> v.value == t)
      && (v.Err? ==> exists p :: p in t.replicas && MasterCheck(t, p) == Some(v.error))
  {
    var lines := Lines(report);
    var nodeIdToPort: map<string, int> := map[];
    var replicas: map<int, string> := map[];
    for i := 0 to |lines|
      invariant ScanLines(lines[..i]) == Ok(Tables(nodeIdToPort, replicas))
    {
      assert lines[..i + 1][..i] == lines[..i];
      var parts := Fields(lines[i]);
      if |parts| < 3 {
        continue;
      }
      var beforeBus := Split(parts[1], '@');
      if |beforeBus| == 0 {
        v := Err(AddressIndexOutOfBounds(i));
        ErrorPersists(lines, i + 1);
        return;
      }
      var hostPort := Split(beforeBus[0], ':');
      if |hostPort| < 2 {
        v := Err(AddressIndexOutOfBounds(i));
        ErrorPersists(lines, i + 1);
        return;
      }
      var parsed := ParseInt(hostPort[1]);
      if parsed.None? {
        v := Err(PortNotANumber(i));
        ErrorPersists(lines, i + 1);
        return;
      }
      var nodePort := parsed.value;
      var nodeTags := Split(parts[2], ',');
      nodeIdToPort := nodeIdToPort[parts[0] := nodePort];
      if |parts| < 4 {
        v := Err(ReplicaOfIndexOutOfBounds(i));
        ErrorPersists(lines, i + 1);
        return;
      }
      var replicaOf := parts[3];
      if nodePort > ReplicaPortFloor {
        if "slave" !in nodeTags {
          v := Err(RoleAssertionFailed(i));
          ErrorPersists(lines, i + 1);
          return;
        }
        replicas := replicas[nodePort := replicaOf];
      } else {
        if "master" !in nodeTags {
          v := Err(RoleAssertionFailed(i));
          ErrorPersists(lines, i + 1);
          return;
        }
      }
    }
    assert lines[..|lines|] == lines;
    v := CheckReplicas(Tables(nodeIdToPort, replicas));
  }

  /**
   * The second loop: every entry of `replicas`, in whatever order the map yields them,
   * must name a known node listening 1000 below the replica.
   */
  method CheckReplicas(t: Tables) returns (v: Result<Tables, Failure>)
    ensures v.Ok? <==> ReplicasConsistent(t)
    ensures v.Ok? ==> v.value == t
    ensures v.Err? ==> exists p :: p in t.replicas && MasterCheck(t, p) == Some(v.error)
  {
    var nodeIdToPort, replicas := t.nodeIdToPort, t.replicas;
    var pending := replicas.Keys;
    while pending != {}
      invariant pending <= replicas.Keys
      invariant forall p | p in replicas.Keys - pending :: MasterCheck(t, p) == None
    {
      assert exists p :: p in pending by {
        if forall p :: p !in pending { assert false; }
      }
      var replicaPort :| replicaPort in pending;
      var masterId := replicas[replicaPort];
      if masterId !in nodeIdToPort {
        v := Err(MasterNotFound(replicaPort));
        return;
      }
      if replicaPort - MasterPortOffset != nodeIdToPort[masterId] {
        v := Err(MasterPortMismatch(replicaPort));
        return;
      }
      pending := pending - {replicaPort};
    }
    v := Ok(t);
  }

  // ---------------------------------------------------------------------------
  // Properties of the line loop

  /** A failure ends the loop: once a prefix fails, the whole report fails the same way. */
  lemma {:induction false} ErrorPersists(lines: seq<string>, n: nat)
    requires n <= |lines| && ScanLines(lines[..n]).Err?
    ensures ScanLines(lines) == ScanLines(lines[..n])
    decreases |lines| - n
  {
    if n < |lines| {
      var init := lines[..|lines| - 1];
      assert init[..n] == lines[..n];
      ErrorPersists(init, n);
    } else {
      assert lines[..n] == lines;
    }
  }

  /** If the whole report scans, so does each prefix. */
  lemma PrefixScans(lines: seq<string>, n: nat)
    requires n <= |lines| && ScanLines(lines).Ok?
    ensures ScanLines(lines[..n]).Ok?
  {
    if ScanLines(lines[..n]).Err? {
      ErrorPersists(lines, n);
    }
  }

  /** The failure with its line number, if it carries one, set to 0. */
  function WithoutLineNumber(f: Failure): Failure
  {
    match f
    case AddressIndexOutOfBounds(_) => AddressIndexOutOfBounds(0)
    case PortNotANumber(_) => PortNotANumber(0)
    case ReplicaOfIndexOutOfBounds(_) => ReplicaOfIndexOutOfBounds(0)
    case RoleAssertionFailed(_) => RoleAssertionFailed(0)
    case MasterNotFound(_) => f
    case MasterPortMismatch(_) => f
  }

  /** Same success, the same maps on success, and the same failure apart from its line number. */
  predicate SameOutcome(a: Result<Tables, Failure>, b: Result<Tables, Failure>)
  {
    && (a.Ok? <==> b.Ok?)
    && (a.Ok? ==> a.value == b.value)
    && (a.Err? && b.Err? ==> WithoutLineNumber(a.error) == WithoutLineNumber(b.error))
  }

  /** Whether a line passes, and what it records, does not depend on its line number. */
  lemma ScanNextIgnoresLineNumber(a: Result<Tables, Failure>, b: Result<Tables, Failure>, line: string, k: nat, k': nat)
    requires SameOutcome(a, b)
    ensures SameOutcome(ScanNext(a, line, k), ScanNext(b, line, k'))
  {
  }

  lemma ShortLastLineSkipped(lines: seq<string>)
    requires |lines| > 0 && !IsNodeLine(lines[|lines| - 1])
    ensures ScanLines(lines) == ScanLines(lines[..|lines| - 1])
  {
  }

  /** A line with fewer than three fields is skipped: without it, the outcome and maps are the same. */
  lemma {:induction false} ShortLineSkipped(lines: seq<string>, i: nat)
    requires i < |lines| && !IsNodeLine(lines[i])
    ensures SameOutcome(ScanLines(lines), ScanLines(lines[..i] + lines[i + 1..]))
  {
    var n := |lines| - 1;
    var init := lines[..n];
    var without := lines[..i] + lines[i + 1..];
    if i == n {
      assert without == init;
      ShortLastLineSkipped(lines);
    } else {
      ShortLineSkipped(init, i);
      var initWithout := init[..i] + init[i + 1..];
      assert without[..|without| - 1] == initWithout;
      assert without[|without| - 1] == lines[n];
      assert ScanLines(lines) == ScanNext(ScanLines(init), lines[n], n);
      assert ScanLines(without) == ScanNext(ScanLines(initWithout), lines[n], n - 1);
      ScanNextIgnoresLineNumber(ScanLines(init), ScanLines(initWithout), lines[n], n, n - 1);
    }
  }

  /**
   * A line with exactly three fields is not skipped, and reading its fourth field fails:
   * the report never passes; if nothing failed before it, the failure is on that line,
   * and it is the missing fourth field when the address holds a port.
   */
  lemma ThreeFieldLineFails(lines: seq<string>, i: nat)
    requires i < |lines| && |Fields(lines[i])| == 3
    ensures ScanLines(lines).Err?
    ensures ScanLines(lines[..i]).Ok? ==>
      ScanLines(lines).error in {AddressIndexOutOfBounds(i), PortNotANumber(i), ReplicaOfIndexOutOfBounds(i)}
    ensures ScanLines(lines[..i]).Ok? && AddressPort(Fields(lines[i])[1]).Ok? ==>
      ScanLines(lines) == Err(ReplicaOfIndexOutOfBounds(i))
  {
    if ScanLines(lines[..i]).Err? {
      ErrorPersists(lines, i);
    } else {
      assert lines[..i + 1][..i] == lines[..i];
      ErrorPersists(lines, i + 1);
    }
  }

  /** The node map holds exactly the ids of the node lines. */
  lemma {:induction false} NodeIdKeys(lines: seq<string>)
    requires ScanLines(lines).Ok?
    ensures var nodes := ScanLines(lines).value.nodeIdToPort;
      forall id :: id in nodes <==> exists j :: 0 <= j < |lines| && IsNodeLine(lines[j]) && Fields(lines[j])[0] == id
  {
    if lines != [] {
      var n := |lines| - 1;
      var init := lines[..n];
      NodeIdKeys(init);
      forall j | 0 <= j < n ensures init[j] == lines[j] { }
    }
  }

  /** Every port in the node map is that of a node line with the same id; `j` is that line. */
  lemma {:induction false} NodePortFromLine(lines: seq<string>, id: string) returns (j: nat)
    requires ScanLines(lines).Ok? && id in ScanLines(lines).value.nodeIdToPort
    ensures j < |lines| && HasPort(lines[j], ScanLines(lines).value.nodeIdToPort[id]) && Fields(lines[j])[0] == id
  {
    var n := |lines| - 1;
    var init := lines[..n];
    var t0 := ScanLines(init).value;
    var line := lines[n];
    if IsNodeLine(line) && Fields(line)[0] == id {
      j := n;
    } else {
      assert ScanLines(lines).value.nodeIdToPort[id] == t0.nodeIdToPort[id];
      j := NodePortFromLine(init, id);
      assert init[j] == lines[j];
    }
  }

  /** A node line's id maps to that line's port unless a later node line reuses the id (last write wins). */
  lemma {:induction false} NodeIdToPortIsLastWrite(lines: seq<string>, i: nat)
    requires ScanLines(lines).Ok? && i < |lines| && IsNodeLine(lines[i])
    requires forall j | i < j < |lines| && IsNodeLine(lines[j]) :: Fields(lines[j])[0] != Fields(lines[i])[0]
    ensures var nodes := ScanLines(lines).value.nodeIdToPort;
      Fields(lines[i])[0] in nodes && HasPort(lines[i], nodes[Fields(lines[i])[0]])
  {
    var n := |lines| - 1;
    var init := lines[..n];
    if i < n {
      forall j | 0 <= j < n ensures init[j] == lines[j] { }
      NodeIdToPortIsLastWrite(init, i);
    }
  }

  /** The replica map is keyed by exactly the ports above 8000 that some node line carries. */
  lemma {:induction false} ReplicaKeys(lines: seq<string>)
    requires ScanLines(lines).Ok?
    ensures var replicas := ScanLines(lines).value.replicas;
      forall p :: p in replicas <==> p > ReplicaPortFloor && exists j :: 0 <= j < |lines| && HasPort(lines[j], p)
  {
    if lines != [] {
      var n := |lines| - 1;
      var init := lines[..n];
      ReplicaKeys(init);
      forall j | 0 <= j < n ensures init[j] == lines[j] { }
    }
  }

  /** A replica's entry holds the fourth field of the last node line with that port. */
  lemma {:induction false} ReplicaIsLastWrite(lines: seq<string>, i: nat, p: int)
    requires ScanLines(lines).Ok? && i < |lines| && HasPort(lines[i], p) && p > ReplicaPortFloor
    requires forall j | i < j < |lines| :: !HasPort(lines[j], p)
    ensures |Fields(lines[i])| >= 4
    ensures p in ScanLines(lines).value.replicas && ScanLines(lines).value.replicas[p] == Fields(lines[i])[3]
  {
    var n := |lines| - 1;
    var init := lines[..n];
    if i < n {
      forall j | 0 <= j < n ensures init[j] == lines[j] { }
      ReplicaIsLastWrite(init, i, p);
    }
  }

  /**
   * On a report whose line loop completes, every node line has a fourth field and a port;
   * a port above 8000 carries the "slave" flag and is a key of the replica map, any other
   * port carries the "master" flag.
   */
  lemma NodeLineRoles(lines: seq<string>, i: nat)
    requires ScanLines(lines).Ok? && i < |lines| && IsNodeLine(lines[i])
    ensures |Fields(lines[i])| >= 4 && AddressPort(Fields(lines[i])[1]).Ok?
    ensures var p := AddressPort(Fields(lines[i])[1]).value;
      var tags := Split(Fields(lines[i])[2], ',');
      && (p > ReplicaPortFloor ==> "slave" in tags && p in ScanLines(lines).value.replicas)
      && (p <= ReplicaPortFloor ==> "master" in tags)
  {
    PrefixScans(lines, i + 1);
    assert lines[..i + 1][..i] == lines[..i];
    ReplicaKeys(lines);
  }

  /** On a passing check, the master of replica port `p` is written on a node line `j` whose port is 1000 below. */
  lemma MasterLineOf(lines: seq<string>, t: Tables, p: int) returns (j: nat)
    requires ScanLines(lines) == Ok(t) && ReplicasConsistent(t) && p in t.replicas
    ensures j < |lines| && HasPort(lines[j], p - MasterPortOffset) && Fields(lines[j])[0] == t.replicas[p]
  {
    assert MasterCheck(t, p) == None;
    j := NodePortFromLine(lines, t.replicas[p]);
  }

  /**
   * When the whole check passes, each replica line (the last one with its port) names as its
   * master the id of a node line whose port is 1000 below.
   */
  lemma PassedReplicaHasMaster(lines: seq<string>, t: Tables, i: nat, p: int)
    requires ScanLines(lines) == Ok(t) && ReplicasConsistent(t)
    requires i < |lines| && HasPort(lines[i], p) && p > ReplicaPortFloor
    requires forall j | i < j < |lines| :: !HasPort(lines[j], p)
    ensures |Fields(lines[i])| >= 4
    ensures exists j :: 0 <= j < |lines| && HasPort(lines[j], p - MasterPortOffset) && Fields(lines[j])[0] == Fields(lines[i])[3]
  {
    ReplicaIsLastWrite(lines, i, p);
    var j := MasterLineOf(lines, t, p);
  }

  // ---------------------------------------------------------------------------
  // Addresses and rendered node lines

  /** The cluster-bus suffix after '@' never changes the port read from an address. */
  lemma BusSuffixIgnored(address: string, bus: string)
    requires '@' !in address
    ensures AddressPort(address + "@" + bus) == AddressPort(address)
  {
    SplitAfterPrefix(address, bus, '@');
    SplitShape(address, '@');
    SplitShape("", ':');
  }

  /** An address `host:port@busport` as Redis writes it yields `port`. */
  lemma AddressRoundTrip(host: string, port: nat, bus: string)
    requires ':' !in host && '@' !in host && port <= MaxInt
    ensures AddressPort(host + ":" + Decimal(port) + "@" + bus) == Ok(port)
  {
    var digits := Decimal(port);
    var hostPort := host + ":" + digits;
    assert '@' !in hostPort by {
      assert forall k | 0 <= k < |digits| :: IsDigit(digits[k]);
    }
    assert hostPort + "@" + bus == host + ":" + digits + "@" + bus;
    BusSuffixIgnored(hostPort, bus);
    SplitShape(hostPort, '@');
    assert ':' !in digits by {
      assert forall k | 0 <= k < |digits| :: IsDigit(digits[k]);
    }
    assert Join([host, digits], ':') == hostPort;
    SplitJoin([host, digits], ':');
    ParseDecimal(port);
  }

  /** A node line in the layout of CLUSTER NODES: id, address, flags, master id, then further fields. */
  function NodeLine(id: string, host: string, port: nat, busPort: nat, flags: string, masterId: string, rest: seq<string>): string
  {
    Join([id, host + ":" + Decimal(port) + "@" + Decimal(busPort), flags, masterId] + rest, ' ')
  }

  /** A rendered node line splits back into its fields. */
  lemma NodeLineFields(id: string, host: string, port: nat, busPort: nat, flags: string, masterId: string, rest: seq<string>)
    requires ' ' !in id && ' ' !in host && ' ' !in flags && ' ' !in masterId
    requires forall i :: 0 <= i < |rest| ==> ' ' !in rest[i]
    requires if rest == [] then masterId != "" else rest[|rest| - 1] != ""
    ensures Fields(NodeLine(id, host, port, busPort, flags, masterId, rest))
         == [id, host + ":" + Decimal(port) + "@" + Decimal(busPort), flags, masterId] + rest
  {
    var address := host + ":" + Decimal(port) + "@" + Decimal(busPort);
    assert ' ' !in address by {
      var d1, d2 := Decimal(port), Decimal(busPort);
      assert forall k | 0 <= k < |d1| :: IsDigit(d1[k]);
      assert forall k | 0 <= k < |d2| :: IsDigit(d2[k]);
    }
    var parts := [id, address, flags, masterId] + rest;
    assert forall i | 4 <= i < |parts| :: parts[i] == rest[i - 4];
    SplitJoin(parts, ' ');
  }

  /** The role flag the check demands of a node on `port`. */
  function RoleFor(port: int): string
  {
    if port > ReplicaPortFloor then "slave" else "master"
  }

  /**
   * The line of a node with a well-formed address whose flags include the role its port calls
   * for adds its id and port to the maps, and for a replica its master id; the fields after the
   * master id are never read.
   */
  lemma NodeLineScans(t: Tables, k: nat, id: string, host: string, port: nat, busPort: nat, flags: string, masterId: string, rest: seq<string>)
    requires ' ' !in id && ' ' !in host && ':' !in host && '@' !in host && ' ' !in masterId && masterId != ""
    requires ' ' !in flags && RoleFor(port) in Split(flags, ',')
    requires forall i :: 0 <= i < |rest| ==> ' ' !in rest[i]
    requires rest == [] || rest[|rest| - 1] != ""
    requires port <= MaxInt
    ensures ScanLine(t, NodeLine(id, host, port, busPort, flags, masterId, rest), k)
      == Ok(Tables(t.nodeIdToPort[id := port],
                   if port > ReplicaPortFloor then t.replicas[port := masterId] else t.replicas))
  {
    NodeLineFields(id, host, port, busPort, flags, masterId, rest);
    AddressRoundTrip(host, port, Decimal(busPort));
  }

  /** Scanning one more line continues from the maps of the lines before it. */
  lemma ScanLinesSnoc(lines: seq<string>, line: string)
    ensures ScanLines(lines + [line]) == ScanNext(ScanLines(lines), line, |lines|)
  {
    assert (lines + [line])[..|lines|] == lines;
  }

  /** A rendered node line is a single non-empty line when none of its text holds a newline. */
  lemma NodeLineIsOneLine(id: string, host: string, port: nat, busPort: nat, flags: string, masterId: string, rest: seq<string>)
    requires '\n' !in id && '\n' !in host && '\n' !in flags && '\n' !in masterId
    requires forall i :: 0 <= i < |rest| ==> '\n' !in rest[i]
    ensures var line := NodeLine(id, host, port, busPort, flags, masterId, rest); '\n' !in line && line != ""
  {
    var d1, d2 := Decimal(port), Decimal(busPort);
    assert forall k | 0 <= k < |d1| :: IsDigit(d1[k]);
    assert forall k | 0 <= k < |d2| :: IsDigit(d2[k]);
    var address := host + ":" + d1 + "@" + d2;
    var parts := [id, address, flags, masterId] + rest;
    assert forall i | 4 <= i < |parts| :: parts[i] == rest[i - 4];
    JoinLacks(parts, ' ', '\n');
    JoinContainsSeparator(parts, ' ');
  }
}
