/**
 * The fixed-port cluster of RedisClusterTest.setUp: three replication groups, each a
 * master port followed by one replica port, and a `CLUSTER NODES` report of that
 * cluster once it has formed, which the node-table check accepts.
 */
module ClusterFixture {
  import opened Results
  import opened JavaLang
  import opened NodeTable

  const Group1: seq<nat> := [7001, 8001]
  const Group2: seq<nat> := [7002, 8002]
  const Group3: seq<nat> := [7003, 8003]

  /** The groups in declaration order, named "master1" to "master3" by the builder. */
  const Groups: seq<seq<nat>> := [Group1, Group2, Group3]

  /** All ports of `groups`, in the order the groups declare them. */
  function AllPorts(groups: seq<seq<nat>>): seq<nat>
  {
    if groups == [] then [] else groups[0] + AllPorts(groups[1..])
  }

  /**
   * Each group is a master and one replica 1000 above it, the master at or below 8000 and
   * the replica above, and the six ports are pairwise distinct.
   */
  lemma FixtureFollowsConvention()
    ensures forall g | g in Groups ::
      |g| == 2 && g[1] == g[0] + MasterPortOffset && g[0] <= ReplicaPortFloor < g[1]
    ensures AllPorts(Groups) == [7001, 8001, 7002, 8002, 7003, 8003]
    ensures forall i, j | 0 <= i < j < |AllPorts(Groups)| :: AllPorts(Groups)[i] != AllPorts(Groups)[j]
  {
    assert [Group3][1..] == [];
    assert AllPorts([Group3]) == Group3;
    assert [Group2, Group3][1..] == [Group3];
    assert AllPorts([Group2, Group3]) == Group2 + Group3;
    assert Groups[1..] == [Group2, Group3];
    assert AllPorts(Groups) == Group1 + Group2 + Group3;
  }

  const Host: string := "127.0.0.1"

  /**
   * The node ids of the six servers, in the order master1, replica1, master2, replica2,
   * master3, replica3. Redis draws each id at random when the node starts, so the ids are a
   * parameter: non-empty, without spaces or newlines, and pairwise distinct.
   */
  predicate NodeIds(ids: seq<string>)
  {
    && |ids| == 6
    && (forall i | 0 <= i < |ids| :: ids[i] != "" && ' ' !in ids[i] && '\n' !in ids[i])
    && (forall i, j | 0 <= i < j < |ids| :: ids[i] != ids[j])
  }

  /** What the formed cluster reports about one replication group: a master and its replica. */
  datatype GroupReport = GroupReport(
    masterId: string, masterFlags: string, replicaId: string,
    masterPort: nat, replicaPort: nat, epoch: string, slots: string)

  /**
   * A group as the check expects it: single fields free of newlines, flags of the master that
   * include "master", the master at or below 8000 and the replica above it.
   */
  predicate WellFormedGroup(gr: GroupReport)
  {
    && gr.masterId != "" && ' ' !in gr.masterId && '\n' !in gr.masterId
    && ' ' !in gr.replicaId && '\n' !in gr.replicaId
    && ' ' !in gr.masterFlags && '\n' !in gr.masterFlags && "master" in Split(gr.masterFlags, ',')
    && ' ' !in gr.epoch && '\n' !in gr.epoch
    && gr.slots != "" && ' ' !in gr.slots && '\n' !in gr.slots
    && gr.masterPort <= ReplicaPortFloor < gr.replicaPort <= MaxInt
  }

  /** The fields after the master id on a master's line: ping sent, pong received, config epoch, link state, slots. */
  function MasterTail(epoch: string, slots: string): seq<string>
  {
    ["0", "1426238318243", epoch, "connected", slots]
  }

  /** The fields after the master id on a replica's line: ping sent, pong received, config epoch, link state. */
  function ReplicaTail(epoch: string): seq<string>
  {
    ["0", "1426238316232", epoch, "connected"]
  }

  /** The line the formed cluster reports for the master of a group; its cluster bus is 10000 above. */
  function MasterLine(gr: GroupReport): string
  {
    NodeLine(gr.masterId, Host, gr.masterPort, gr.masterPort + 10000, gr.masterFlags, "-", MasterTail(gr.epoch, gr.slots))
  }

  /** The line the formed cluster reports for the replica of a group, naming its master. */
  function ReplicaLine(gr: GroupReport): string
  {
    NodeLine(gr.replicaId, Host, gr.replicaPort, gr.replicaPort + 10000, "slave", gr.masterId, ReplicaTail(gr.epoch))
  }

  /** The lines of the groups in order: each master's line, then its replica's. */
  function ReportLines(groups: seq<GroupReport>): seq<string>
  {
    if groups == [] then []
    else var last := groups[|groups| - 1];
      ReportLines(groups[..|groups| - 1]) + [MasterLine(last), ReplicaLine(last)]
  }

  /** The maps the check is expected to build: both ids of every group, and every replica's master. */
  function ReportTables(groups: seq<GroupReport>): Tables
  {
    if groups == [] then Tables(map[], map[])
    else
      var t := ReportTables(groups[..|groups| - 1]);
      var last := groups[|groups| - 1];
      Tables(t.nodeIdToPort[last.masterId := last.masterPort][last.replicaId := last.replicaPort],
             t.replicas[last.replicaPort := last.masterId])
  }

  /** A master line and its replica's line are each one non-empty line. */
  lemma GroupLinesAreLines(gr: GroupReport)
    requires WellFormedGroup(gr)
    ensures '\n' !in MasterLine(gr) && MasterLine(gr) != ""
    ensures '\n' !in ReplicaLine(gr) && ReplicaLine(gr) != ""
  {
    var mTail, rTail := MasterTail(gr.epoch, gr.slots), ReplicaTail(gr.epoch);
    assert forall i | 0 <= i < |mTail| :: '\n' !in mTail[i];
    assert forall i | 0 <= i < |rTail| :: '\n' !in rTail[i];
    NodeLineIsOneLine(gr.masterId, Host, gr.masterPort, gr.masterPort + 10000, gr.masterFlags, "-", mTail);
    NodeLineIsOneLine(gr.replicaId, Host, gr.replicaPort, gr.replicaPort + 10000, "slave", gr.masterId, rTail);
  }

  /** Every line of a report of well-formed groups is one non-empty line. */
  lemma {:induction false} ReportLinesAreLines(groups: seq<GroupReport>)
    requires forall i | 0 <= i < |groups| :: WellFormedGroup(groups[i])
    ensures forall k | 0 <= k < |ReportLines(groups)| :: '\n' !in ReportLines(groups)[k] && ReportLines(groups)[k] != ""
  {
    if groups != [] {
      var init := groups[..|groups| - 1];
      ReportLinesAreLines(init);
      GroupLinesAreLines(groups[|groups| - 1]);
    }
  }

  /** A group's master line adds the master's id and port to the maps. */
  lemma MasterLineScans(t: Tables, k: nat, gr: GroupReport)
    requires WellFormedGroup(gr)
    ensures ScanLine(t, MasterLine(gr), k) == Ok(Tables(t.nodeIdToPort[gr.masterId := gr.masterPort], t.replicas))
  {
    var tail := MasterTail(gr.epoch, gr.slots);
    assert forall i | 0 <= i < |tail| :: ' ' !in tail[i];
    NodeLineScans(t, k, gr.masterId, Host, gr.masterPort, gr.masterPort + 10000, gr.masterFlags, "-", tail);
  }

  /** A group's replica line adds the replica's id and port, and its master's id under its port. */
  lemma ReplicaLineScans(t: Tables, k: nat, gr: GroupReport)
    requires WellFormedGroup(gr)
    ensures ScanLine(t, ReplicaLine(gr), k)
         == Ok(Tables(t.nodeIdToPort[gr.replicaId := gr.replicaPort], t.replicas[gr.replicaPort := gr.masterId]))
  {
    var tail := ReplicaTail(gr.epoch);
    assert forall i | 0 <= i < |tail| :: ' ' !in tail[i];
    SplitShape("slave", ',');
    NodeLineScans(t, k, gr.replicaId, Host, gr.replicaPort, gr.replicaPort + 10000, "slave", gr.masterId, tail);
  }

  /**
   * A group's master line and its replica's line, appended to lines that scan, add both
   * nodes and the replica's master entry.
   */
  lemma GroupLinesScan(lines: seq<string>, t: Tables, gr: GroupReport)
    requires ScanLines(lines) == Ok(t) && WellFormedGroup(gr)
    ensures ScanLines(lines + [MasterLine(gr), ReplicaLine(gr)])
         == Ok(Tables(t.nodeIdToPort[gr.masterId := gr.masterPort][gr.replicaId := gr.replicaPort],
                      t.replicas[gr.replicaPort := gr.masterId]))
  {
    var m, r := MasterLine(gr), ReplicaLine(gr);
    var t1 := Tables(t.nodeIdToPort[gr.masterId := gr.masterPort], t.replicas);
    MasterLineScans(t, |lines|, gr);
    ScanLinesSnoc(lines, m);
    ReplicaLineScans(t1, |lines| + 1, gr);
    ScanLinesSnoc(lines + [m], r);
    assert lines + [m] + [r] == lines + [m, r];
  }

  /** The line loop over a report of well-formed groups builds exactly the expected maps. */
  lemma {:induction false} ReportScans(groups: seq<GroupReport>)
    requires forall i | 0 <= i < |groups| :: WellFormedGroup(groups[i])
    ensures ScanLines(ReportLines(groups)) == Ok(ReportTables(groups))
  {
    if groups != [] {
      var init := groups[..|groups| - 1];
      ReportScans(init);
      GroupLinesScan(ReportLines(init), ReportTables(init), groups[|groups| - 1]);
    }
  }

  /**
   * The groups of the formed cluster as the node on port 7001, which the check queries, reports
   * them: its own line is flagged "myself,master", and the 16384 hash slots are split in three.
   */
  function FixtureGroups(ids: seq<string>): seq<GroupReport>
    requires |ids| == 6
  {
    [ GroupReport(ids[0], "myself,master", ids[1], Group1[0], Group1[1], "1", "0-5460"),
      GroupReport(ids[2], "master", ids[3], Group2[0], Group2[1], "2", "5461-10922"),
      GroupReport(ids[4], "master", ids[5], Group3[0], Group3[1], "3", "10923-16383") ]
  }

  /** The lines of the fixture report. */
  function FixtureLines(ids: seq<string>): seq<string>
    requires |ids| == 6
  {
    ReportLines(FixtureGroups(ids))
  }

  /** The report text: every line terminated by a newline. */
  function FixtureReport(ids: seq<string>): string
    requires |ids| == 6
  {
    Join(FixtureLines(ids) + [""], '\n')
  }

  /** The maps the check builds from the report of the formed fixture cluster. */
  function FixtureTables(ids: seq<string>): Tables
    requires |ids| == 6
  {
    Tables(
      map[ids[0] := 7001, ids[1] := 8001, ids[2] := 7002, ids[3] := 8002, ids[4] := 7003, ids[5] := 8003],
      map[8001 := ids[0], 8002 := ids[2], 8003 := ids[4]])
  }

  /** The queried node's flags "myself,master" are the two flags "myself" and "master". */
  lemma MyselfMasterFlags()
    ensures Split("myself,master", ',') == ["myself", "master"]
  {
    assert Join(["myself", "master"], ',') == "myself,master";
    SplitJoin(["myself", "master"], ',');
  }

  /** The flags, epochs and slot ranges of the fixture are single fields, free of newlines. */
  lemma FixtureFieldsPlain()
    ensures ' ' !in "myself,master" && '\n' !in "myself,master" && ' ' !in "master" && '\n' !in "master"
    ensures ' ' !in "1" && '\n' !in "1" && ' ' !in "2" && '\n' !in "2" && ' ' !in "3" && '\n' !in "3"
    ensures "0-5460" != "" && ' ' !in "0-5460" && '\n' !in "0-5460"
    ensures "5461-10922" != "" && ' ' !in "5461-10922" && '\n' !in "5461-10922"
    ensures "10923-16383" != "" && ' ' !in "10923-16383" && '\n' !in "10923-16383"
  {
  }

  /** Every group of the fixture is well formed. */
  lemma FixtureGroupsWellFormed(ids: seq<string>)
    requires NodeIds(ids)
    ensures WellFormedGroup(FixtureGroups(ids)[0])
    ensures WellFormedGroup(FixtureGroups(ids)[1])
    ensures WellFormedGroup(FixtureGroups(ids)[2])
  {
    var groups := FixtureGroups(ids);
    FixtureFieldsPlain();
    assert WellFormedGroup(groups[0]) by {
      assert ids[0] != "" && ' ' !in ids[0] && '\n' !in ids[0] && ' ' !in ids[1] && '\n' !in ids[1];
      MyselfMasterFlags();
    }
    assert WellFormedGroup(groups[1]) by {
      assert ids[2] != "" && ' ' !in ids[2] && '\n' !in ids[2] && ' ' !in ids[3] && '\n' !in ids[3];
      SplitShape("master", ',');
    }
    assert WellFormedGroup(groups[2]) by {
      assert ids[4] != "" && ' ' !in ids[4] && '\n' !in ids[4] && ' ' !in ids[5] && '\n' !in ids[5];
      SplitShape("master", ',');
    }
  }

  /** A report of three well-formed groups: its lines are single lines, and the loop builds their maps. */
  lemma ThreeGroupsScan(g1: GroupReport, g2: GroupReport, g3: GroupReport)
    requires WellFormedGroup(g1) && WellFormedGroup(g2) && WellFormedGroup(g3)
    ensures forall k | 0 <= k < |ReportLines([g1, g2, g3])| ::
      '\n' !in ReportLines([g1, g2, g3])[k] && ReportLines([g1, g2, g3])[k] != ""
    ensures ScanLines(ReportLines([g1, g2, g3])) == Ok(Tables(
      map[g1.masterId := g1.masterPort, g1.replicaId := g1.replicaPort,
          g2.masterId := g2.masterPort, g2.replicaId := g2.replicaPort,
          g3.masterId := g3.masterPort, g3.replicaId := g3.replicaPort],
      map[g1.replicaPort := g1.masterId, g2.replicaPort := g2.masterId, g3.replicaPort := g3.masterId]))
  {
    var groups := [g1, g2, g3];
    ReportLinesAreLines(groups);
    ReportScans(groups);
    assert groups[..2] == [g1, g2] && [g1, g2][..1] == [g1] && [g1][..0] == [];
    assert ReportTables([g1][..0]) == Tables(map[], map[]);
    var t1 := ReportTables([g1]);
    assert t1 == Tables(map[g1.masterId := g1.masterPort, g1.replicaId := g1.replicaPort], map[g1.replicaPort := g1.masterId]);
    var t2 := ReportTables([g1, g2]);
    assert t2 == Tables(t1.nodeIdToPort[g2.masterId := g2.masterPort][g2.replicaId := g2.replicaPort],
                        t1.replicas[g2.replicaPort := g2.masterId]);
    assert ReportTables(groups) == Tables(t2.nodeIdToPort[g3.masterId := g3.masterPort][g3.replicaId := g3.replicaPort],
                                          t2.replicas[g3.replicaPort := g3.masterId]);
  }

  /** Each line of the fixture report is one non-empty line, and the loop builds exactly the expected maps. */
  lemma FixtureLinesScan(ids: seq<string>)
    requires NodeIds(ids)
    ensures forall k | 0 <= k < |FixtureLines(ids)| :: '\n' !in FixtureLines(ids)[k] && FixtureLines(ids)[k] != ""
    ensures ScanLines(FixtureLines(ids)) == Ok(FixtureTables(ids))
  {
    var groups := FixtureGroups(ids);
    FixtureGroupsWellFormed(ids);
    ThreeGroupsScan(groups[0], groups[1], groups[2]);
    assert groups == [groups[0], groups[1], groups[2]];
  }

  /**
   * Whatever ids the nodes drew, the report of the formed fixture cluster passes the
   * node-table check: its line loop builds exactly the expected maps and every replica's
   * master listens 1000 below it.
   */
  lemma FixtureReportPasses(ids: seq<string>)
    requires NodeIds(ids)
    ensures ScanLines(Lines(FixtureReport(ids))) == Ok(FixtureTables(ids))
    ensures ReplicasConsistent(FixtureTables(ids))
  {
    FixtureLinesScan(ids);
    SplitTerminated(FixtureLines(ids), '\n');
    assert ids[0] != ids[1] && ids[0] != ids[2] && ids[0] != ids[3] && ids[0] != ids[4] && ids[0] != ids[5];
    assert ids[2] != ids[3] && ids[2] != ids[4] && ids[2] != ids[5] && ids[4] != ids[5];
  }
}
