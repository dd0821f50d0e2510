/**
 Failure evidence (src/cluster/failure.rs) and the choice of a replica to promote
 (src/cluster/state.rs). Time is a parameter.
 */
module Failure {
  import opened Wrappers
  import opened Words
  import opened Topology

  datatype FailureReport = FailureReport(target: string, reporter: string, epoch: u64)

  datatype Evidence = Evidence(reporters: set<string>, updatedAt: nat)

  /** The distinct nodes that ever named `target` at `epoch`. */
  ghost function Accusers(reports: set<FailureReport>, target: string, epoch: u64): set<string> {
    set r | r in reports && r.target == target && r.epoch == epoch :: r.reporter
  }

  /** One more report: its reporter joins what is still recent about the target, and nothing else recent is lost. */
  ghost predicate Filed(before: map<(string, u64), Evidence>, after: map<(string, u64), Evidence>, retention: nat, report: FailureReport, now: nat) {
    var k := (report.target, report.epoch);
    && k in after && after[k].updatedAt == now
    && after[k].reporters == {report.reporter} + (if k in before && SatSub(now, before[k].updatedAt) <= retention then before[k].reporters else {})
    && forall q :: q != k ==>
         && (q in after <==> q in before && SatSub(now, before[q].updatedAt) <= retention)
         && (q in after ==> after[q] == before[q])
  }

  class FailureTracker {
    const quorum: nat
    const retention: nat
    var evidence: map<(string, u64), Evidence>

    /** Every report ever received. */
    ghost var reports: set<FailureReport>

    ghost predicate Valid()
      reads this
    {
      && quorum >= 1
      && forall k :: k in evidence ==> evidence[k].reporters <= Accusers(reports, k.0, k.1)
    }

    constructor (quorum: nat, retention: nat)
      ensures Valid() && this.quorum == Max(quorum, 1) && evidence == map[] && reports == {}
    {
      this.quorum := Max(quorum, 1);
      this.retention := retention;
      evidence, reports := map[], {};
    }

    /** Drops evidence that was not renewed within the retention time. */
    method Expire(now: nat)
      requires Valid()
      modifies this`evidence
      ensures Valid()
      ensures evidence == map k | k in old(evidence) && SatSub(now, old(evidence)[k].updatedAt) <= retention :: old(evidence)[k]
    {
      evidence := map k | k in evidence && SatSub(now, evidence[k].updatedAt) <= retention :: evidence[k];
    }

    /** `report`: one more accuser; true when the evidence still on file reaches the quorum. */
    method Report(report: FailureReport, now: nat) returns (confirmed: bool)
      requires Valid()
      modifies this
      ensures Valid() && reports == old(reports) + {report}
      ensures Filed(old(evidence), evidence, retention, report, now)
      ensures confirmed <==> |evidence[(report.target, report.epoch)].reporters| >= quorum
      ensures confirmed <==> ReportCount(report.target, report.epoch) >= quorum
      ensures confirmed ==> |Accusers(reports, report.target, report.epoch)| >= quorum
    {
      Expire(now);
      var k := (report.target, report.epoch);
      var before := if k in evidence then evidence[k].reporters else {};
      reports := reports + {report};
      evidence := evidence[k := Evidence(before + {report.reporter}, now)];
      confirmed := |evidence[k].reporters| >= quorum;
      if confirmed {
        SubsetSize(evidence[k].reporters, Accusers(reports, k.0, k.1));
      }
    }

    /**
     Any sequence of reports, from an empty file: each is confirmed exactly when a quorum of
     distinct reporters of its target and epoch stands behind it.
     */
    method ReportAll(log: seq<Timed>) returns (answers: seq<bool>)
      requires Valid() && evidence == map[]
      requires InOrder(log)
      modifies this
      ensures Valid() && |answers| == |log|
      ensures forall n :: 0 <= n < |log| ==>
                (answers[n] <==> |Standing(log, retention, (log[n].report.target, log[n].report.epoch), n + 1)| >= quorum)
    {
      hide Standing;
      answers := [];
      for n := 0 to |log|
        invariant Valid() && |answers| == n && OnFile(evidence, log, retention, n)
        invariant forall m :: 0 <= m < n ==>
                    (answers[m] <==> |Standing(log, retention, (log[m].report.target, log[m].report.epoch), m + 1)| >= quorum)
      {
        ghost var before := evidence;
        var confirmed := Report(log[n].report, log[n].at);
        FiledOnFile(before, evidence, log, retention, n);
        answers := answers + [confirmed];
      }
    }

    function ReportCount(target: string, epoch: u64): nat
      reads this
    {
      if (target, epoch) in evidence then |evidence[(target, epoch)].reporters| else 0
    }

    /** A count on file never exceeds the number of distinct accusers. */
    lemma CountedAccusers(target: string, epoch: u64)
      requires Valid()
      ensures ReportCount(target, epoch) <= |Accusers(reports, target, epoch)|
    {
      if (target, epoch) in evidence {
        SubsetSize(evidence[(target, epoch)].reporters, Accusers(reports, target, epoch));
      }
    }
  }

  // ---- Which reports stand ----------------------------------------------------------

  datatype Timed = Timed(report: FailureReport, at: nat)

  predicate Names(t: Timed, k: (string, u64)) {
    t.report.target == k.0 && t.report.epoch == k.1
  }

  /** Every later report of the target, up to the `n`th, came within the retention time of one since the `m`th. */
  ghost predicate Linked(log: seq<Timed>, retention: nat, k: (string, u64), m: nat, n: nat)
    requires m <= n <= |log|
  {
    forall i :: m < i < n && Names(log[i], k) ==> exists j :: m <= j < i && Names(log[j], k) && log[i].at <= log[j].at + retention
  }

  /** The reporters of the target among the first `n` reports, back to the last gap longer than the retention time. */
  ghost function Standing(log: seq<Timed>, retention: nat, k: (string, u64), n: nat): set<string>
    requires n <= |log|
  {
    set m | 0 <= m < n && Names(log[m], k) && Linked(log, retention, k, m, n) :: log[m].report.reporter
  }

  ghost predicate InOrder(log: seq<Timed>) {
    forall i, j :: 0 <= i <= j < |log| ==> log[i].at <= log[j].at
  }

  /** The last of the first `n` reports that names the target. */
  ghost predicate IsLast(log: seq<Timed>, k: (string, u64), n: nat, last: nat)
    requires n <= |log|
  {
    last < n && Names(log[last], k) && forall j :: last < j < n ==> !Names(log[j], k)
  }

  /** What the file holds about one target after the first `n` reports. */
  ghost predicate EntryOk(entry: Option<Evidence>, log: seq<Timed>, retention: nat, k: (string, u64), n: nat)
    requires n <= |log|
  {
    match entry
    case Some(e) => e.reporters == Standing(log, retention, k, n) && exists last: nat :: IsLast(log, k, n, last) && e.updatedAt == log[last].at
    case None => forall j :: 0 <= j < n && Names(log[j], k) ==> log[n - 1].at > log[j].at + retention
  }

  function Lookup(evidence: map<(string, u64), Evidence>, k: (string, u64)): Option<Evidence> {
    if k in evidence then Some(evidence[k]) else None
  }

  ghost predicate OnFile(evidence: map<(string, u64), Evidence>, log: seq<Timed>, retention: nat, n: nat)
    requires n <= |log|
  {
    forall k :: EntryOk(Lookup(evidence, k), log, retention, k, n)
  }

  /** A report that names another target changes nothing about this one. */
  lemma StandingElsewhere(log: seq<Timed>, retention: nat, k: (string, u64), n: nat)
    requires n < |log| && !Names(log[n], k)
    ensures Standing(log, retention, k, n + 1) == Standing(log, retention, k, n)
  {
    forall m | 0 <= m < n ensures Linked(log, retention, k, m, n + 1) <==> Linked(log, retention, k, m, n) {
    }
  }

  /** A report joins the standing ones if one of them is recent enough, and stands alone otherwise. */
  lemma StandingJoined(log: seq<Timed>, retention: nat, k: (string, u64), n: nat, recent: bool)
    requires n < |log| && Names(log[n], k) && InOrder(log)
    requires recent <==> exists j :: 0 <= j < n && Names(log[j], k) && log[n].at <= log[j].at + retention
    ensures Standing(log, retention, k, n + 1) == {log[n].report.reporter} + if recent then Standing(log, retention, k, n) else {}
  {
    assert Linked(log, retention, k, n, n + 1);
    forall m | 0 <= m < n && Names(log[m], k)
      ensures Linked(log, retention, k, m, n + 1) <==> recent && Linked(log, retention, k, m, n)
    {
      LinkedStep(log, retention, k, m, n, recent);
    }
  }

  lemma LinkedStep(log: seq<Timed>, retention: nat, k: (string, u64), m: nat, n: nat, recent: bool)
    requires m < n < |log| && Names(log[n], k) && Names(log[m], k) && InOrder(log)
    requires recent <==> exists j :: 0 <= j < n && Names(log[j], k) && log[n].at <= log[j].at + retention
    ensures Linked(log, retention, k, m, n + 1) <==> recent && Linked(log, retention, k, m, n)
  {
    if recent {
      var j :| 0 <= j < n && Names(log[j], k) && log[n].at <= log[j].at + retention;
      var later := if j < m then m else j;
      assert m <= later < n && Names(log[later], k) && log[n].at <= log[later].at + retention;
    }
  }

  lemma EntryElsewhere(entry: Option<Evidence>, after: Option<Evidence>, log: seq<Timed>, retention: nat, k: (string, u64), n: nat)
    requires n < |log| && !Names(log[n], k) && InOrder(log) && EntryOk(entry, log, retention, k, n)
    requires after == if entry.Some? && SatSub(log[n].at, entry.value.updatedAt) <= retention then entry else None
    ensures EntryOk(after, log, retention, k, n + 1)
  {
    hide Standing;
    StandingElsewhere(log, retention, k, n);
    if entry.Some? {
      var last: nat :| IsLast(log, k, n, last) && entry.value.updatedAt == log[last].at;
      assert IsLast(log, k, n + 1, last);
    }
  }

  lemma EntryJoined(entry: Option<Evidence>, after: Evidence, log: seq<Timed>, retention: nat, k: (string, u64), n: nat)
    requires n < |log| && Names(log[n], k) && InOrder(log) && EntryOk(entry, log, retention, k, n)
    requires after.updatedAt == log[n].at
    requires after.reporters == {log[n].report.reporter} +
               (if entry.Some? && SatSub(log[n].at, entry.value.updatedAt) <= retention then entry.value.reporters else {})
    ensures EntryOk(Some(after), log, retention, k, n + 1)
  {
    hide Standing;
    var recent := entry.Some? && SatSub(log[n].at, entry.value.updatedAt) <= retention;
    if entry.Some? {
      var last: nat :| IsLast(log, k, n, last) && entry.value.updatedAt == log[last].at;
      assert Names(log[last], k);
    }
    StandingJoined(log, retention, k, n, recent);
    assert IsLast(log, k, n + 1, n);
  }

  lemma FiledOnFile(before: map<(string, u64), Evidence>, after: map<(string, u64), Evidence>, log: seq<Timed>, retention: nat, n: nat)
    requires n < |log| && InOrder(log) && OnFile(before, log, retention, n) && Filed(before, after, retention, log[n].report, log[n].at)
    ensures OnFile(after, log, retention, n + 1)
    ensures var k := (log[n].report.target, log[n].report.epoch); after[k].reporters == Standing(log, retention, k, n + 1)
  {
    hide Standing;
    hide EntryOk;
    var k := (log[n].report.target, log[n].report.epoch);
    forall q ensures EntryOk(Lookup(after, q), log, retention, q, n + 1) {
      assert EntryOk(Lookup(before, q), log, retention, q, n);
      if q == k {
        EntryJoined(Lookup(before, q), after[q], log, retention, q, n);
      } else {
        EntryElsewhere(Lookup(before, q), Lookup(after, q), log, retention, q, n);
      }
    }
    assert Lookup(after, k) == Some(after[k]);
    EntryStanding(after[k], log, retention, k, n + 1);
  }

  lemma EntryStanding(e: Evidence, log: seq<Timed>, retention: nat, k: (string, u64), n: nat)
    requires n <= |log| && EntryOk(Some(e), log, retention, k, n)
    ensures e.reporters == Standing(log, retention, k, n)
  {
  }

  // ---- Choosing a replica -----------------------------------------------------------

  /** Strings in the order of their characters. */
  predicate IdLe(a: string, b: string) {
    if a == "" then true
    else if b == "" then false
    else a[0] < b[0] || (a[0] == b[0] && IdLe(a[1..], b[1..]))
  }

  /** A prefix comes first; otherwise the first difference decides. */
  lemma {:induction false} IdLeIff(a: string, b: string)
    ensures IdLe(a, b) <==> a <= b || exists k :: 0 <= k < |a| && k < |b| && a[..k] == b[..k] && a[k] < b[k]
  {
    if a != "" && b != "" {
      IdLeIff(a[1..], b[1..]);
      if a[0] == b[0] {
        if k :| 0 <= k < |a| - 1 && k < |b| - 1 && a[1..][..k] == b[1..][..k] && a[1..][k] < b[1..][k] {
          assert a[..k + 1] == [a[0]] + a[1..][..k] && b[..k + 1] == [b[0]] + b[1..][..k];
          assert a[k + 1] < b[k + 1];
        }
        if k :| 0 <= k < |a| && k < |b| && a[..k] == b[..k] && a[k] < b[k] {
          assert a[1..][..k - 1] == a[..k][1..] && b[1..][..k - 1] == b[..k][1..];
          assert a[1..][k - 1] < b[1..][k - 1];
        }
      } else if a[0] < b[0] {
        assert a[..0] == b[..0];
      } else {
        assert forall k :: 0 < k < |a| && k < |b| ==> a[..k][0] != b[..k][0];
      }
    }
  }

  lemma {:induction false} IdLeTotal(a: string, b: string)
    ensures IdLe(a, b) || IdLe(b, a)
  {
    if a != "" && b != "" && a[0] == b[0] {
      IdLeTotal(a[1..], b[1..]);
    }
  }

  lemma {:induction false} IdLeTransitive(a: string, b: string, c: string)
    requires IdLe(a, b) && IdLe(b, c)
    ensures IdLe(a, c)
  {
    if a != "" && a[0] == b[0] && b[0] == c[0] {
      IdLeTransitive(a[1..], b[1..], c[1..]);
    }
  }

  /** The order of `max_by_key`: higher epoch first, then the smaller id. */
  predicate Outranks(a: NodeInfo, b: NodeInfo) {
    a.epoch > b.epoch || (a.epoch == b.epoch && IdLe(a.id, b.id))
  }

  lemma OutranksOrder(a: NodeInfo, b: NodeInfo, c: NodeInfo)
    ensures Outranks(a, b) || Outranks(b, a)
    ensures Outranks(a, b) && Outranks(b, c) ==> Outranks(a, c)
  {
    IdLeTotal(a.id, b.id);
    if IdLe(a.id, b.id) && IdLe(b.id, c.id) {
      IdLeTransitive(a.id, b.id, c.id);
    }
  }

  predicate Candidate(n: NodeInfo, failed: string) {
    n.role == Replica && n.replicaOf == Some(failed)
  }

  /** The best candidate among the first `n` nodes; a later node that ties replaces an earlier one. */
  function Best(nodes: seq<NodeInfo>, failed: string, n: nat): (r: Option<nat>)
    requires n <= |nodes|
    ensures r.Some? ==> r.value < n && Candidate(nodes[r.value], failed)
  {
    if n == 0 then None
    else
      var before := Best(nodes, failed, n - 1);
      if !Candidate(nodes[n - 1], failed) then before
      else if before.Some? && !Outranks(nodes[n - 1], nodes[before.value]) then before
      else Some(n - 1)
  }

  /** The chosen replica has the greatest epoch and, on ties, the smallest id; none is chosen only if there is none. */
  lemma {:induction false} BestIsBest(nodes: seq<NodeInfo>, failed: string, n: nat)
    requires n <= |nodes|
    ensures Best(nodes, failed, n).None? <==> forall i :: 0 <= i < n ==> !(nodes[i].role == Replica && nodes[i].replicaOf == Some(failed))
    ensures Best(nodes, failed, n).Some? ==>
              var best := nodes[Best(nodes, failed, n).value];
              && best.role == Replica && best.replicaOf == Some(failed)
              && forall i :: 0 <= i < n && nodes[i].role == Replica && nodes[i].replicaOf == Some(failed) ==>
                   nodes[i].epoch < best.epoch || (nodes[i].epoch == best.epoch && IdLe(best.id, nodes[i].id))
  {
    BestOutranks(nodes, failed, n);
  }

  lemma {:induction false} BestOutranks(nodes: seq<NodeInfo>, failed: string, n: nat)
    requires n <= |nodes|
    ensures Best(nodes, failed, n).None? <==> forall i :: 0 <= i < n ==> !Candidate(nodes[i], failed)
    ensures Best(nodes, failed, n).Some? ==>
              forall i :: 0 <= i < n && Candidate(nodes[i], failed) ==> Outranks(nodes[Best(nodes, failed, n).value], nodes[i])
  {
    hide Outranks;
    if n > 0 {
      BestOutranks(nodes, failed, n - 1);
      var before := Best(nodes, failed, n - 1);
      if Candidate(nodes[n - 1], failed) {
        OutranksOrder(nodes[n - 1], nodes[n - 1], nodes[n - 1]);
        if before.Some? {
          forall i | 0 <= i < n && Candidate(nodes[i], failed)
            ensures Outranks(nodes[Best(nodes, failed, n).value], nodes[i])
          {
            OutranksOrder(nodes[n - 1], nodes[before.value], nodes[i]);
          }
        }
      }
    }
  }
}
