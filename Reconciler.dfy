/**
 * The reconciliation loop of main.go:92-105: the single writer of the record
 * table.  It takes the address reports of all service monitors one at a
 * time, in arrival order, skips a report with no healthy address, sorts the
 * others ascending and hands them to `UpdateRecord`.  Together with
 * `UpdateRecord` this gives the sticky-lowest policy: the published address
 * of a service stays while it is healthy and otherwise becomes the smallest
 * healthy address.
 */
module Reconciler {
  import opened StringOrder
  import opened Dns

  /** `RecordEntry` (main.go:20-23): one monitor's report of a service's healthy addresses. */
  datatype RecordEntry = RecordEntry(addresses: seq<string>, service: string)

  /** The table after the loop has handled event `e`. */
  function ApplyEvent(svcMap: map<string, string>, zone: string, e: RecordEntry): map<string, string>
  {
    if |e.addresses| == 0 then svcMap
    else Updated(svcMap, Fqdn(e.service, zone), SortSeq(e.addresses))
  }

  /** The table after the loop has handled `events` in order: a left fold of `ApplyEvent`. */
  function ApplyAll(svcMap: map<string, string>, zone: string, events: seq<RecordEntry>): map<string, string>
  {
    if events == [] then svcMap
    else ApplyEvent(ApplyAll(svcMap, zone, events[..|events| - 1]), zone, events[|events| - 1])
  }

  /** A report with no healthy address changes nothing; a never-set name stays unset. */
  lemma EmptyReportKeepsTable(svcMap: map<string, string>, zone: string, e: RecordEntry)
    requires |e.addresses| == 0
    ensures ApplyEvent(svcMap, zone, e) == svcMap
    ensures Fqdn(e.service, zone) !in svcMap ==> Fqdn(e.service, zone) !in ApplyEvent(svcMap, zone, e)
  {
  }

  /** A report that still lists the published address keeps the table as it is. */
  lemma HealthySelectionIsKept(svcMap: map<string, string>, zone: string, e: RecordEntry)
    requires |e.addresses| > 0
    requires Current(svcMap, Fqdn(e.service, zone)) in e.addresses
    ensures ApplyEvent(svcMap, zone, e) == svcMap
  {
    assert Current(svcMap, Fqdn(e.service, zone)) in multiset(SortSeq(e.addresses));
  }

  /**
   * A name not yet in the table reads as "" (dns.go:63), so a report that
   * lists "" counts as still listing it: the name stays unset.
   */
  lemma MissingNameStaysUnsetOnEmptyAddress(svcMap: map<string, string>, zone: string, e: RecordEntry)
    requires Fqdn(e.service, zone) !in svcMap && "" in e.addresses
    ensures ApplyEvent(svcMap, zone, e) == svcMap
    ensures Fqdn(e.service, zone) !in ApplyEvent(svcMap, zone, e)
  {
    HealthySelectionIsKept(svcMap, zone, e);
  }

  /**
   * A report that no longer lists the published address (or the first one
   * for a service) publishes the smallest reported address.
   */
  lemma FailoverSelectsSmallest(svcMap: map<string, string>, zone: string, e: RecordEntry)
    requires |e.addresses| > 0
    requires Current(svcMap, Fqdn(e.service, zone)) !in e.addresses
    ensures var m, rec := ApplyEvent(svcMap, zone, e), Fqdn(e.service, zone);
      rec in m && m[rec] in e.addresses && forall a :: a in e.addresses ==> LexLe(m[rec], a)
  {
    var rec := Fqdn(e.service, zone);
    var sorted := SortSeq(e.addresses);
    assert |sorted| == |multiset(sorted)| == |e.addresses|;
    SortSeqSameElements(e.addresses);
    assert sorted[0] in multiset(e.addresses);
    forall a | a in e.addresses ensures LexLe(sorted[0], a) {
      assert a in multiset(sorted);
      SortedHeadIsLeast(sorted, a);
    }
  }

  /** The same, stated for a known least address: failover publishes exactly that address. */
  lemma FailoverSelectsLeast(svcMap: map<string, string>, zone: string, e: RecordEntry, least: string)
    requires Current(svcMap, Fqdn(e.service, zone)) !in e.addresses
    requires least in e.addresses && LowerBound(least, e.addresses)
    ensures var m, rec := ApplyEvent(svcMap, zone, e), Fqdn(e.service, zone);
      rec in m && m[rec] == least
  {
    FailoverSelectsSmallest(svcMap, zone, e);
    var m, rec := ApplyEvent(svcMap, zone, e), Fqdn(e.service, zone);
    LexLeAntisymmetric(m[rec], least);
  }

  /** After a non-empty report, the published address, when there is one, is a reported one. */
  lemma SelectionIsReported(svcMap: map<string, string>, zone: string, e: RecordEntry)
    requires |e.addresses| > 0
    ensures var m, rec := ApplyEvent(svcMap, zone, e), Fqdn(e.service, zone);
      rec in m ==> m[rec] in e.addresses
  {
    var m, rec := ApplyEvent(svcMap, zone, e), Fqdn(e.service, zone);
    if rec in m {
      assert m[rec] in multiset(SortSeq(e.addresses));
    }
  }

  /** Handling the same report twice is the same as handling it once. */
  lemma ApplyEventIdempotent(svcMap: map<string, string>, zone: string, e: RecordEntry)
    ensures ApplyEvent(ApplyEvent(svcMap, zone, e), zone, e) == ApplyEvent(svcMap, zone, e)
  {
    if |e.addresses| > 0 {
      UpdatedIdempotent(svcMap, Fqdn(e.service, zone), SortSeq(e.addresses));
    }
  }

  /** A report for one service changes no other service's entry. */
  lemma ApplyEventTouchesOwnName(svcMap: map<string, string>, zone: string, e: RecordEntry, k: string)
    requires k != Fqdn(e.service, zone)
    ensures k in ApplyEvent(svcMap, zone, e) <==> k in svcMap
    ensures k in svcMap ==> ApplyEvent(svcMap, zone, e)[k] == svcMap[k]
  {
  }

  /** Reports for different services commute: their order on the channel does not matter. */
  lemma ApplyEventCommutes(svcMap: map<string, string>, zone: string, e1: RecordEntry, e2: RecordEntry)
    requires e1.service != e2.service
    ensures ApplyEvent(ApplyEvent(svcMap, zone, e1), zone, e2)
         == ApplyEvent(ApplyEvent(svcMap, zone, e2), zone, e1)
  {
    if |e1.addresses| > 0 && |e2.addresses| > 0 {
      if Fqdn(e1.service, zone) == Fqdn(e2.service, zone) {
        FqdnInjective(e1.service, e2.service, zone);
      }
      UpdatedCommutes(svcMap, Fqdn(e1.service, zone), SortSeq(e1.addresses),
                      Fqdn(e2.service, zone), SortSeq(e2.addresses));
    }
  }

  lemma {:induction false} ApplyAllAppend(svcMap: map<string, string>, zone: string,
                                          a: seq<RecordEntry>, b: seq<RecordEntry>)
    ensures ApplyAll(svcMap, zone, a + b) == ApplyAll(ApplyAll(svcMap, zone, a), zone, b)
  {
    if b == [] {
      assert a + b == a;
    } else {
      assert (a + b)[..|a + b| - 1] == a + b[..|b| - 1];
      ApplyAllAppend(svcMap, zone, a, b[..|b| - 1]);
    }
  }

  /** Names are never removed from the table. */
  lemma {:induction false} ApplyAllKeepsNames(svcMap: map<string, string>, zone: string, events: seq<RecordEntry>)
    ensures svcMap.Keys <= ApplyAll(svcMap, zone, events).Keys
  {
    if events != [] {
      ApplyAllKeepsNames(svcMap, zone, events[..|events| - 1]);
    }
  }

  /** Whether `events` ever reports a healthy address for `service`. */
  predicate EverReported(events: seq<RecordEntry>, service: string)
  {
    exists i :: 0 <= i < |events| && events[i].service == service && |events[i].addresses| > 0
  }

  /** Events that never report a healthy address for `service` leave its entry as it was. */
  lemma {:induction false} UnreportedNameUnchanged(svcMap: map<string, string>, zone: string,
                                                   events: seq<RecordEntry>, service: string)
    requires !EverReported(events, service)
    ensures var rec := Fqdn(service, zone);
      Current(ApplyAll(svcMap, zone, events), rec) == Current(svcMap, rec) &&
      (rec in ApplyAll(svcMap, zone, events) <==> rec in svcMap)
  {
    if events != [] {
      var init := events[..|events| - 1];
      var last := events[|events| - 1];
      forall i | 0 <= i < |init| ensures init[i] == events[i] {
      }
      UnreportedNameUnchanged(svcMap, zone, init, service);
      if |last.addresses| > 0 {
        assert last.service != service;
        if Fqdn(last.service, zone) == Fqdn(service, zone) {
          FqdnInjective(last.service, service, zone);
        }
      }
    }
  }

  /**
   * From start-up, an address query for a service that was never reported
   * healthy is answered with an authoritative Name Error.
   */
  lemma UnreportedServiceIsNameError(zone: string, events: seq<RecordEntry>, service: string, r: Msg)
    requires !EverReported(events, service)
    requires |r.question| > 0 && r.question[0].qtype == TypeA && r.question[0].name == Fqdn(service, zone)
    ensures var reply := Respond(ApplyAll(map[], zone, events), r);
      reply.authoritative && reply.rcode == RcodeNameError && reply.answer == []
  {
    UnreportedNameUnchanged(map[], zone, events, service);
  }

  /**
   * Non-empty strings in strictly ascending Go string order.  Non-empty
   * matters: a name not yet in the table reads as "" (dns.go:63), so a
   * report containing "" would count as still listing the current value.
   */
  predicate NonEmptyStrictlyAscending(a: seq<string>)
  {
    (forall i :: 0 <= i < |a| ==> a[i] != "") &&
    forall i, j :: 0 <= i < j < |a| ==> LexLe(a[i], a[j]) && a[i] != a[j]
  }

  /**
   * The reports of the end-to-end node-selection scenario for `service`,
   * whose nodes 2 to 7 have the ascending addresses `a[0]` to `a[5]`: no
   * healthy node; nodes 2 to 7 healthy (reported in no particular order);
   * nodes 6 and 7 removed; node 2 removed; node 3 unhealthy.  These are the
   * settled states only: the test adds nodes 2 to 7 and removes nodes 6 and 7
   * one at a time, so the monitor may also report intermediate lists.  Each
   * of those lists node 2, so `FailoverSelectsLeast` (the first one) and
   * `HealthySelectionIsKept` (the rest) give them the same outcome.
   */
  function SelectNodeEvents(service: string, a: seq<string>): (es: seq<RecordEntry>)
    requires |a| == 6
    ensures |es| == 5 && forall i :: 0 <= i < 5 ==> es[i].service == service
  {
    [ RecordEntry([], service),
      RecordEntry([a[3], a[0], a[5], a[1], a[4], a[2]], service),
      RecordEntry([a[0], a[1], a[2], a[3]], service),
      RecordEntry([a[1], a[2], a[3]], service),
      RecordEntry([a[2], a[3]], service) ]
  }

  lemma ApplyAllStep(svcMap: map<string, string>, zone: string, events: seq<RecordEntry>, k: nat)
    requires k < |events|
    ensures ApplyAll(svcMap, zone, events[..k + 1]) == ApplyEvent(ApplyAll(svcMap, zone, events[..k]), zone, events[k])
  {
    assert events[..k + 1][..k] == events[..k];
  }

  /**
   * The tables the scenario goes through: empty at start-up and after the
   * all-unhealthy report, then node 2 after all become healthy and after
   * nodes 6 and 7 leave, node 3 after node 2 leaves, node 4 after node 3
   * turns unhealthy.
   */
  function ScenarioTables(rec: string, a: seq<string>): (tables: seq<map<string, string>>)
    requires |a| == 6
    ensures |tables| == 6
  {
    [map[], map[], map[rec := a[0]], map[rec := a[0]], map[rec := a[1]], map[rec := a[2]]]
  }

  /** Report `i` of the scenario takes table `i` to table `i + 1`. */
  predicate ScenarioStepHolds(service: string, zone: string, a: seq<string>, i: nat)
    requires |a| == 6 && i < 5
  {
    var es, tables := SelectNodeEvents(service, a), ScenarioTables(Fqdn(service, zone), a);
    ApplyEvent(tables[i], zone, es[i]) == tables[i + 1]
  }

  /**
   * One failover step of the scenario: the table holds at most this
   * service's name, its current address is not reported, and the reported
   * addresses are drawn from `a[k..]` including `a[k]`; then `a[k]` is published.
   */
  lemma ScenarioFailover(svcMap: map<string, string>, zone: string, e: RecordEntry, a: seq<string>, k: nat)
    requires NonEmptyStrictlyAscending(a) && k < |a|
    requires svcMap.Keys <= {Fqdn(e.service, zone)}
    requires Current(svcMap, Fqdn(e.service, zone)) !in e.addresses
    requires a[k] in e.addresses && forall x :: x in e.addresses ==> x in a[k..]
    ensures ApplyEvent(svcMap, zone, e) == map[Fqdn(e.service, zone) := a[k]]
  {
    forall x | x in e.addresses ensures LexLe(a[k], x) {
      var j :| k <= j < |a| && a[j] == x;
      if j == k { LexLeReflexive(x); }
    }
    FailoverSelectsLeast(svcMap, zone, e, a[k]);
  }

  /** No node is healthy: the empty report leaves the name unset. */
  lemma ScenarioNoneHealthy(service: string, zone: string, a: seq<string>)
    requires |a| == 6
    ensures ScenarioStepHolds(service, zone, a, 0)
  {
    assert SelectNodeEvents(service, a)[0].addresses == [];
  }

  /** Nodes 2 to 7 become healthy: the lowest address, node 2's, is published. */
  lemma ScenarioAllHealthy(service: string, zone: string, a: seq<string>)
    requires |a| == 6 && NonEmptyStrictlyAscending(a)
    ensures ScenarioStepHolds(service, zone, a, 1)
  {
    assert a[0..] == a;
    ScenarioFailover(map[], zone, SelectNodeEvents(service, a)[1], a, 0);
  }

  /**
   * Nodes 2 to 7 become healthy, reported in any order: from the empty
   * table the lowest address, node 2's, is published.
   */
  lemma ScenarioAllHealthyAnyOrder(service: string, zone: string, a: seq<string>, e: RecordEntry)
    requires |a| == 6 && NonEmptyStrictlyAscending(a)
    requires e.service == service && multiset(e.addresses) == multiset(a)
    ensures ApplyEvent(map[], zone, e) == map[Fqdn(service, zone) := a[0]]
  {
    assert a[0..] == a;
    forall x | x in e.addresses ensures x in a && x != "" {
      assert x in multiset(e.addresses);
    }
    assert a[0] in multiset(e.addresses);
    ScenarioFailover(map[], zone, e, a, 0);
  }

  /** Nodes 6 and 7 are removed: node 2 is still healthy and stays published. */
  lemma ScenarioHigherRemoved(service: string, zone: string, a: seq<string>)
    requires |a| == 6
    ensures ScenarioStepHolds(service, zone, a, 2)
  {
    HealthySelectionIsKept(map[Fqdn(service, zone) := a[0]], zone, SelectNodeEvents(service, a)[2]);
  }

  /** Node 2 is removed: node 3, now the lowest, is published. */
  lemma ScenarioSelectedRemoved(service: string, zone: string, a: seq<string>)
    requires |a| == 6 && NonEmptyStrictlyAscending(a)
    ensures ScenarioStepHolds(service, zone, a, 3)
  {
    ScenarioFailover(map[Fqdn(service, zone) := a[0]], zone, SelectNodeEvents(service, a)[3], a, 1);
  }

  /** Node 3 turns unhealthy: node 4 is published. */
  lemma ScenarioSelectedUnhealthy(service: string, zone: string, a: seq<string>)
    requires |a| == 6 && NonEmptyStrictlyAscending(a)
    ensures ScenarioStepHolds(service, zone, a, 4)
  {
    ScenarioFailover(map[Fqdn(service, zone) := a[1]], zone, SelectNodeEvents(service, a)[4], a, 2);
  }

  /**
   * The node-selection scenario: after its first `k` reports the loop has
   * produced table `k` of `ScenarioTables`, for any six strictly ascending
   * addresses of nodes 2 to 7.
   */
  lemma {:induction false} SelectNodeScenario(service: string, zone: string, a: seq<string>, k: nat)
    requires |a| == 6 && NonEmptyStrictlyAscending(a) && k <= 5
    ensures ApplyAll(map[], zone, SelectNodeEvents(service, a)[..k]) == ScenarioTables(Fqdn(service, zone), a)[k]
  {
    if k > 0 {
      SelectNodeScenario(service, zone, a, k - 1);
      ApplyAllStep(map[], zone, SelectNodeEvents(service, a), k - 1);
      if k == 1 {
        ScenarioNoneHealthy(service, zone, a);
      } else if k == 2 {
        ScenarioAllHealthy(service, zone, a);
      } else if k == 3 {
        ScenarioHigherRemoved(service, zone, a);
      } else if k == 4 {
        ScenarioSelectedRemoved(service, zone, a);
      } else {
        ScenarioSelectedUnhealthy(service, zone, a);
      }
    }
  }

  /** After all five reports node 4's address is published. */
  lemma SelectNodeScenarioEnd(service: string, zone: string, a: seq<string>)
    requires |a| == 6 && NonEmptyStrictlyAscending(a)
    ensures ApplyAll(map[], zone, SelectNodeEvents(service, a)) == map[Fqdn(service, zone) := a[2]]
  {
    SelectNodeScenario(service, zone, a, 5);
    assert SelectNodeEvents(service, a)[..5] == SelectNodeEvents(service, a);
  }

  /** At the end of the scenario an address query for the service returns node 4's address. */
  lemma SelectNodeScenarioAnswer(service: string, zone: string, a: seq<string>, r: Msg)
    requires |a| == 6 && NonEmptyStrictlyAscending(a)
    requires |r.question| > 0 && r.question[0] == Question(Fqdn(service, zone), TypeA, ClassINET)
    ensures Respond(ApplyAll(map[], zone, SelectNodeEvents(service, a)), r).answer
         == [RR(Fqdn(service, zone), TypeA, ClassINET, 0, a[2])]
  {
    SelectNodeScenarioEnd(service, zone, a);
  }

  /** The address the end-to-end test gives node `d`: "10.0.0.<d>". */
  function Node(d: char): string
  {
    "10.0.0." + [d]
  }

  /** The test's addresses 10.0.0.2 to 10.0.0.7 are strictly ascending, so the scenario applies to them. */
  lemma NodeAddressesAscending()
    ensures NonEmptyStrictlyAscending([Node('2'), Node('3'), Node('4'), Node('5'), Node('6'), Node('7')])
  {
    var a := [Node('2'), Node('3'), Node('4'), Node('5'), Node('6'), Node('7')];
    forall i, j | 0 <= i < j < 6 ensures LexLe(a[i], a[j]) && a[i] != a[j] {
      var ci, cj := ['2', '3', '4', '5', '6', '7'][i], ['2', '3', '4', '5', '6', '7'][j];
      assert a[i] == Node(ci) && a[j] == Node(cj);
      LexLeCommonPrefix("10.0.0.", [ci], [cj]);
      assert a[i][7] == ci && a[j][7] == cj;
    }
  }

  /** The addresses of nodes 2 to 7 in the end-to-end test. */
  function TestNodeAddresses(): (a: seq<string>)
    ensures |a| == 6 && NonEmptyStrictlyAscending(a)
    ensures a[0] == "10.0.0.2" && a[1] == "10.0.0.3" && a[2] == "10.0.0.4"
  {
    NodeAddressesAscending();
    [Node('2'), Node('3'), Node('4'), Node('5'), Node('6'), Node('7')]
  }

  /**
   * The scenario with the test's own addresses: the loop goes through the
   * tables of `ScenarioTables`, which hold 10.0.0.2, 10.0.0.2, 10.0.0.3 and
   * 10.0.0.4 in turn, and an address query after the last report is answered
   * with 10.0.0.4 alone.
   */
  lemma SelectNodeScenarioWithTestAddresses(service: string, zone: string, r: Msg)
    requires |r.question| > 0 && r.question[0] == Question(Fqdn(service, zone), TypeA, ClassINET)
    ensures forall k :: 0 <= k <= 5 ==>
      ApplyAll(map[], zone, SelectNodeEvents(service, TestNodeAddresses())[..k])
        == ScenarioTables(Fqdn(service, zone), TestNodeAddresses())[k]
    ensures Respond(ApplyAll(map[], zone, SelectNodeEvents(service, TestNodeAddresses())), r).answer
         == [RR(Fqdn(service, zone), TypeA, ClassINET, 0, "10.0.0.4")]
  {
    forall k | 0 <= k <= 5
      ensures ApplyAll(map[], zone, SelectNodeEvents(service, TestNodeAddresses())[..k])
           == ScenarioTables(Fqdn(service, zone), TestNodeAddresses())[k]
    {
      SelectNodeScenario(service, zone, TestNodeAddresses(), k);
    }
    SelectNodeScenarioAnswer(service, zone, TestNodeAddresses(), r);
  }

  /**
   * The loop body for one event (main.go:94-103): skip an empty report,
   * otherwise sort the reported addresses in place and update the table.
   */
  method HandleEvent(h: DNSHandler, e: RecordEntry)
    modifies h`svcMap
    ensures h.svcMap == ApplyEvent(old(h.svcMap), h.zone, e)
  {
    if |e.addresses| == 0 {
      return;
    }
    var t := new string[|e.addresses|](i requires 0 <= i < |e.addresses| => e.addresses[i]);
    assert t[..] == e.addresses;
    SortStrings(t);
    h.UpdateRecord(e.service, t[..]);
  }

  /** The loop of main.go:92-105 over the events received, in order. */
  method Reconcile(h: DNSHandler, events: seq<RecordEntry>)
    modifies h`svcMap
    ensures h.svcMap == ApplyAll(old(h.svcMap), h.zone, events)
  {
    for n := 0 to |events|
      invariant h.svcMap == ApplyAll(old(h.svcMap), h.zone, events[..n])
    {
      assert events[..n + 1][..n] == events[..n];
      HandleEvent(h, events[n]);
    }
    assert events[..|events|] == events;
  }
}
