# hobson: sticky-lowest DNS selection, modelled in Dafny

hobson is a small DNS server. For each service it watches in Consul, it publishes at most one address
under the name `<service>.<zone>.`. Nothing is published before the first report with a healthy address.
The published address was the smallest healthy one when it was chosen. It is kept while it is still
reported healthy, and also while reports list no healthy address at all. Service monitors report each service's list of healthy
addresses over a channel. One reconciliation loop takes each report in turn. It skips an empty report.
Otherwise it sorts the addresses ascending and hands them to the record table. The table keeps the
published address while it is still reported healthy. Otherwise it publishes the first (smallest)
reported address. DNS address queries are answered from the table with authoritative replies of TTL 0.
A name not in the table gets an authoritative Name Error. Any other query type gets an empty reply.

The model has four modules:

- `StringOrder` (StringOrder.dfy): Go's string order and `sort.Strings`. `SortStrings` is an in-place
  sort of an `array`, proved against the reference definition `SortSeq`. `SortedUnique` shows that a
  list has only one ascending arrangement. So the model's sort yields the same result as Go's
  (unstable) sort.
- `Dns` (Dns.dfy): the decoded DNS messages and the `DNSHandler` class.
  - The class keeps the zone and the mutable map `svcMap`.
  - `ServeDNS` only reads the table. It appends its (domain, address) pair to a ghost log `served`,
    which stands in for the last-served metric.
  - `UpdateRecord` and `ServeDNS` are proved against the functions `Updated` and `Respond`. Their
    properties are the `ensures` of those functions and the lemmas beside them.
  - Record types, flags and result codes follow section 4.1.1 and sections 3.2.2 and 3.2.4 of RFC 1035.
- `Reconciler` (Reconciler.dfy): the loop of main.go:92-105.
  - One event is `ApplyEvent`, and a sequence of events is the left fold `ApplyAll`.
  - The methods `HandleEvent` and `Reconcile` drive a `DNSHandler` and are proved to compute them.
  - The lemmas cover skipping empty reports, keeping a healthy selection, failover to the smallest
    address, idempotence, other names untouched, commutation of different services, and never-reported
    names.
  - It also replays the end-to-end node-selection test.
- `Configuration` (Configuration.dfy): `validateConfig` as a method on a `Config` object. It is proved
  against `ValidationError` and `ValidatedListen`.

## Model

| member | source | states |
|---|---|---|
| StringOrder.LexLe | main.go:102 | definition: Go's string order, lexicographic by character, used by `sort.Strings` |
| StringOrder.LexLeReflexive | main.go:102 | Go's string order is reflexive |
| StringOrder.LexLeAntisymmetric | main.go:102 | two strings that each sort before the other are equal |
| StringOrder.LexLeTransitive | main.go:102 | the string order is transitive |
| StringOrder.LexLeTotal | main.go:102 | any two strings are comparable, so sorting is well defined |
| StringOrder.LexLeCommonPrefix | main.go:102 | a common prefix such as "10.0.0." does not change how two addresses compare |
| StringOrder.SortedHeadIsLeast | main.go:102-103 | the first element of an ascending list sorts before every element of it, which is why `records[0]` is the smallest address |
| StringOrder.SortedTail | main.go:102 | the tail of an ascending list is ascending |
| StringOrder.MultisetTail | main.go:102 | dropping the head of a list removes exactly one occurrence of it |
| StringOrder.SortedUnique | main.go:102 | two ascending lists with the same elements (as a multiset) are equal, so any correct sort gives the same result |
| StringOrder.SortedCons | main.go:102 | an element that sorts before every element of an ascending list can be put in front of it |
| StringOrder.Insert | main.go:102 | inserting into an ascending list yields an ascending list with exactly one more occurrence of the element |
| StringOrder.SortSeq | main.go:102 | the reference sort: ascending and a permutation of its input |
| StringOrder.SortSeqSameElements | main.go:102 | sorting neither adds nor drops an address |
| StringOrder.SortSeqOfSorted | main.go:102 | sorting an already ascending list leaves it unchanged |
| StringOrder.SinkingStart | main.go:102 | when the ascending prefix has length `i`, element `i` starts sinking from its own place |
| StringOrder.SinkingSwap | main.go:102 | swapping the sinking element with a larger predecessor keeps both parts ascending and ordered one place lower |
| StringOrder.SinkingDone | main.go:102 | once the sinking element is at the front or after a smaller one, the first `i + 1` elements are ascending |
| StringOrder.SortStrings | main.go:102 | `sort.Strings` in place: the array ends ascending, is a permutation of its old contents, and equals `SortSeq` of them |
| Dns.Fqdn | dns.go:62 | definition: the table key `<service>.<zone>.` |
| Dns.Current | dns.go:63 | definition: the current value of a key, "" when it is missing |
| Dns.FqdnInjective | dns.go:62 | `<service>.<zone>.` determines the service within a zone, so different services never share a table entry |
| Dns.Updated | dns.go:58-74 | other names keep their presence and value; no name is removed; the result is unchanged exactly when the current value (or "" for a missing name) is among the records; otherwise the name maps to `records[0]`; a present entry holds one of the records |
| Dns.UpdatedIdempotent | dns.go:58-74 | applying the same record list twice gives what applying it once gives |
| Dns.UpdatedCommutes | dns.go:58-74 | updates of two different names give the same table in either order |
| Dns.Respond | dns.go:27-56 | the reply has the request id and first question; it is authoritative exactly for A queries; it has a Name Error exactly for an A query of an absent name (otherwise success); it has at most one answer, present exactly for an A query of a held name, with that name, type A, class IN, TTL 0 and the stored address |
| Dns.ServedBy | dns.go:53 | one (domain, address) entry per answer record, in order |
| Dns.RespondReadsFirstQuestionOnly | dns.go:29-33 | two requests with the same id and first question get the same reply |
| Dns.RespondUnknownName | dns.go:36-41 | an A query for an absent name gets an authoritative Name Error with no answer and nothing served |
| Dns.RespondKnownName | dns.go:36-53 | an A query for a held name gets an authoritative success with one A record of the stored address, which is served |
| Dns.RespondOtherType | dns.go:30-54 | a query of any other type gets a non-authoritative, empty success reply and nothing is served |
| Dns.DNSHandler.constructor | dns.go:20-25 | a new handler has the given zone, an empty table and an empty served log |
| Dns.DNSHandler.UpdateRecord | dns.go:58-74 | the new table is `Updated` of the old one for the service's name and the records; only the table changes |
| Dns.DNSHandler.ServeDNS | dns.go:27-56 | the reply is `Respond` of the current table; the table is unchanged; the served log gains the answered (domain, address) pairs |
| Reconciler.ApplyEvent | main.go:94-103 | definition: the table after one report; an empty report is skipped, and otherwise the sorted addresses go to `Updated` |
| Reconciler.ApplyAll | main.go:92-105 | definition: the table after a sequence of reports, handled in order (a left fold of `ApplyEvent`) |
| Reconciler.EmptyReportKeepsTable | main.go:97-100 | a report with no healthy address changes nothing, so a never-set name stays unset |
| Reconciler.HealthySelectionIsKept | main.go:102-103 | a report that still lists the published address leaves the table unchanged |
| Reconciler.MissingNameStaysUnsetOnEmptyAddress | dns.go:63-67 | a name not yet in the table reads as "", so a report that lists "" leaves the table unchanged and the name unset |
| Reconciler.FailoverSelectsSmallest | main.go:102-103 | a report that does not list the published address publishes a reported address that sorts before all reported addresses |
| Reconciler.FailoverSelectsLeast | main.go:102-103 | in that case the published address is exactly the least reported address |
| Reconciler.SelectionIsReported | main.go:102-103 | after a non-empty report the service's entry, if any, is one of the reported addresses |
| Reconciler.ApplyEventIdempotent | main.go:94-103 | handling the same report twice equals handling it once |
| Reconciler.ApplyEventTouchesOwnName | main.go:94-103 | a report changes no other name's entry |
| Reconciler.ApplyEventCommutes | main.go:92-105 | reports for different services can be handled in either order |
| Reconciler.ApplyAllAppend | main.go:92-105 | handling `a + b` is handling `a`, then `b` from the resulting table |
| Reconciler.ApplyAllKeepsNames | main.go:92-105 | no name ever leaves the table |
| Reconciler.UnreportedNameUnchanged | main.go:92-105 | reports that never list a healthy address for a service leave its entry as it was |
| Reconciler.UnreportedServiceIsNameError | e2e/e2e_select_node_test.go:98-123 | from start-up, an A query for a never-reported service gets an authoritative Name Error with no answer |
| Reconciler.SelectNodeEvents | e2e/e2e_select_node_test.go:116-171 | the scenario's five settled reports, all for the one service; intermediate reports sent while nodes are added or removed one at a time are not listed, and each of them lists node 2, so `FailoverSelectsLeast` and `HealthySelectionIsKept` give them the same outcome |
| Reconciler.ApplyAllStep | main.go:92-105 | the loop after `k + 1` events is one more event after `k` |
| Reconciler.ScenarioTables | e2e/e2e_select_node_test.go:116-171 | the six tables the scenario is expected to go through |
| Reconciler.ScenarioFailover | main.go:102-103 | when the published address is gone, and the addresses reported are drawn from `a[k..]` including `a[k]`, then `a[k]` is published |
| Reconciler.ScenarioNoneHealthy | e2e/e2e_select_node_test.go:116-123 | the all-unhealthy report leaves the service unset |
| Reconciler.ScenarioAllHealthy | e2e/e2e_select_node_test.go:125-139 | with nodes 2 to 7 healthy, reported in the shuffled order the scenario fixes, node 2's address is published |
| Reconciler.ScenarioAllHealthyAnyOrder | e2e/e2e_select_node_test.go:125-139 | from the empty table, a report of nodes 2 to 7 in any order (any list with the same multiset of addresses) publishes node 2's address |
| Reconciler.ScenarioHigherRemoved | e2e/e2e_select_node_test.go:141-151 | removing nodes 6 and 7 keeps node 2 |
| Reconciler.ScenarioSelectedRemoved | e2e/e2e_select_node_test.go:153-161 | removing node 2 publishes node 3 |
| Reconciler.ScenarioSelectedUnhealthy | e2e/e2e_select_node_test.go:163-171 | node 3 turning unhealthy publishes node 4 |
| Reconciler.SelectNodeScenario | e2e/e2e_select_node_test.go:116-171 | for any six strictly ascending addresses of nodes 2 to 7, the loop after the first `k` reports has produced table `k`: unset, unset, node 2, node 2, node 3, node 4 |
| Reconciler.SelectNodeScenarioEnd | e2e/e2e_select_node_test.go:163-171 | after all five reports the service's name maps to node 4's address alone |
| Reconciler.SelectNodeScenarioAnswer | e2e/e2e_select_node_test.go:163-171 | at the end, an A query for the service is answered with exactly one record, node 4's address |
| Reconciler.NodeAddressesAscending | e2e/e2e_select_node_test.go:126-130 | 10.0.0.2 to 10.0.0.7 are strictly ascending in Go's string order |
| Reconciler.TestNodeAddresses | e2e/e2e_select_node_test.go:126-130 | the test's six addresses, strictly ascending, with 10.0.0.2, 10.0.0.3 and 10.0.0.4 first |
| Reconciler.SelectNodeScenarioWithTestAddresses | e2e/e2e_select_node_test.go:116-171 | with the test's addresses 10.0.0.2 to 10.0.0.7 the loop goes through the scenario's tables (10.0.0.2, 10.0.0.2, 10.0.0.3, 10.0.0.4 once set), and the last query is answered with 10.0.0.4 alone |
| Reconciler.HandleEvent | main.go:94-103 | the table becomes `ApplyEvent` of the old table: empty reports are skipped, others are sorted and passed to `UpdateRecord` |
| Reconciler.Reconcile | main.go:92-105 | after the loop over the events, the table is the left fold `ApplyAll` of the old table over them |
| Configuration.ValidationError | config.go:18-36 | no error exactly when Bind and Zone are set and Services is non-empty; otherwise the first failing check's message, in the order Bind, Zone, Services |
| Configuration.ValidatedListen | config.go:27-29 | a set metrics address is kept; an empty one becomes ":9234" exactly when Bind and Zone are set, even if the Services check then fails |
| Configuration.ValidConfigHasMetricsListen | config.go:18-36 | a configuration that passes has a non-empty metrics address |
| Configuration.ValidationIdempotent | config.go:18-36 | validating again leaves the metrics address as the first validation left it |
| Configuration.Config.constructor | config.go:11-16 | a configuration holds the given four fields |
| Configuration.ValidateConfig | config.go:18-36 | the error is `ValidationError` of the fields; only the metrics address changes, to `ValidatedListen` |
| Configuration.ValidateConfigTwice | config.go:18-36 | a second validation reports the same outcome and leaves the configuration as the first did |

## Left out

- Locking: the `sync.RWMutex` of `DNSHandler` and the goroutines are not modelled. The
  reconciliation loop is the only writer, and each operation is modelled as one atomic step.
- The last-served gauge of metrics.go records the wall-clock time. That needs a clock, so the ghost log
  `served` records the (domain, address) pairs instead. The monitor-running gauge is not modelled.
- `LoadConfig` (config.go:38-56) reads a file and decodes YAML, both foreign calls; only `validateConfig` is modelled.
- `main` outside the loop of main.go:92-105 is not modelled: flags, server start-up and shutdown,
  signals and logging. `monitor` and its Consul client are also left out. Its reports arrive as the
  `events` sequence, in channel order.
- DNS wire format is not modelled:
  - encoding and `w.WriteMsg` are left out;
  - the opcode, RD and CD flags that `SetReply` copies are not in `Msg`;
  - `net.ParseIP(address)` is left out, so an RR carries the stored address text.
- `log.Printf` calls are left out.
- Dns.SetReply and Dns.SetRcode define the wire library's `msg.SetReply(r)` and `msg.SetRcode(r, code)`
  (dns.go:29, dns.go:39) as the model assumes them, not as verified library code. The request id is copied,
  the response flag is set, and the first question is echoed. The result code is 0, or the given code for
  `SetRcode`. The authoritative flag and the answers are kept.
- Dns.DNSHandler.ServeDNS: requires a request with at least one question. The source reads
  `Question[0]` unguarded and relies on the server library rejecting requests without exactly one question.
- Dns.DNSHandler.UpdateRecord: requires a non-empty record list. The source would fail on `records[0]`,
  and its only caller skips empty lists.
- StringOrder.LexLe compares characters by code point where Go compares bytes. The two orders agree
  on valid UTF-8, and addresses are ASCII.
- Reconciler.HandleEvent sorts a fresh array copy of the report's addresses, where the source sorts the
  report's own slice in place. Nothing in the loop body or in `UpdateRecord` reads the slice afterwards.
  `monitor`, which sent the report and may still hold the slice, is not modelled, so any aliasing through
  it is not captured.
