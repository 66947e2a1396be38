/** No orphan routes: over every run, whatever the object has installed is in its books, and cleaning up removes it. */
module RouteCoverage {
  import opened RouteTable

  datatype Operation =
    | AddRoute(dest: u32, mask: u32, accepted: bool)
    | RemoveRoute(dest: u32, mask: u32)
    | AddHost(host: string, ips: seq<u32>, answers: seq<bool>)
    | RemoveHost(host: string)
    | Clean

  /** There is one answer of the system for each address. */
  predicate Proper(op: Operation) {
    op.AddHost? ==> |op.ips| == |op.answers|
  }

  function Do(s: State, op: Operation): State
    requires Proper(op)
  {
    match op
    case AddRoute(dest, mask, accepted) => AddRouteTo(s, dest, mask, accepted).0
    case RemoveRoute(dest, mask) => RemoveRouteFrom(s, dest, mask).0
    case AddHost(host, ips, answers) => AddHostTo(s, host, ips, answers)
    case RemoveHost(host) => RemoveHostFrom(s, host)
    case Clean => CleanUp(s)
  }

  function Run(s: State, ops: seq<Operation>): State
    requires forall i :: 0 <= i < |ops| ==> Proper(ops[i])
    decreases |ops|
  {
    if ops == [] then s else Run(Do(s, ops[0]), ops[1..])
  }

  function Start(system: set<Route>): State {
    State(system, {}, [], map[])
  }

  /** The invariant; system is what the table held before the object came. */
  ghost predicate Books(s: State, system: set<Route>) {
    && s.installed <= s.os
    && s.installed <= Covered(s)
    && s.os <= system + s.installed
  }

  // ---- What the loops do to the sets ----

  lemma {:induction false} AddAllEffect(s: State, ips: seq<u32>, answers: seq<bool>)
    requires |ips| == |answers|
    ensures var (t, added) := AddAll(s, ips, answers);
      && t.statics == s.statics && t.hosts == s.hosts
      && s.os <= t.os <= s.os + AddressRoutes(added) && s.installed <= t.installed && t.os - s.os <= t.installed
      && t.installed <= s.installed + AddressRoutes(added) && AddressRoutes(added) <= t.os
      && t.installed - s.installed <= t.os
      && (forall ip :: ip in added ==> ip in ips)
      && (forall ip :: ip in ips && HostRoute(ip) in s.os ==> ip in added)
    decreases |ips|
  {
    hide HostRoute, RouteOf;
    if ips == [] {
      NoAddresses();
    } else {
      var (t, ok) := AddEntry(s, ips[0], HOST_MASK, answers[0]);
      AddEntryEffect(s, ips[0], answers[0]);
      AddAllEffect(t, ips[1..], answers[1..]);
      var added := AddAll(t, ips[1..], answers[1..]).1;
      MoreAddresses(ips[0], added);
      assert forall ip :: ip in ips <==> ip == ips[0] || ip in ips[1..];
      assert [] + added == added;
    }
  }

  lemma {:induction false} AddEntryEffect(s: State, ip: u32, accepted: bool)
    ensures var (t, ok) := AddEntry(s, ip, HOST_MASK, accepted);
      && t.statics == s.statics && t.hosts == s.hosts
      && t.os == s.os + (if ok then {HostRoute(ip)} else {})
      && t.installed == s.installed + (if ok && HostRoute(ip) !in s.os then {HostRoute(ip)} else {})
      && (HostRoute(ip) in s.os ==> ok)
  {
    hide OneBits;
  }

  lemma {:induction false} NoAddresses()
    ensures AddressRoutes([]) == {}
  {
  }

  lemma {:induction false} MoreAddresses(ip: u32, ips: seq<u32>)
    ensures AddressRoutes([ip] + ips) == {HostRoute(ip)} + AddressRoutes(ips)
  {
    hide HostRoute;
  }

  lemma {:induction false} EraseKeeps(entries: seq<RouteEntry>, e: RouteEntry, f: RouteEntry)
    requires f in entries && f != e
    ensures f in EraseFirst(entries, e)
    decreases |entries|
  {
    if entries[0] != e && entries[0] != f {
      assert f in entries[1..];
      EraseKeeps(entries[1..], e, f);
    } else if entries[0] == e {
      assert f in entries[1..];
    }
  }

  // ---- Each operation keeps the books ----

  lemma {:induction false} AddRouteKeepsBooks(s: State, system: set<Route>, dest: u32, mask: u32, accepted: bool)
    requires Books(s, system)
    ensures Books(AddRouteTo(s, dest, mask, accepted).0, system)
  {
    hide OneBits, HostRoutes;
    var e := RouteEntry(dest, mask);
    var more := s.statics + [e];
    assert forall f :: f in more <==> f in s.statics || f == e;
    assert e in more;
    assert StaticRoutes(more) == StaticRoutes(s.statics) + {RouteOf(dest, mask)};
  }

  lemma {:induction false} RemoveRouteKeepsBooks(s: State, system: set<Route>, dest: u32, mask: u32)
    requires Books(s, system)
    ensures Books(RemoveRouteFrom(s, dest, mask).0, system)
  {
    hide OneBits, HostRoutes, EraseFirst;
    var e := RouteEntry(dest, mask);
    var left := EraseFirst(s.statics, e);
    forall f | f in s.statics && f != e
      ensures f in left
    {
      EraseKeeps(s.statics, e, f);
    }
    assert StaticRoutes(s.statics) <= StaticRoutes(left) + {RouteOf(dest, mask)};
  }

  lemma {:induction false} RemoveHostKeepsBooks(s: State, system: set<Route>, host: string)
    requires Books(s, system)
    ensures Books(RemoveHostFrom(s, host), system)
  {
    hide HostRoute, StaticRoutes, HostRoutes, DeleteAll, AddressRoutes, Dropped;
    if host in s.hosts {
      DeleteAllEffect(s, s.hosts[host], []);
      HostRoutesGrow(s.hosts, {host}, host);
      assert s.hosts - ({host} - {host}) == s.hosts;
    }
  }

  lemma {:induction false} AddHostKeepsBooks(s: State, system: set<Route>, host: string, ips: seq<u32>,
      answers: seq<bool>)
    requires Books(s, system) && |ips| == |answers|
    ensures Books(AddHostTo(s, host, ips, answers), system)
  {
    hide HostRoute, StaticRoutes, HostRoutes, DeleteAll, AddAll, AddressRoutes, Dropped;
    var (t, added) := AddAll(s, ips, answers);
    AddAllEffect(s, ips, answers);
    if added == [] {
      NoAddresses();
    } else {
      var former := if host in s.hosts then s.hosts[host] else [];
      DeleteAllEffect(t, former, ips);
      ReplaceHost(s, host, former, ips, added);
      NothingDropped(ips);
      var d := Dropped(former, ips);
      assert t.os - {} == t.os && t.installed - {} == t.installed;
      assert AddHostTo(s, host, ips, answers) == State(t.os - d, t.installed - d, s.statics, s.hosts[host := added]);
      forall r | r in s.installed && r !in d
        ensures r in StaticRoutes(s.statics) || r in HostRoutes(s.hosts[host := added])
      {
        assert r in Covered(s);
        assert r !in StaticRoutes(s.statics) ==> r in s.os * HostRoutes(s.hosts);
      }
    }
  }

  lemma {:induction false} NothingDropped(keep: seq<u32>)
    ensures Dropped([], keep) == {}
  {
  }

  /** What the old list of a host covered is dropped, or in the new list, or was not in the table. */
  lemma {:induction false} ReplaceHost(s: State, host: string, former: seq<u32>, ips: seq<u32>, added: seq<u32>)
    requires former == if host in s.hosts then s.hosts[host] else []
    requires forall ip :: ip in ips && HostRoute(ip) in s.os ==> ip in added
    ensures s.os * HostRoutes(s.hosts) <= Dropped(former, ips) + HostRoutes(s.hosts[host := added])
    ensures AddressRoutes(added) <= HostRoutes(s.hosts[host := added])
  {
    hide HostRoute, HostRoutes;
    var hosts := s.hosts[host := added];
    forall r | r in s.os && r in HostRoutes(s.hosts)
      ensures r in Dropped(former, ips) || r in HostRoutes(hosts)
    {
      InHostRoutes(r, s.hosts);
      InHostRoutes(r, hosts);
      var h, ip :| Lists(s.hosts, h, ip) && r == HostRoute(ip);
      assert h != host || ip in added ==> Lists(hosts, h, ip);
    }
    forall r | r in AddressRoutes(added)
      ensures r in HostRoutes(hosts)
    {
      InHostRoutes(r, hosts);
      var ip :| ip in added && r == HostRoute(ip);
      assert Lists(hosts, host, ip);
    }
  }

  lemma {:induction false} DoKeepsBooks(s: State, system: set<Route>, op: Operation)
    requires Books(s, system) && Proper(op)
    ensures Books(Do(s, op), system)
  {
    hide Books, AddRouteTo, RemoveRouteFrom, AddHostTo, RemoveHostFrom;
    match op {
      case AddRoute(dest, mask, accepted) => AddRouteKeepsBooks(s, system, dest, mask, accepted);
      case RemoveRoute(dest, mask) => RemoveRouteKeepsBooks(s, system, dest, mask);
      case AddHost(host, ips, answers) => AddHostKeepsBooks(s, system, host, ips, answers);
      case RemoveHost(host) => RemoveHostKeepsBooks(s, system, host);
      case Clean => CleanKeepsBooks(s, system);
    }
  }

  lemma {:induction false} CleanKeepsBooks(s: State, system: set<Route>)
    requires Books(s, system)
    ensures Books(CleanUp(s), system) && CleanUp(s).installed == {} && CleanUp(s).os <= system
  {
    hide StaticRoutes, HostRoutes;
  }

  /** Over every run of the operations, with any answers of the system, the books cover everything installed. */
  lemma {:induction false} RunKeepsBooks(s: State, system: set<Route>, ops: seq<Operation>)
    requires Books(s, system) && forall i :: 0 <= i < |ops| ==> Proper(ops[i])
    ensures Books(Run(s, ops), system)
    decreases |ops|
  {
    hide Books, Do;
    if ops != [] {
      DoKeepsBooks(s, system, ops[0]);
      RunKeepsBooks(Do(s, ops[0]), system, ops[1..]);
    }
  }

  /** Cleaning up after any run leaves nothing the object installed and no row that was not there before it. */
  lemma {:induction false} CleanupLeavesNoOrphans(system: set<Route>, ops: seq<Operation>)
    requires forall i :: 0 <= i < |ops| ==> Proper(ops[i])
    ensures var s := CleanUp(Run(Start(system), ops)); s.installed == {} && s.os <= system && Covered(s) == {}
  {
    hide Do, Run, StaticRoutes, HostRoutes;
    RunKeepsBooks(Start(system), system, ops);
    CleanKeepsBooks(Run(Start(system), ops), system);
    NoRoutes();
  }

  /** Cleaning up again changes nothing. */
  lemma {:induction false} CleanupIsIdempotent(s: State)
    ensures CleanUp(CleanUp(s)) == CleanUp(s)
  {
    hide StaticRoutes, HostRoutes;
    NoRoutes();
  }

  /** After addresses were added for a host, those recorded for it are in the table, and its other old ones are not. */
  lemma {:induction false} HostIsReplaced(s: State, host: string, ips: seq<u32>, answers: seq<bool>)
    requires |ips| == |answers| && AddAll(s, ips, answers).1 != []
    ensures var t := AddHostTo(s, host, ips, answers);
      && host in t.hosts && (forall ip :: ip in t.hosts[host] ==> ip in ips)
      && (forall ip :: ip in t.hosts[host] ==> HostRoute(ip) in t.os)
      && (host in s.hosts ==> forall ip :: ip in s.hosts[host] && ip !in ips ==> HostRoute(ip) !in t.os)
  {
    hide OneBits, DeleteAll, AddAll;
    var (t, added) := AddAll(s, ips, answers);
    AddAllEffect(s, ips, answers);
    var former := if host in s.hosts then s.hosts[host] else [];
    DeleteAllEffect(t, former, ips);
    assert forall ip :: ip in added ==> HostRoute(ip) in AddressRoutes(added);
    assert forall ip :: ip in former && ip !in ips ==> HostRoute(ip) in Dropped(former, ips);
  }

  // ---- The converse ----

  /** How many static entries mention a row. */
  function Uses(statics: seq<RouteEntry>, r: Route): nat
    decreases |statics|
  {
    if statics == [] then 0
    else (if RouteOf(statics[0].dest, statics[0].mask) == r then 1 else 0) + Uses(statics[1..], r)
  }

  /** Some address of the list has a route already, or would be accepted. */
  ghost predicate AddsSome(s: State, ips: seq<u32>, answers: seq<bool>)
    requires |ips| == |answers|
  {
    exists i :: 0 <= i < |ips| && (HostRoute(ips[i]) in s.os || answers[i])
  }

  /** The rows that something else than the addresses of a host needs. */
  function OthersNeed(s: State, host: string): set<Route> {
    StaticRoutes(s.statics) + HostRoutes(s.hosts - {host})
  }

  function FormerAddresses(s: State, host: string): seq<u32> {
    if host in s.hosts then s.hosts[host] else []
  }

  /** Whether an operation deletes no row that something stays recorded for, told before it runs. */
  ghost predicate SparesOthers(s: State, op: Operation)
    requires Proper(op)
  {
    match op
    case AddRoute(_, _, _) => true
    case RemoveRoute(dest, mask) =>
      && RouteOf(dest, mask) !in HostRoutes(s.hosts)
      && Uses(s.statics, RouteOf(dest, mask)) <= (if RouteEntry(dest, mask) in s.statics then 1 else 0)
    case AddHost(host, ips, answers) =>
      AddsSome(s, ips, answers) ==> Dropped(FormerAddresses(s, host), ips) !! OthersNeed(s, host)
    case RemoveHost(host) => AddressRoutes(FormerAddresses(s, host)) !! OthersNeed(s, host)
    case Clean => true
  }

  /**
   * What is recorded need not be in the table, since removing a route, replacing the addresses of a host and removing a
   * host delete rows that others may share. If everything recorded was in the table, then after an operation this is so
   * exactly when the operation spares the others' rows.
   */
  lemma {:induction false} RecordedStaysInTable(s: State, op: Operation)
    requires Covered(s) <= s.os && Proper(op)
    ensures Covered(Do(s, op)) <= Do(s, op).os <==> SparesOthers(s, op)
  {
    hide HostRoute, RouteOf, StaticRoutes, HostRoutes, AddressRoutes, Dropped, AddAll, DeleteAll;
    hide AddRouteTo, RemoveRouteFrom, AddHostTo, RemoveHostFrom, Uses;
    match op {
      case AddRoute(dest, mask, accepted) => AddRouteKeepsRecord(s, dest, mask, accepted);
      case RemoveRoute(dest, mask) => RemoveRouteKeepsRecord(s, dest, mask);
      case AddHost(host, ips, answers) => AddHostKeepsRecord(s, host, ips, answers);
      case RemoveHost(host) => RemoveHostKeepsRecord(s, host);
      case Clean => NoRoutes();
    }
  }

  lemma {:induction false} AddRouteKeepsRecord(s: State, dest: u32, mask: u32, accepted: bool)
    requires Covered(s) <= s.os
    ensures Covered(AddRouteTo(s, dest, mask, accepted).0) <= AddRouteTo(s, dest, mask, accepted).0.os
  {
    hide OneBits, HostRoutes;
    var e := RouteEntry(dest, mask);
    var more := s.statics + [e];
    assert forall f :: f in more <==> f in s.statics || f == e;
    assert StaticRoutes(more) == StaticRoutes(s.statics) + {RouteOf(dest, mask)};
  }

  lemma {:induction false} UsesCount(statics: seq<RouteEntry>, r: Route)
    ensures Uses(statics, r) > 0 <==> r in StaticRoutes(statics)
    decreases |statics|
  {
    hide RouteOf;
    if statics != [] {
      UsesCount(statics[1..], r);
      assert statics == [statics[0]] + statics[1..];
    }
  }

  lemma {:induction false} EraseUses(statics: seq<RouteEntry>, e: RouteEntry)
    ensures Uses(EraseFirst(statics, e), RouteOf(e.dest, e.mask))
      == Uses(statics, RouteOf(e.dest, e.mask)) - if e in statics then 1 else 0
    decreases |statics|
  {
    hide RouteOf;
    if statics != [] && statics[0] != e {
      EraseUses(statics[1..], e);
    }
  }

  /** Erasing an entry drops no row but, at most, its own. */
  lemma {:induction false} EraseRoutes(statics: seq<RouteEntry>, e: RouteEntry)
    ensures StaticRoutes(EraseFirst(statics, e)) <= StaticRoutes(statics)
    ensures StaticRoutes(statics) <= StaticRoutes(EraseFirst(statics, e)) + {RouteOf(e.dest, e.mask)}
    decreases |statics|
  {
    hide RouteOf, EraseFirst;
    forall f | f in EraseFirst(statics, e)
      ensures f in statics
    {
      EraseOnlyRemoves(statics, e, f);
    }
    forall f | f in statics && f != e
      ensures f in EraseFirst(statics, e)
    {
      EraseKeeps(statics, e, f);
    }
  }

  lemma {:induction false} EraseOnlyRemoves(entries: seq<RouteEntry>, e: RouteEntry, f: RouteEntry)
    requires f in EraseFirst(entries, e)
    ensures f in entries
    decreases |entries|
  {
    if entries[0] != e && f != entries[0] {
      EraseOnlyRemoves(entries[1..], e, f);
    }
  }

  lemma {:induction false} RemoveRouteKeepsRecord(s: State, dest: u32, mask: u32)
    requires Covered(s) <= s.os
    ensures var t := RemoveRouteFrom(s, dest, mask).0;
      Covered(t) <= t.os <==> SparesOthers(s, RemoveRoute(dest, mask))
  {
    hide RouteOf, StaticRoutes, HostRoutes, EraseFirst, Uses;
    var e, r := RouteEntry(dest, mask), RouteOf(dest, mask);
    EraseRoutes(s.statics, e);
    EraseUses(s.statics, e);
    UsesCount(EraseFirst(s.statics, e), r);
    var t := RemoveRouteFrom(s, dest, mask).0;
    assert t.os == s.os - {r} && Covered(t) <= Covered(s);
  }

  lemma {:induction false} RemoveHostKeepsRecord(s: State, host: string)
    requires Covered(s) <= s.os
    ensures var t := RemoveHostFrom(s, host);
      Covered(t) <= t.os <==> SparesOthers(s, RemoveHost(host))
  {
    hide HostRoute, StaticRoutes, HostRoutes, DeleteAll, AddressRoutes, Dropped;
    if host in s.hosts {
      DeleteAllEffect(s, s.hosts[host], []);
      HostRoutesGrow(s.hosts, {host}, host);
      assert s.hosts - ({host} - {host}) == s.hosts;
    } else {
      NoAddresses();
    }
  }

  lemma {:induction false} AddsSomeExactly(s: State, ips: seq<u32>, answers: seq<bool>)
    requires |ips| == |answers|
    ensures AddAll(s, ips, answers).1 != [] <==> AddsSome(s, ips, answers)
    decreases |ips|
  {
    hide HostRoute;
    if ips != [] {
      var (t, ok) := AddEntry(s, ips[0], HOST_MASK, answers[0]);
      AddEntryEffect(s, ips[0], answers[0]);
      AddsSomeExactly(t, ips[1..], answers[1..]);
      if !ok {
        LaterOnes(s, ips, answers);
      }
    }
  }

  lemma {:induction false} LaterOnes(s: State, ips: seq<u32>, answers: seq<bool>)
    requires |ips| == |answers| > 0 && HostRoute(ips[0]) !in s.os && !answers[0]
    ensures AddsSome(s, ips, answers) <==> AddsSome(s, ips[1..], answers[1..])
  {
    hide HostRoute;
    if i :| 0 <= i < |ips| && (HostRoute(ips[i]) in s.os || answers[i]) {
      assert ips[1..][i - 1] == ips[i] && answers[1..][i - 1] == answers[i];
    }
    if i :| 0 <= i < |ips[1..]| && (HostRoute(ips[1..][i]) in s.os || answers[1..][i]) {
      assert ips[1..][i] == ips[i + 1] && answers[1..][i] == answers[i + 1];
    }
  }

  lemma {:induction false} AddHostKeepsRecord(s: State, host: string, ips: seq<u32>, answers: seq<bool>)
    requires Covered(s) <= s.os && |ips| == |answers|
    ensures var t := AddHostTo(s, host, ips, answers);
      Covered(t) <= t.os <==> SparesOthers(s, AddHost(host, ips, answers))
  {
    hide HostRoute, StaticRoutes, HostRoutes, DeleteAll, AddAll, AddressRoutes, Dropped, AddsSome;
    var (t, added) := AddAll(s, ips, answers);
    AddAllEffect(s, ips, answers);
    AddsSomeExactly(s, ips, answers);
    if added != [] {
      var former := FormerAddresses(s, host);
      var d := Dropped(former, ips);
      DeleteAllEffect(t, former, ips);
      NothingDropped(ips);
      assert t.os - {} == t.os && t.installed - {} == t.installed;
      var u := AddHostTo(s, host, ips, answers);
      assert u == State(t.os - d, t.installed - d, s.statics, s.hosts[host := added]);
      ReplacedRoutes(s.hosts, host, added);
      assert Covered(u) == OthersNeed(s, host) + AddressRoutes(added);
      RestIsCovered(s, host);
      AddedAreNotDropped(former, ips, added);
    }
  }

  lemma {:induction false} ReplacedRoutes(hosts: map<string, seq<u32>>, host: string, ips: seq<u32>)
    ensures HostRoutes(hosts[host := ips]) == HostRoutes(hosts - {host}) + AddressRoutes(ips)
  {
    hide HostRoute, HostRoutes, AddressRoutes;
    var more := hosts[host := ips];
    HostRoutesGrow(more, {host}, host);
    assert more - ({host} - {host}) == more && more - {host} == hosts - {host};
  }

  lemma {:induction false} RestIsCovered(s: State, host: string)
    ensures OthersNeed(s, host) <= Covered(s)
  {
    hide HostRoute, HostRoutes, StaticRoutes, AddressRoutes;
    if host in s.hosts {
      HostRoutesGrow(s.hosts, {host}, host);
      assert s.hosts - ({host} - {host}) == s.hosts;
    } else {
      assert s.hosts - {host} == s.hosts;
    }
  }

  /** Routes of different addresses differ, so what is added is not dropped. */
  lemma {:induction false} AddedAreNotDropped(former: seq<u32>, ips: seq<u32>, added: seq<u32>)
    requires forall ip :: ip in added ==> ip in ips
    ensures AddressRoutes(added) !! Dropped(former, ips)
  {
    hide OneBits;
  }

  /** Two hosts with one address, one of them removed. */
  lemma {:induction false} SharedAddressIsLost()
    ensures var ops := [AddHost("a", [1], [true]), AddHost("b", [1], [true]), RemoveHost("a")];
      var s := Run(Start({}), ops); "b" in s.hosts && s.hosts["b"] == [1] && s.os == {}
  {
    hide OneBits;
    var s0 := Start({});
    var r := HostRoute(1);
    var a, b, c := AddHost("a", [1], [true]), AddHost("b", [1], [true]), RemoveHost("a");
    OneAddress(s0, true);
    var s1 := Do(s0, a);
    assert s1 == State({r}, {r}, [], map["a" := [1]]);
    OneAddress(s1, true);
    var s2 := Do(s1, b);
    assert s2 == State({r}, {r}, [], map["a" := [1], "b" := [1]]);
    DeleteAllEffect(s2, [1], []);
    assert 1 in s2.hosts["a"] && r in AddressRoutes(s2.hosts["a"]);
    var s3 := Do(s2, c);
    assert s3.os == {};
    assert [a, b, c][1..] == [b, c] && [b, c][1..] == [c] && [c][1..] == [];
  }

  lemma {:induction false} OneAddress(s: State, answer: bool)
    ensures var (t, ok) := AddEntry(s, 1, HOST_MASK, answer); AddAll(s, [1], [answer]) == (t, if ok then [1] else [])
  {
    hide OneBits;
    var one: seq<u32>, none: seq<u32> := [1], [];
    assert none + none == none;
    assert one[1..] == [] && [answer][1..] == [] && one + [] == one;
    assert AddAll(AddEntry(s, 1, HOST_MASK, answer).0, [], []) == (AddEntry(s, 1, HOST_MASK, answer).0, []);
  }

  /** An entry recorded twice and removed once, and a host's only address replaced that another host has too. */
  lemma {:induction false} OtherRowsAreLost(e: RouteEntry)
    ensures var r := RouteOf(e.dest, e.mask);
      var s := State({r}, {r}, [e, e], map[]);
      var op := RemoveRoute(e.dest, e.mask);
      Covered(s) <= s.os && !(Covered(Do(s, op)) <= Do(s, op).os)
    ensures var s := State({HostRoute(1)}, {HostRoute(1)}, [], map["a" := [1], "b" := [1]]);
      var op := AddHost("a", [2], [true]);
      Covered(s) <= s.os && !(Covered(Do(s, op)) <= Do(s, op).os)
  {
    hide RouteOf, HostRoute, Do;
    var r := RouteOf(e.dest, e.mask);
    RecordedStaysInTable(State({r}, {r}, [e, e], map[]), RemoveRoute(e.dest, e.mask));
    var entries := [e, e];
    assert entries[1..] == [e];
    assert Uses([e], RouteOf(e.dest, e.mask)) == 1 + Uses([e][1..], RouteOf(e.dest, e.mask));
    var s := State({HostRoute(1)}, {HostRoute(1)}, [], map["a" := [1], "b" := [1]]);
    var ips: seq<u32> := [2];
    assert AddsSome(s, ips, [true]) by { assert [true][0]; }
    assert 1 in s.hosts["a"] && 1 !in ips && HostRoute(1) in Dropped(s.hosts["a"], ips);
    assert "b" in s.hosts - {"a"} && HostRoute(1) in HostRoutes(s.hosts - {"a"});
    RecordedStaysInTable(s, AddHost("a", [2], [true]));
  }
}
