/** What is left in the system's route table after a run and its clean-up, told from the operations alone. */
module RouteRestore {
  import opened RouteTable
  import opened RouteCoverage

  /** The rows an operation is given to add or remove. */
  function Named(op: Operation): set<Route> {
    match op
    case AddRoute(dest, mask, _) => {RouteOf(dest, mask)}
    case RemoveRoute(dest, mask) => {RouteOf(dest, mask)}
    case AddHost(_, ips, _) => AddressRoutes(ips)
    case RemoveHost(_) => {}
    case Clean => {}
  }

  function NamedBy(ops: seq<Operation>): set<Route>
    decreases |ops|
  {
    if ops == [] then {} else Named(ops[0]) + NamedBy(ops[1..])
  }

  /** The rows that are in the table and that the object would not delete. */
  function Untouched(s: State): set<Route> {
    s.os - Covered(s)
  }

  lemma {:induction false} AddRouteTouches(s: State, dest: u32, mask: u32, accepted: bool)
    ensures Untouched(AddRouteTo(s, dest, mask, accepted).0) == Untouched(s) - {RouteOf(dest, mask)}
  {
    hide OneBits, HostRoutes;
    var e := RouteEntry(dest, mask);
    var more := s.statics + [e];
    assert forall f :: f in more <==> f in s.statics || f == e;
    assert e in more;
    assert StaticRoutes(more) == StaticRoutes(s.statics) + {RouteOf(dest, mask)};
  }

  lemma {:induction false} RemoveRouteTouches(s: State, dest: u32, mask: u32)
    ensures Untouched(RemoveRouteFrom(s, dest, mask).0) == Untouched(s) - {RouteOf(dest, mask)}
  {
    hide RouteOf, StaticRoutes, HostRoutes, EraseFirst;
    EraseRoutes(s.statics, RouteEntry(dest, mask));
  }

  lemma {:induction false} RemoveHostTouches(s: State, host: string)
    ensures Untouched(RemoveHostFrom(s, host)) == Untouched(s)
  {
    hide HostRoute, StaticRoutes, HostRoutes, DeleteAll, AddressRoutes, Dropped;
    if host in s.hosts {
      DeleteAllEffect(s, s.hosts[host], []);
      HostRoutesGrow(s.hosts, {host}, host);
      assert s.hosts - ({host} - {host}) == s.hosts;
    }
  }

  lemma {:induction false} AddHostTouches(s: State, host: string, ips: seq<u32>, answers: seq<bool>)
    requires |ips| == |answers|
    ensures Untouched(AddHostTo(s, host, ips, answers)) == Untouched(s) - AddressRoutes(ips)
  {
    hide HostRoute, StaticRoutes, HostRoutes, DeleteAll, AddAll, AddressRoutes, Dropped;
    var (t, added) := AddAll(s, ips, answers);
    AddAllEffect(s, ips, answers);
    PresentAreAdded(s, ips, added);
    if added == [] {
      NoAddresses();
      assert t.os == s.os;
    } else {
      var former := FormerAddresses(s, host);
      var d := Dropped(former, ips);
      DeleteAllEffect(t, former, ips);
      NothingDropped(ips);
      assert t.os - {} == t.os && t.installed - {} == t.installed;
      var u := AddHostTo(s, host, ips, answers);
      assert u == State(t.os - d, t.installed - d, s.statics, s.hosts[host := added]);
      ReplacedRoutes(s.hosts, host, added);
      FormerRoutes(s.hosts, host);
      DroppedAreFormer(former, ips);
    }
  }

  /** Of the rows of these addresses those in the table are added, and only rows of these addresses. */
  lemma {:induction false} PresentAreAdded(s: State, ips: seq<u32>, added: seq<u32>)
    requires forall ip :: ip in added ==> ip in ips
    requires forall ip :: ip in ips && HostRoute(ip) in s.os ==> ip in added
    ensures s.os * AddressRoutes(ips) <= AddressRoutes(added) <= AddressRoutes(ips)
  {
    hide HostRoute;
  }

  lemma {:induction false} FormerRoutes(hosts: map<string, seq<u32>>, host: string)
    ensures HostRoutes(hosts) == HostRoutes(hosts - {host}) + AddressRoutes(if host in hosts then hosts[host] else [])
  {
    hide HostRoute, HostRoutes, AddressRoutes;
    NoAddresses();
    if host in hosts {
      HostRoutesGrow(hosts, {host}, host);
      assert hosts - ({host} - {host}) == hosts;
    } else {
      assert hosts - {host} == hosts;
    }
  }

  lemma {:induction false} DroppedAreFormer(former: seq<u32>, ips: seq<u32>)
    ensures AddressRoutes(former) - AddressRoutes(ips) <= Dropped(former, ips) <= AddressRoutes(former)
    ensures Dropped(former, ips) !! AddressRoutes(ips)
  {
    hide OneBits;
  }

  lemma {:induction false} CleanTouches(s: State)
    ensures Untouched(CleanUp(s)) == Untouched(s) == CleanUp(s).os
  {
    hide StaticRoutes, HostRoutes;
    NoRoutes();
  }

  /** An operation takes exactly the rows it names out of those the object would leave alone, for good. */
  lemma {:induction false} DoTouches(s: State, op: Operation)
    requires Proper(op)
    ensures Untouched(Do(s, op)) == Untouched(s) - Named(op)
  {
    hide Untouched, AddRouteTo, RemoveRouteFrom, AddHostTo, RemoveHostFrom, CleanUp, RouteOf, AddressRoutes;
    match op {
      case AddRoute(dest, mask, accepted) => AddRouteTouches(s, dest, mask, accepted);
      case RemoveRoute(dest, mask) => RemoveRouteTouches(s, dest, mask);
      case AddHost(host, ips, answers) => AddHostTouches(s, host, ips, answers);
      case RemoveHost(host) => RemoveHostTouches(s, host);
      case Clean => CleanTouches(s);
    }
  }

  lemma {:induction false} RunTouches(s: State, ops: seq<Operation>)
    requires forall i :: 0 <= i < |ops| ==> Proper(ops[i])
    ensures Untouched(Run(s, ops)) == Untouched(s) - NamedBy(ops)
    decreases |ops|
  {
    hide Untouched, Do, Named;
    if ops != [] {
      DoTouches(s, ops[0]);
      RunTouches(Do(s, ops[0]), ops[1..]);
    }
  }

  /**
   * Cleaning up after any run, with any answers of the system, leaves of the rows that were there before exactly those
   * that no operation named to add or remove, and nothing else. So the table is what it was if and only if no operation
   * named a row that was in it: adding one that exists records it, and cleaning up deletes it.
   */
  lemma {:induction false} CleanupRestoresExactly(system: set<Route>, ops: seq<Operation>)
    requires forall i :: 0 <= i < |ops| ==> Proper(ops[i])
    ensures CleanUp(Run(Start(system), ops)).os == system - NamedBy(ops)
    ensures CleanUp(Run(Start(system), ops)).os == system <==> NamedBy(ops) !! system
  {
    hide Run, NamedBy, StaticRoutes, HostRoutes;
    NoRoutes();
    RunTouches(Start(system), ops);
    CleanTouches(Run(Start(system), ops));
    assert Untouched(Start(system)) == system;
  }
}
