/** The routes a tunnel installs in the system's route table, and the books it keeps to remove them again. */
module RouteTable {
  import opened Words

  type u32 = x: int | 0 <= x < 0x1_0000_0000

  const HOST_MASK: u32 := 0xFFFF_FFFF

  datatype RouteEntry = RouteEntry(dest: u32, mask: u32)

  /** A row of the system table on the tunnel's interface. */
  datatype Route = Route(dest: u32, prefix: nat)

  /**
   * The system's rows for the interface, those of them that this object created, and the object's two lists. Which
   * rows it created is bookkeeping of the model only.
   */
  datatype State = State(os: set<Route>, installed: set<Route>, statics: seq<RouteEntry>, hosts: map<string, seq<u32>>)

  // ---- Prefix lengths ----

  /** Number of one bits. */
  function OneBits(mask: nat): nat
    decreases mask
  {
    if mask == 0 then 0 else mask % 2 + OneBits(mask / 2)
  }

  method SubnetMaskToPrefixLength(mask: u32) returns (length: nat)
    ensures length == OneBits(mask)
  {
    length := 0;
    var rest: nat := mask;
    while rest != 0
      invariant length + OneBits(rest) == OneBits(mask)
      decreases rest
    {
      length := length + rest % 2;
      rest := rest / 2;
    }
  }

  /** For a mask of k ones followed by zeroes it is the prefix length. */
  lemma {:induction false} PrefixOfContiguousMask(k: nat)
    requires k <= 32
    ensures Pow2(32 - k) <= Pow2(32) && OneBits(Pow2(32) - Pow2(32 - k)) == k
  {
    Pow2Monotone(32 - k, 32);
    Pow2Split(32 - k, k);
    OnesThenZeroes(k, 32 - k);
  }

  lemma {:induction false} OnesThenZeroes(k: nat, z: nat)
    ensures Pow2(k + z) >= Pow2(z) && OneBits(Pow2(k + z) - Pow2(z)) == k
    decreases k + z
  {
    if z > 0 {
      OnesThenZeroes(k, z - 1);
      assert Pow2(k + z) - Pow2(z) == 2 * (Pow2(k + z - 1) - Pow2(z - 1));
    } else if k > 0 {
      OnesThenZeroes(k - 1, 0);
      assert (Pow2(k) - 1) / 2 == Pow2(k - 1) - 1 && (Pow2(k) - 1) % 2 == 1;
    }
  }

  function RouteOf(dest: u32, mask: u32): Route {
    Route(dest, OneBits(mask))
  }

  function HostRoute(ip: u32): Route {
    RouteOf(ip, HOST_MASK)
  }

  // ---- The operations as functions ----

  /** Creating a row: one that exists is reported as such, another may be refused. */
  function AddEntry(s: State, dest: u32, mask: u32, accepted: bool): (State, bool) {
    var r := RouteOf(dest, mask);
    if r in s.os then (s, true)
    else if accepted then (s.(os := s.os + {r}, installed := s.installed + {r}), true)
    else (s, false)
  }

  /** Deleting a row succeeds, or there is none. */
  function DeleteEntry(s: State, dest: u32, mask: u32): State {
    s.(os := s.os - {RouteOf(dest, mask)}, installed := s.installed - {RouteOf(dest, mask)})
  }

  function AddRouteTo(s: State, dest: u32, mask: u32, accepted: bool): (State, bool) {
    var (t, ok) := AddEntry(s, dest, mask, accepted);
    if ok then (t.(statics := t.statics + [RouteEntry(dest, mask)]), true) else (t, false)
  }

  /** The list without the first entry equal to e. */
  function EraseFirst(entries: seq<RouteEntry>, e: RouteEntry): seq<RouteEntry> {
    if entries == [] then [] else if entries[0] == e then entries[1..] else [entries[0]] + EraseFirst(entries[1..], e)
  }

  function RemoveRouteFrom(s: State, dest: u32, mask: u32): (State, bool) {
    var e := RouteEntry(dest, mask);
    (DeleteEntry(s, dest, mask).(statics := EraseFirst(s.statics, e)), e in s.statics)
  }

  /** Adds a route for each address; the answers say which rows the system would accept if they are new. */
  function AddAll(s: State, ips: seq<u32>, answers: seq<bool>): (State, seq<u32>)
    requires |ips| == |answers|
    decreases |ips|
  {
    if ips == [] then (s, [])
    else
      var (t, ok) := AddEntry(s, ips[0], HOST_MASK, answers[0]);
      var (u, added) := AddAll(t, ips[1..], answers[1..]);
      (u, (if ok then [ips[0]] else []) + added)
  }

  /** Deletes the routes of those addresses that are not to be kept. */
  function DeleteAll(s: State, ips: seq<u32>, keep: seq<u32>): State
    decreases |ips|
  {
    if ips == [] then s
    else DeleteAll(if ips[0] in keep then s else DeleteEntry(s, ips[0], HOST_MASK), ips[1..], keep)
  }

  function AddHostTo(s: State, host: string, ips: seq<u32>, answers: seq<bool>): State
    requires |ips| == |answers|
  {
    var (t, added) := AddAll(s, ips, answers);
    if added == [] then t
    else
      var u := if host in t.hosts then DeleteAll(t, t.hosts[host], ips) else t;
      u.(hosts := u.hosts[host := added])
  }

  function RemoveHostFrom(s: State, host: string): State {
    if host in s.hosts then
      var t := DeleteAll(s, s.hosts[host], []);
      t.(hosts := t.hosts - {host})
    else s
  }

  /** Every row the two lists mention. */
  function Covered(s: State): set<Route> {
    StaticRoutes(s.statics) + HostRoutes(s.hosts)
  }

  function StaticRoutes(statics: seq<RouteEntry>): set<Route> {
    set e | e in statics :: RouteOf(e.dest, e.mask)
  }

  function AddressRoutes(ips: seq<u32>): set<Route> {
    set ip | ip in ips :: HostRoute(ip)
  }

  function HostRoutes(hosts: map<string, seq<u32>>): set<Route> {
    set h, ip | h in hosts && ip in hosts[h] :: HostRoute(ip)
  }

  function CleanUp(s: State): State {
    State(s.os - Covered(s), s.installed - Covered(s), [], map[])
  }

  // ---- The object ----

  class RouteTable {
    var os: set<Route>
    ghost var installed: set<Route>
    var staticRoutes: seq<RouteEntry>
    var hostRoutes: map<string, seq<u32>>

    ghost function Value(): State
      reads this
    {
      State(os, installed, staticRoutes, hostRoutes)
    }

    constructor (system: set<Route>)
      ensures Value() == State(system, {}, [], map[])
    {
      os, installed, staticRoutes, hostRoutes := system, {}, [], map[];
    }

    method AddRouteEntry(dest: u32, mask: u32, accepted: bool) returns (ok: bool)
      modifies this
      ensures (Value(), ok) == AddEntry(old(Value()), dest, mask, accepted)
    {
      hide OneBits;
      var length := SubnetMaskToPrefixLength(mask);
      var row := Route(dest, length);
      if row in os {
        return true;
      }
      if !accepted {
        return false;
      }
      os := os + {row};
      installed := installed + {row};
      ok := true;
    }

    method DeleteRouteEntry(dest: u32, mask: u32)
      modifies this
      ensures Value() == DeleteEntry(old(Value()), dest, mask)
    {
      hide OneBits;
      var length := SubnetMaskToPrefixLength(mask);
      var row := Route(dest, length);
      os := os - {row};
      installed := installed - {row};
    }

    method AddRoute(dest: u32, mask: u32, accepted: bool) returns (ok: bool)
      modifies this
      ensures (Value(), ok) == AddRouteTo(old(Value()), dest, mask, accepted)
      ensures var row := Route(dest, OneBits(mask));
        && (ok <==> row in old(os) || accepted)
        && (ok ==> os == old(os) + {row} && staticRoutes == old(staticRoutes) + [RouteEntry(dest, mask)])
        && (ok ==> installed == old(installed) + (if row in old(os) then {} else {row}))
        && (!ok ==> Value() == old(Value()))
    {
      hide OneBits;
      ok := AddRouteEntry(dest, mask, accepted);
      if ok {
        staticRoutes := staticRoutes + [RouteEntry(dest, mask)];
      }
    }

    method RemoveRoute(dest: u32, mask: u32) returns (ok: bool)
      modifies this
      ensures (Value(), ok) == RemoveRouteFrom(old(Value()), dest, mask)
      ensures os == old(os) - {Route(dest, OneBits(mask))} && (ok <==> RouteEntry(dest, mask) in old(staticRoutes))
    {
      hide OneBits, EraseFirst;
      DeleteRouteEntry(dest, mask);
      var e := RouteEntry(dest, mask);
      var i := 0;
      while i < |staticRoutes|
        invariant 0 <= i <= |staticRoutes|
        invariant Value() == DeleteEntry(old(Value()), dest, mask)
        invariant e !in staticRoutes[..i]
      {
        if staticRoutes[i] == e {
          EraseAt(staticRoutes, e, i);
          staticRoutes := staticRoutes[..i] + staticRoutes[i + 1..];
          return true;
        }
        i := i + 1;
      }
      EraseNone(staticRoutes, e);
      ok := false;
    }

    /** The first loop of AddHostRoutes: which addresses have a route now. */
    method AddAddresses(ips: seq<u32>, answers: seq<bool>) returns (added: seq<u32>)
      requires |ips| == |answers|
      modifies this
      ensures (Value(), added) == AddAll(old(Value()), ips, answers)
    {
      hide OneBits, AddEntry;
      added := [];
      var i := 0;
      assert ips[0..] == ips && answers[0..] == answers;
      ghost var all := AddAll(Value(), ips, answers);
      assert added + all.1 == all.1;
      while i < |ips|
        invariant 0 <= i <= |ips|
        invariant var rest := AddAll(Value(), ips[i..], answers[i..]); all == (rest.0, added + rest.1)
      {
        assert ips[i..][1..] == ips[i + 1..] && answers[i..][1..] == answers[i + 1..];
        ghost var before := added;
        var ok := AddRouteEntry(ips[i], HOST_MASK, answers[i]);
        if ok {
          added := added + [ips[i]];
        }
        i := i + 1;
        ghost var rest := AddAll(Value(), ips[i..], answers[i..]).1;
        assert added + rest == before + ((if ok then [ips[i - 1]] else []) + rest);
      }
      assert added + [] == added;
    }

    /** The loops that delete the routes of a list of addresses, but for those to keep. */
    method DeleteAddresses(ips: seq<u32>, keep: seq<u32>)
      modifies this
      ensures Value() == DeleteAll(old(Value()), ips, keep)
    {
      hide OneBits, DeleteEntry;
      var i := 0;
      assert ips[0..] == ips;
      while i < |ips|
        invariant 0 <= i <= |ips|
        invariant DeleteAll(Value(), ips[i..], keep) == DeleteAll(old(Value()), ips, keep)
      {
        assert ips[i..][1..] == ips[i + 1..];
        if ips[i] !in keep {
          DeleteRouteEntry(ips[i], HOST_MASK);
        }
        i := i + 1;
      }
    }

    method AddHostRoutes(host: string, ips: seq<u32>, answers: seq<bool>)
      requires |ips| == |answers|
      modifies this
      ensures Value() == AddHostTo(old(Value()), host, ips, answers)
    {
      hide AddAll, DeleteAll;
      var added := AddAddresses(ips, answers);
      if added != [] {
        if host in hostRoutes {
          DeleteAddresses(hostRoutes[host], ips);
        }
        hostRoutes := hostRoutes[host := added];
      }
    }

    method RemoveHostRoutes(host: string)
      modifies this
      ensures Value() == RemoveHostFrom(old(Value()), host)
    {
      hide DeleteAll;
      if host in hostRoutes {
        DeleteAddresses(hostRoutes[host], []);
        hostRoutes := hostRoutes - {host};
      }
    }

    method DeleteStatics()
      modifies this
      ensures var gone := StaticRoutes(old(staticRoutes));
        Value() == old(Value()).(os := old(os) - gone, installed := old(installed) - gone)
    {
      hide OneBits, StaticRoutes;
      var i := 0;
      NoRoutes();
      while i < |staticRoutes|
        invariant 0 <= i <= |staticRoutes|
        invariant var gone := StaticRoutes(staticRoutes[..i]);
          Value() == old(Value()).(os := old(os) - gone, installed := old(installed) - gone)
      {
        StaticRoutesGrow(staticRoutes, i);
        DeleteRouteEntry(staticRoutes[i].dest, staticRoutes[i].mask);
        i := i + 1;
      }
      assert staticRoutes[..i] == staticRoutes;
    }

    /** The hosts come in whatever order the map has. */
    method DeleteHosts()
      modifies this
      ensures var gone := HostRoutes(old(hostRoutes));
        Value() == old(Value()).(os := old(os) - gone, installed := old(installed) - gone)
    {
      hide OneBits, DeleteAll, HostRoutes, AddressRoutes;
      var rest := hostRoutes.Keys;
      assert hostRoutes - rest == map[] && hostRoutes - {} == hostRoutes;
      NoRoutes();
      while rest != {}
        invariant rest <= hostRoutes.Keys
        invariant var gone := HostRoutes(hostRoutes - rest);
          Value() == old(Value()).(os := old(os) - gone, installed := old(installed) - gone)
        decreases |rest|
      {
        var host :| host in rest;
        HostRoutesGrow(hostRoutes, rest, host);
        DeleteAllEffect(Value(), hostRoutes[host], []);
        DeleteAddresses(hostRoutes[host], []);
        rest := rest - {host};
      }
    }

    /** Deletes every row the lists mention and empties the lists. */
    method CleanupAll()
      modifies this
      ensures Value() == CleanUp(old(Value()))
    {
      hide StaticRoutes, HostRoutes;
      DeleteStatics();
      staticRoutes := [];
      DeleteHosts();
      hostRoutes := map[];
    }
  }

  lemma {:induction false} NoRoutes()
    ensures StaticRoutes([]) == {} && HostRoutes(map[]) == {}
  {
  }

  lemma {:induction false} HostRoutesGrow(hosts: map<string, seq<u32>>, rest: set<string>, host: string)
    requires host in rest && rest <= hosts.Keys
    ensures HostRoutes(hosts - (rest - {host})) == HostRoutes(hosts - rest) + AddressRoutes(hosts[host])
  {
    hide HostRoute, HostRoutes, AddressRoutes;
    var small, big := hosts - rest, hosts - (rest - {host});
    forall r
      ensures r in HostRoutes(big) <==> r in HostRoutes(small) || r in AddressRoutes(hosts[host])
    {
      InHostRoutes(r, big);
      InHostRoutes(r, small);
      InAddressRoutes(r, hosts[host]);
      assert forall h, ip :: Lists(big, h, ip) <==> Lists(small, h, ip) || (h == host && ip in hosts[host]);
      assert forall ip :: ip in hosts[host] ==> Lists(big, host, ip);
    }
  }

  predicate Lists(hosts: map<string, seq<u32>>, h: string, ip: u32) {
    h in hosts && ip in hosts[h]
  }

  lemma {:induction false} InHostRoutes(r: Route, hosts: map<string, seq<u32>>)
    ensures r in HostRoutes(hosts) <==> exists h, ip :: Lists(hosts, h, ip) && r == HostRoute(ip)
  {
    hide HostRoute;
    if r in HostRoutes(hosts) {
      var h, ip :| h in hosts && ip in hosts[h] && r == HostRoute(ip);
      assert Lists(hosts, h, ip);
    }
  }

  lemma {:induction false} InAddressRoutes(r: Route, ips: seq<u32>)
    ensures r in AddressRoutes(ips) <==> exists ip :: ip in ips && r == HostRoute(ip)
  {
    hide HostRoute;
  }

  /** Addresses of ips that are not kept. */
  function Dropped(ips: seq<u32>, keep: seq<u32>): set<Route> {
    set ip | ip in ips && ip !in keep :: HostRoute(ip)
  }

  lemma {:induction false} DeleteAllEffect(s: State, ips: seq<u32>, keep: seq<u32>)
    ensures DeleteAll(s, ips, keep)
         == s.(os := s.os - Dropped(ips, keep), installed := s.installed - Dropped(ips, keep))
    ensures keep == [] ==> Dropped(ips, keep) == AddressRoutes(ips)
    decreases |ips|
  {
    hide OneBits;
    if ips != [] {
      var t := if ips[0] in keep then s else DeleteEntry(s, ips[0], HOST_MASK);
      DeleteAllEffect(t, ips[1..], keep);
      assert ips == [ips[0]] + ips[1..];
      DroppedStep(ips, keep);
    }
  }

  lemma {:induction false} DroppedStep(ips: seq<u32>, keep: seq<u32>)
    requires ips != []
    ensures Dropped(ips, keep) == (if ips[0] in keep then {} else {HostRoute(ips[0])}) + Dropped(ips[1..], keep)
  {
    hide OneBits;
    assert ips == [ips[0]] + ips[1..];
  }

  lemma {:induction false} EraseAt(entries: seq<RouteEntry>, e: RouteEntry, i: nat)
    requires i < |entries| && e !in entries[..i] && entries[i] == e
    ensures EraseFirst(entries, e) == entries[..i] + entries[i + 1..]
    ensures e in entries
    decreases i
  {
    if i > 0 {
      assert entries[0] in entries[..i];
      assert entries[1..][..i - 1] == entries[1..i];
      EraseAt(entries[1..], e, i - 1);
    }
  }

  lemma {:induction false} EraseNone(entries: seq<RouteEntry>, e: RouteEntry)
    requires e !in entries[..|entries|]
    ensures EraseFirst(entries, e) == entries && e !in entries
    decreases |entries|
  {
    assert entries[..|entries|] == entries;
    if entries != [] {
      assert entries[1..][..|entries| - 1] == entries[1..];
      EraseNone(entries[1..], e);
    }
  }

  lemma {:induction false} StaticRoutesGrow(statics: seq<RouteEntry>, i: nat)
    requires i < |statics|
    ensures StaticRoutes(statics[..i + 1]) == StaticRoutes(statics[..i]) + {RouteOf(statics[i].dest, statics[i].mask)}
  {
    hide OneBits;
    assert statics[..i + 1] == statics[..i] + [statics[i]];
  }
}
