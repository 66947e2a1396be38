/** What each operation does to table and books, in terms of rows, entries and the answers of the system alone. */
module RouteEffects {
  import opened Words
  import opened RouteTable
  import opened RouteCoverage

  // ---- The prefix length of any mask ----

  predicate Bit(mask: nat, i: nat) {
    mask / Pow2(i) % 2 == 1
  }

  function Bits(mask: nat, width: nat): set<nat> {
    set i | 0 <= i < width && Bit(mask, i)
  }

  /** The loop over the mask counts the bits that are set, wherever they are. */
  lemma {:induction false} PrefixLengthCountsBits(mask: nat, width: nat)
    requires mask < Pow2(width)
    ensures OneBits(mask) == |Bits(mask, width)|
    decreases width
  {
    if width == 0 {
      assert mask == 0 && Bits(mask, 0) == {};
    } else {
      PrefixLengthCountsBits(mask / 2, width - 1);
      BitsShift(mask, width);
      Shifted(Bits(mask / 2, width - 1));
      assert OneBits(mask) == mask % 2 + OneBits(mask / 2);
    }
  }

  function Shift(s: set<nat>): set<nat> {
    set i | i in s :: i + 1
  }

  lemma {:induction false} InShift(s: set<nat>, j: nat)
    ensures j in Shift(s) <==> j > 0 && j - 1 in s
  {
    if j > 0 && j - 1 in s {
      assert (j - 1) + 1 in Shift(s);
    }
  }

  lemma {:induction false} Shifted(s: set<nat>)
    ensures |Shift(s)| == |s| && 0 !in Shift(s)
    decreases |s|
  {
    if s != {} {
      var i :| i in s;
      Shifted(s - {i});
      forall j: nat
        ensures j in Shift(s) <==> j in Shift(s - {i}) || j == i + 1
      {
        InShift(s, j);
        InShift(s - {i}, j);
      }
      InShift(s - {i}, i + 1);
      assert Shift(s) == Shift(s - {i}) + {i + 1};
    } else {
      assert Shift(s) == {};
    }
  }

  lemma {:induction false} BitsShift(mask: nat, width: nat)
    requires width > 0
    ensures Bits(mask, width) == Shift(Bits(mask / 2, width - 1)) + if mask % 2 == 1 then {0} else {}
  {
    forall i: nat | i < width
      ensures Bit(mask, i) <==> if i == 0 then mask % 2 == 1 else Bit(mask / 2, i - 1)
    {
      if i == 0 {
        assert Pow2(0) == 1;
      } else {
        HalfDivides(mask, Pow2(i - 1));
      }
    }
    forall i: nat
      ensures i in Bits(mask, width) <==> i in Shift(Bits(mask / 2, width - 1)) || (i == 0 && mask % 2 == 1)
    {
      if 0 < i < width {
        assert i in Shift(Bits(mask / 2, width - 1)) <==> i - 1 in Bits(mask / 2, width - 1);
      }
    }
  }

  lemma {:induction false} HalfDivides(mask: nat, p: nat)
    requires p > 0
    ensures mask / (2 * p) == mask / 2 / p
  {
    var q, r := mask / 2 / p, mask / 2 % p;
    assert mask / 2 == p * q + r;
    assert mask == (2 * p) * q + (2 * r + mask % 2);
    ModUnique(mask, 2 * p, q, 2 * r + mask % 2);
  }

  // ---- Static routes ----

  /**
   * A route is added exactly if its row is there already or the system accepts it. Then the row is in the table and the
   * entry last in the list; a row counts as created only if it was not there. Otherwise nothing changes.
   */
  lemma {:induction false} AddRouteEffect(s: State, dest: u32, mask: u32, accepted: bool)
    ensures var (t, ok) := AddRouteTo(s, dest, mask, accepted);
      var row := Route(dest, OneBits(mask));
      && (ok <==> row in s.os || accepted)
      && (ok ==> t.os == s.os + {row} && t.statics == s.statics + [RouteEntry(dest, mask)])
      && (ok ==> t.installed == s.installed + (if row in s.os then {} else {row}) && t.hosts == s.hosts)
      && (!ok ==> t == s)
  {
    hide OneBits;
  }

  /** Removing a route deletes its row, listed or not, and erases the first matching entry, telling if there is one. */
  lemma {:induction false} RemoveRouteEffect(s: State, dest: u32, mask: u32)
    ensures var (t, ok) := RemoveRouteFrom(s, dest, mask);
      var row, e := Route(dest, OneBits(mask)), RouteEntry(dest, mask);
      && t.os == s.os - {row} && t.installed == s.installed - {row} && t.hosts == s.hosts
      && (ok <==> e in s.statics)
      && (!ok ==> t.statics == s.statics)
      && (ok ==> exists i :: FirstAt(s.statics, e, i) && t.statics == s.statics[..i] + s.statics[i + 1..])
  {
    hide OneBits;
    var e := RouteEntry(dest, mask);
    if e in s.statics {
      var i := ErasesFirst(s.statics, e);
    } else {
      ErasesNone(s.statics, e);
    }
  }

  predicate FirstAt(entries: seq<RouteEntry>, e: RouteEntry, i: int) {
    0 <= i < |entries| && entries[i] == e && e !in entries[..i]
  }

  lemma {:induction false} ErasesFirst(entries: seq<RouteEntry>, e: RouteEntry) returns (i: nat)
    requires e in entries
    ensures FirstAt(entries, e, i) && EraseFirst(entries, e) == entries[..i] + entries[i + 1..]
    decreases |entries|
  {
    if entries[0] == e {
      i := 0;
    } else {
      var j := ErasesFirst(entries[1..], e);
      i := j + 1;
      assert entries[..i] == [entries[0]] + entries[1..][..j];
      assert entries[i + 1..] == entries[1..][j + 1..];
    }
  }

  lemma {:induction false} ErasesNone(entries: seq<RouteEntry>, e: RouteEntry)
    requires e !in entries
    ensures EraseFirst(entries, e) == entries
    decreases |entries|
  {
    if entries != [] {
      ErasesNone(entries[1..], e);
    }
  }

  // ---- Routes of hosts ----

  /** An address gets its route if the row is there already, or the system accepts it at some place of the list. */
  ghost predicate Gets(os: set<Route>, ips: seq<u32>, answers: seq<bool>, ip: u32)
    requires |ips| == |answers|
  {
    exists i :: 0 <= i < |ips| && ips[i] == ip && (HostRoute(ip) in os || answers[i])
  }

  lemma {:induction false} GetsStep(os: set<Route>, ips: seq<u32>, answers: seq<bool>, ip: u32)
    requires |ips| == |answers| > 0
    ensures Gets(os, ips, answers, ip) <==>
              (ips[0] == ip && (HostRoute(ip) in os || answers[0])) || Gets(os, ips[1..], answers[1..], ip)
  {
    hide HostRoute;
    if i :| 0 <= i < |ips| && ips[i] == ip && (HostRoute(ip) in os || answers[i]) {
      assert i > 0 ==> ips[1..][i - 1] == ip && answers[1..][i - 1] == answers[i];
    }
    if i :| 0 <= i < |ips[1..]| && ips[1..][i] == ip && (HostRoute(ip) in os || answers[1..][i]) {
      assert ips[i + 1] == ip && answers[i + 1] == answers[1..][i];
    }
  }

  lemma {:induction false} GetsMore(os: set<Route>, first: u32, ips: seq<u32>, answers: seq<bool>, ip: u32)
    requires |ips| == |answers|
    ensures Gets(os + {HostRoute(first)}, ips, answers, ip) <==>
              Gets(os, ips, answers, ip) || (ip == first && ip in ips)
  {
    hide OneBits;
    if ip == first && ip in ips {
      var i :| 0 <= i < |ips| && ips[i] == ip;
      assert HostRoute(ip) in os + {HostRoute(first)};
    }
  }

  /** The addresses added are those that get their route, and the table grows by their rows. */
  lemma {:induction false} AddAllExactly(s: State, ips: seq<u32>, answers: seq<bool>)
    requires |ips| == |answers|
    ensures var (t, added) := AddAll(s, ips, answers);
      && t.os == s.os + AddressRoutes(added) && t.statics == s.statics && t.hosts == s.hosts
      && forall ip :: ip in added <==> Gets(s.os, ips, answers, ip)
    decreases |ips|
  {
    hide HostRoute;
    AddAllEffect(s, ips, answers);
    if ips != [] {
      var (t, ok) := AddEntry(s, ips[0], HOST_MASK, answers[0]);
      AddEntryAnswer(s, ips[0], answers[0]);
      AddAllExactly(t, ips[1..], answers[1..]);
      var rest := AddAll(t, ips[1..], answers[1..]).1;
      var added := (if ok then [ips[0]] else []) + rest;
      forall ip
        ensures ip in added <==> Gets(s.os, ips, answers, ip)
      {
        GetsStep(s.os, ips, answers, ip);
        if ok {
          GetsMore(s.os, ips[0], ips[1..], answers[1..], ip);
        }
      }
    }
  }

  lemma {:induction false} AddEntryAnswer(s: State, ip: u32, accepted: bool)
    ensures var (t, ok) := AddEntry(s, ip, HOST_MASK, accepted);
      && (ok <==> HostRoute(ip) in s.os || accepted)
      && t.os == s.os + if ok then {HostRoute(ip)} else {}
  {
    hide OneBits;
  }

  /**
   * Adding addresses for a host: the rows of those that get their route are in the table. If there is any, they become
   * the host's record, and the rows of its former addresses that are not given again leave the table.
   */
  lemma {:induction false} AddHostEffect(s: State, host: string, ips: seq<u32>, answers: seq<bool>)
    requires |ips| == |answers|
    ensures var t := AddHostTo(s, host, ips, answers);
      if exists ip :: Gets(s.os, ips, answers, ip) then
        && host in t.hosts && (forall ip :: ip in t.hosts[host] <==> Gets(s.os, ips, answers, ip))
        && t.os == s.os + AddressRoutes(t.hosts[host]) - Dropped(FormerAddresses(s, host), ips)
        && t.hosts - {host} == s.hosts - {host} && t.statics == s.statics
      else t == s
  {
    hide HostRoute, AddAll, DeleteAll, Dropped, AddressRoutes, Gets;
    var (t, added) := AddAll(s, ips, answers);
    AddAllExactly(s, ips, answers);
    AddAllEffect(s, ips, answers);
    if added == [] {
      NothingAdded(s, ips, answers);
      assert forall ip :: !(ip in added);
    } else {
      assert added[0] in added;
      DeleteAllEffect(t, FormerAddresses(s, host), ips);
      NothingDropped(ips);
      assert t.os - {} == t.os;
    }
  }

  lemma {:induction false} NothingAdded(s: State, ips: seq<u32>, answers: seq<bool>)
    requires |ips| == |answers| && AddAll(s, ips, answers).1 == []
    ensures AddAll(s, ips, answers).0 == s
    decreases |ips|
  {
    hide OneBits;
    if ips != [] {
      NothingAdded(AddEntry(s, ips[0], HOST_MASK, answers[0]).0, ips[1..], answers[1..]);
    }
  }

  /** Removing a host deletes the rows of its addresses and its record; a host without one is none of its business. */
  lemma {:induction false} RemoveHostEffect(s: State, host: string)
    ensures var t := RemoveHostFrom(s, host);
      && t.os == s.os - AddressRoutes(FormerAddresses(s, host))
      && t.hosts == s.hosts - {host} && t.statics == s.statics
  {
    hide HostRoute, DeleteAll, Dropped, AddressRoutes;
    NoAddresses();
    if host in s.hosts {
      DeleteAllEffect(s, s.hosts[host], []);
    } else {
      assert s.hosts - {host} == s.hosts && s.os - {} == s.os;
    }
  }
}
