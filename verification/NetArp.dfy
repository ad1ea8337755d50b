/** The ARP cache of i386/whitex/internet.h:217-258 (Packet Reception in RFC 826): a table that learns
    addresses until it is full. */
module NetArp {
  import opened NetChecksum

  const CACHE_SIZE := 256

  type Ip = b: Bytes | |b| == 4 witness [0, 0, 0, 0]
  type Mac = b: Bytes | |b| == 6 witness [0, 0, 0, 0, 0, 0]

  datatype Slot<I, M> = Entry(ip: I, mac: M, live: bool)

  /** What the cache stands for, and what an update does to it: known addresses are rewritten, new ones
      are learnt while there is room. */
  function Learn<I, M>(m: map<I, M>, ip: I, mac: M): map<I, M> {
    if ip in m || |m| < CACHE_SIZE then m[ip := mac] else m
  }

  ghost predicate Has<I, M>(es: seq<Slot<I, M>>, n: nat, ip: I)
    requires n <= |es|
  {
    exists i :: 0 <= i < n && es[i].ip == ip
  }

  /** The live entries are the first `n`, no address occurs twice among them, and they hold `m`. */
  ghost predicate Represents<I(!new), M>(es: seq<Slot<I, M>>, n: nat, m: map<I, M>) {
    && |es| == CACHE_SIZE && n <= CACHE_SIZE && |m| == n
    && (forall i :: 0 <= i < CACHE_SIZE ==> (es[i].live <==> i < n))
    && (forall i, j :: 0 <= i < j < n ==> es[i].ip != es[j].ip)
    && (forall i :: 0 <= i < n ==> es[i].ip in m && m[es[i].ip] == es[i].mac)
    && forall ip :: ip in m ==> Has(es, n, ip)
  }

  function EmptySlot(): Slot<Ip, Mac> {
    var ip: Ip := [0, 0, 0, 0];
    var mac: Mac := [0, 0, 0, 0, 0, 0];
    Entry(ip, mac, false)
  }

  class ArpCache {
    const entries: array<Slot<Ip, Mac>>
    ghost var live: nat
    ghost var table: map<Ip, Mac>

    ghost predicate Valid()
      reads this, entries
    {
      Represents(entries[..], live, table)
    }

    /** `wx_arp_init`. */
    constructor ()
      ensures Valid() && table == map[] && fresh(entries)
    {
      entries := new Slot<Ip, Mac>[CACHE_SIZE](_ => EmptySlot());
      live, table := 0, map[];
    }

    /** The slot of a live entry for `ip`; the size of the cache if there is none. */
    method Find(ip: Ip) returns (i: nat)
      requires Valid()
      ensures i <= CACHE_SIZE && (i < CACHE_SIZE <==> ip in table)
      ensures i < CACHE_SIZE ==> i < live && entries[i].ip == ip
    {
      i := 0;
      while i < CACHE_SIZE && !(entries[i].live && entries[i].ip == ip)
        invariant i <= CACHE_SIZE
        invariant forall k :: 0 <= k < i && k < live ==> entries[k].ip != ip
      {
        i := i + 1;
      }
    }

    /** `wx_arp_update`. */
    method Update(ip: Ip, mac: Mac)
      requires Valid()
      modifies this, entries
      ensures Valid() && table == Learn(old(table), ip, mac)
    {
      var i := Find(ip);
      if i < CACHE_SIZE {
        ghost var was := entries[..];
        entries[i] := entries[i].(mac := mac);
        Rewrites(was, live, table, i, mac);
        table := table[ip := mac];
        return;
      }
      var j := 0;
      while j < CACHE_SIZE && entries[j].live
        invariant j <= live
        invariant Valid()
      {
        assert entries[..][j].live;
        j := j + 1;
      }
      assert j == live by { if j < CACHE_SIZE { assert !entries[..][j].live; } }
      if j < CACHE_SIZE {
        ghost var was := entries[..];
        entries[j] := Entry(ip, mac, true);
        Extends(was, live, table, ip, mac);
        assert entries[..] == was[live := Entry(ip, mac, true)];
        live, table := live + 1, table[ip := mac];
      }
    }

    /** `wx_arp_lookup`. */
    method Lookup(ip: Ip) returns (found: bool, mac: Mac)
      requires Valid()
      ensures found <==> ip in table
      ensures found ==> mac == table[ip]
    {
      var i := Find(ip);
      found, mac := false, [0, 0, 0, 0, 0, 0];
      if i < CACHE_SIZE { found, mac := true, entries[i].mac; }
    }
  }

  lemma HasStays<I, M>(es: seq<Slot<I, M>>, es': seq<Slot<I, M>>, n: nat, n': nat, ip: I)
    requires n <= n' && n <= |es| && n' <= |es'| && Has(es, n, ip)
    requires forall k :: 0 <= k < n ==> es'[k].ip == es[k].ip
    ensures Has(es', n', ip)
  {
    var k :| 0 <= k < n && es[k].ip == ip;
    assert es'[k].ip == ip;
  }

  lemma Rewrites<I(!new), M>(es: seq<Slot<I, M>>, n: nat, m: map<I, M>, i: nat, mac: M)
    requires Represents(es, n, m) && i < n
    ensures Represents(es[i := es[i].(mac := mac)], n, m[es[i].ip := mac])
  {
    hide Has;
    var es', m' := es[i := es[i].(mac := mac)], m[es[i].ip := mac];
    assert m'.Keys == m.Keys;
    forall a | a in m'
      ensures Has(es', n, a)
    {
      HasStays(es, es', n, n, a);
    }
  }

  lemma Extends<I(!new), M>(es: seq<Slot<I, M>>, n: nat, m: map<I, M>, ip: I, mac: M)
    requires Represents(es, n, m) && n < CACHE_SIZE && ip !in m
    ensures Represents(es[n := Entry(ip, mac, true)], n + 1, m[ip := mac])
  {
    hide Has;
    var es', m' := es[n := Entry(ip, mac, true)], m[ip := mac];
    assert m'.Keys == m.Keys + {ip};
    assert |m'| == n + 1;
    HasLast(es', n);
    forall i, j | 0 <= i < j < n + 1
      ensures es'[i].ip != es'[j].ip
    {
      assert es[i].ip in m;
    }
    forall i | 0 <= i < n + 1
      ensures es'[i].ip in m' && m'[es'[i].ip] == es'[i].mac
    {
    }
    forall a | a in m'
      ensures Has(es', n + 1, a)
    {
      if a != ip { HasStays(es, es', n, n + 1, a); }
    }
  }

  lemma HasLast<I, M>(es: seq<Slot<I, M>>, n: nat)
    requires n < |es|
    ensures Has(es, n + 1, es[n].ip)
  {
  }

  // ---------- whole histories ----------

  datatype Lesson<I, M> = Lesson(ip: I, mac: M)

  /** The cache after a history of updates. */
  ghost function Learned<I, M>(us: seq<Lesson<I, M>>): map<I, M> {
    if us == [] then map[]
    else Learn(Learned(us[..|us| - 1]), us[|us| - 1].ip, us[|us| - 1].mac)
  }

  /** The addresses of a history in the order of their first appearance. */
  ghost function Seen<I, M>(us: seq<Lesson<I, M>>): seq<I> {
    if us == [] then []
    else
      var s := Seen(us[..|us| - 1]);
      if us[|us| - 1].ip in s then s else s + [us[|us| - 1].ip]
  }

  ghost function Take<I>(s: seq<I>, n: nat): seq<I> { if |s| <= n then s else s[..n] }

  /** The hardware address of the last update for `ip`. */
  ghost function Latest<I, M>(us: seq<Lesson<I, M>>, ip: I): M
    requires ip in Seen(us)
  {
    if us[|us| - 1].ip == ip then us[|us| - 1].mac else Latest(us[..|us| - 1], ip)
  }

  lemma {:induction false} SeenOnce<I, M>(us: seq<Lesson<I, M>>)
    ensures forall i, j :: 0 <= i < j < |Seen(us)| ==> Seen(us)[i] != Seen(us)[j]
  {
    if us != [] { SeenOnce(us[..|us| - 1]); }
  }

  /** Over every history the cache knows exactly the first 256 different addresses, each with its latest
      hardware address. */
  lemma {:induction false} CacheKnowsLatest<I(!new), M>(us: seq<Lesson<I, M>>)
    ensures |Learned(us)| == |Take(Seen(us), CACHE_SIZE)|
    ensures forall ip: I :: ip in Learned(us) <==> ip in Take(Seen(us), CACHE_SIZE)
    ensures forall ip: I :: ip in Learned(us) ==> ip in Seen(us) && Learned(us)[ip] == Latest(us, ip)
  {
    if us != [] {
      var front, u := us[..|us| - 1], us[|us| - 1];
      CacheKnowsLatest(front);
      SeenOnce(us);
      SeenOnce(front);
      var s, s' := Seen(front), Seen(us);
      if u.ip in Learned(front) || |Learned(front)| < CACHE_SIZE {
        assert Learned(us).Keys == Learned(front).Keys + {u.ip};
      }
      if |s| >= CACHE_SIZE {
        assert Take(s', CACHE_SIZE) == Take(s, CACHE_SIZE);
      } else {
        assert Take(s, CACHE_SIZE) == s && Take(s', CACHE_SIZE) == s';
      }
    }
  }
}
