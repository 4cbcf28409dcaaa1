/**
 The holder of the two ACME managers, production and staging: which manager answers for a host, and
 what a rebuild keeps.

 The certificate cache of a slot is the set of host names in its directory; the clock is a parameter.
 */
module AcmeHolder {
  import opened Options
  import opened Text

  // --- Host names -----------------------------------------------------------------------------

  function LastIndex(s: string, c: char): (i: int)
    ensures -1 <= i < |s|
    ensures i >= 0 ==> s[i] == c
    ensures forall j :: i < j < |s| ==> s[j] != c
  {
    if s == "" then -1
    else if s[|s| - 1] == c then |s| - 1
    else LastIndex(s[..|s| - 1], c)
  }

  function StripPort(h: string): string {
    var i := LastIndex(h, ':');
    if i > LastIndex(h, ']') then h[..i] else h
  }

  function StripDot(h: string): string {
    if h != "" && h[|h| - 1] == '.' then h[..|h| - 1] else h
  }

  function NormHost(h: string): string {
    ToLower(StripDot(StripPort(TrimSpace(h))))
  }

  /** Normalizing the name changes nothing. */
  predicate Normal(h: string) {
    NormHost(h) == h
  }

  /** No surrounding space, no port, no trailing dot, no upper case. */
  ghost predicate Bare(h: string) {
    && (h != "" ==> !IsSpace(h[0]) && !IsSpace(h[|h| - 1]) && h[|h| - 1] != '.')
    && LastIndex(h, ':') <= LastIndex(h, ']')
    && forall i :: 0 <= i < |h| ==> !('A' <= h[i] <= 'Z')
  }

  /** Exactly the names that normalization leaves alone. */
  lemma NormalExactly(h: string)
    ensures Normal(h) <==> Bare(h)
  {
    if Bare(h) {
      TrimNothing(h);
      assert ToLower(h) == h;
    }
    if Normal(h) {
      NormalIsBare(h);
    }
  }

  lemma NormalIsBare(h: string)
    requires Normal(h)
    ensures Bare(h)
  {
    var t := TrimSpace(h);
    TrimShortens(h);
    StripShortens(t);
    LowerFixed(h, StripDot(StripPort(t)));
  }

  lemma TrimShortens(h: string)
    ensures |TrimSpace(h)| <= |h|
    ensures |TrimSpace(h)| == |h| ==> TrimSpace(h) == h && (h != "" ==> !IsSpace(h[0]) && !IsSpace(h[|h| - 1]))
  {
  }

  lemma StripShortens(t: string)
    ensures |StripDot(StripPort(t))| <= |t|
    ensures |StripDot(StripPort(t))| == |t| ==>
      LastIndex(t, ':') <= LastIndex(t, ']') && (t != "" ==> t[|t| - 1] != '.') && StripDot(StripPort(t)) == t
  {
  }

  lemma LowerFixed(h: string, d: string)
    requires ToLower(d) == h
    ensures |d| == |h|
    ensures forall i :: 0 <= i < |h| ==> !('A' <= h[i] <= 'Z')
  {
  }

  /** What the issuance queue accepts as a domain, as far as characters go. */
  predicate IsDomain(d: string) {
    && d != "" && d[|d| - 1] != '.'
    && forall i :: 0 <= i < |d| ==> 'a' <= d[i] <= 'z' || '0' <= d[i] <= '9' || d[i] == '-' || d[i] == '.'
  }

  lemma DomainIsBare(d: string)
    requires IsDomain(d)
    ensures Bare(d)
  {
  }

  lemma DomainsAreNormal(d: string)
    requires IsDomain(d)
    ensures Normal(d)
  {
    DomainIsBare(d);
    NormalExactly(d);
  }

  /** What is left of a name when only a trailing dot and the case remain to be settled. */
  function Stripped(h: string): string {
    StripPort(TrimSpace(h))
  }

  /** No trailing space, no port, at most one trailing dot and no space before it. */
  ghost predicate SettlesOnce(t: string) {
    var n := |t|;
    && (n >= 1 ==> !IsSpace(t[n - 1]))
    && (n >= 2 && t[n - 1] == '.' ==> t[n - 2] != '.' && !IsSpace(t[n - 2]))
    && LastIndex(t, ':') <= LastIndex(t, ']')
  }

  /** Exactly the names for which a second normalization changes nothing. */
  lemma NormHostIdempotentExactly(h: string)
    ensures Normal(NormHost(h)) <==> SettlesOnce(Stripped(h))
  {
    var t := Stripped(h);
    StrippedStart(h);
    NormalExactly(NormHost(h));
    BareLower(StripDot(t));
    DotStripped(t);
  }

  lemma StrippedStart(h: string)
    ensures Stripped(h) != "" ==> !IsSpace(Stripped(h)[0])
  {
  }

  /** Bare but for upper case. */
  ghost predicate BareFolded(d: string) {
    && (d != "" ==> !IsSpace(d[0]) && !IsSpace(d[|d| - 1]) && d[|d| - 1] != '.')
    && LastIndex(d, ':') <= LastIndex(d, ']')
  }

  lemma BareLower(d: string)
    ensures Bare(ToLower(d)) <==> BareFolded(d)
  {
    LastIndexLower(d, ':');
    LastIndexLower(d, ']');
    assert forall i :: 0 <= i < |d| ==> ToLower(d)[i] == Lower(d[i]);
  }

  /** Folding the case moves no colon and no bracket. */
  lemma {:induction false} LastIndexLower(d: string, c: char)
    requires c == ':' || c == ']'
    ensures LastIndex(ToLower(d), c) == LastIndex(d, c)
  {
    var low := ToLower(d);
    if d != "" {
      LastIndexLower(d[..|d| - 1], c);
      assert low[..|d| - 1] == ToLower(d[..|d| - 1]);
    }
  }

  lemma DotStripped(t: string)
    requires t != "" ==> !IsSpace(t[0])
    ensures BareFolded(StripDot(t)) <==> SettlesOnce(t)
  {
  }

  /** A name that needs two passes: only one trailing dot is stripped at a time. */
  lemma NormHostNotIdempotent()
    ensures !Normal(NormHost("a.."))
  {
    TrimNothing("a..");
    assert LastIndex("a..", ':') == -1 && LastIndex("a..", ']') == -1;
    assert "a.."[..2] == "a.";
    assert NormHost("a..") == "a." by {
      assert ToLower("a.") == "a.";
    }
    NormalExactly("a.");
  }

  // --- State ----------------------------------------------------------------------------------

  /** When a registration stops counting: never while in flight or succeeded, else at a time. */
  datatype Expiry = Never | At(time: int)

  predicate Active(e: Expiry, now: int) {
    e.Never? || now < e.time
  }

  datatype Snapshot = Snapshot(sites: set<string>, cached: set<string>) {
    predicate Has(key: string) {
      key in sites || key in cached
    }
  }

  datatype Manager = Manager(staging: bool, snap: Snapshot, email: string)

  datatype Slot = Slot(mgr: Option<Manager>, snap: Snapshot) {
    /** The manager decides with the snapshot of its own slot. */
    ghost predicate Coherent(staging: bool) {
      mgr.Some? ==> mgr.value.staging == staging && mgr.value.snap == snap
    }
  }

  datatype Acme = Acme(staging: bool, email: string)

  datatype Site = Site(domains: seq<string>, acme: Option<Acme>)

  const EMPTY_SLOT := Slot(None, Snapshot({}, {}))

  const FAILURE_COOLDOWN := 600

  /** The site uses ACME in this mode. */
  predicate Uses(site: Site, staging: bool) {
    site.acme.Some? && site.acme.value.staging == staging
  }

  /** The normalized ACME domains of the sites with the given staging flag. */
  ghost function SiteHosts(norm: string -> string, sites: seq<Site>, staging: bool): set<string> {
    if sites == [] then {}
    else
      var last := sites[|sites| - 1];
      SiteHosts(norm, sites[..|sites| - 1], staging) +
      if Uses(last, staging) then NormHosts(norm, last.domains) else {}
  }

  function NormHosts(norm: string -> string, domains: seq<string>): set<string> {
    if domains == [] then {} else NormHosts(norm, domains[..|domains| - 1]) + {norm(domains[|domains| - 1])}
  }

  /** The first email of those sites, or the global one. */
  ghost function Contact(sites: seq<Site>, staging: bool, globalEmail: string): string {
    var email := SiteEmail(sites, staging);
    if email == "" then globalEmail else email
  }

  ghost function SiteEmail(sites: seq<Site>, staging: bool): string {
    if sites == [] then ""
    else
      var front, last := SiteEmail(sites[..|sites| - 1], staging), sites[|sites| - 1];
      if front == "" && Uses(last, staging) then last.acme.value.email else front
  }

  /** Some entry of the list normalizes to the host. */
  ghost predicate Lists(norm: string -> string, names: seq<string>, host: string) {
    exists i :: 0 <= i < |names| && norm(names[i]) == host
  }

  ghost predicate SiteLists(norm: string -> string, sites: seq<Site>, staging: bool, host: string) {
    exists i :: 0 <= i < |sites| && Uses(sites[i], staging) && Lists(norm, sites[i].domains, host)
  }

  lemma {:induction false} NormHostsExactly(norm: string -> string, names: seq<string>, host: string)
    ensures host in NormHosts(norm, names) <==> Lists(norm, names, host)
  {
    if names != [] {
      var n := |names| - 1;
      NormHostsExactly(norm, names[..n], host);
      assert Lists(norm, names, host) <==> Lists(norm, names[..n], host) || norm(names[n]) == host;
    }
  }

  lemma {:induction false} SiteHostsExactly(norm: string -> string, sites: seq<Site>, staging: bool, host: string)
    ensures host in SiteHosts(norm, sites, staging) <==> SiteLists(norm, sites, staging, host)
  {
    if sites != [] {
      var n := |sites| - 1;
      SiteHostsExactly(norm, sites[..n], staging, host);
      NormHostsExactly(norm, sites[n].domains, host);
      assert SiteLists(norm, sites, staging, host) <==>
        SiteLists(norm, sites[..n], staging, host) || (Uses(sites[n], staging) && Lists(norm, sites[n].domains, host));
    }
  }

  /** The snapshot holds exactly the hosts that the sites of the mode and the directory list. */
  ghost predicate IsSnapshot(norm: string -> string, sites: seq<Site>, dir: seq<string>, staging: bool, snap: Snapshot) {
    && (forall host :: host in snap.sites <==> SiteLists(norm, sites, staging, host))
    && (forall host :: host in snap.cached <==> Lists(norm, dir, host))
  }

  lemma SnapshotIsExact(norm: string -> string, sites: seq<Site>, dir: seq<string>, staging: bool)
    ensures IsSnapshot(norm, sites, dir, staging, Snapshot(SiteHosts(norm, sites, staging), NormHosts(norm, dir)))
  {
    forall host
      ensures host in SiteHosts(norm, sites, staging) <==> SiteLists(norm, sites, staging, host)
    {
      SiteHostsExactly(norm, sites, staging, host);
    }
    forall host
      ensures host in NormHosts(norm, dir) <==> Lists(norm, dir, host)
    {
      NormHostsExactly(norm, dir, host);
    }
  }

  /** d is a domain of an ACME site of this mode, or an entry of the cache directory. */
  ghost predicate Known(norm: string -> string, sites: seq<Site>, dir: seq<string>, staging: bool, d: string) {
    || (exists i :: 0 <= i < |sites| && Uses(sites[i], staging) && d in sites[i].domains)
    || d in dir
  }

  /** A known domain is in the snapshot that lists the sites and the directory. */
  lemma KnownIsListed(norm: string -> string, sites: seq<Site>, dir: seq<string>, staging: bool, d: string)
    requires Known(norm, sites, dir, staging, d)
    ensures norm(d) in SiteHosts(norm, sites, staging) || norm(d) in NormHosts(norm, dir)
  {
    SiteHostsExactly(norm, sites, staging, norm(d));
    NormHostsExactly(norm, dir, norm(d));
    if i :| 0 <= i < |sites| && Uses(sites[i], staging) && d in sites[i].domains {
      var j :| 0 <= j < |sites[i].domains| && sites[i].domains[j] == d;
      assert Lists(norm, sites[i].domains, norm(d));
    } else {
      var j :| 0 <= j < |dir| && dir[j] == d;
    }
  }

  /** email is the first nonempty contact of the sites of this mode, or the global one when there is none. */
  ghost predicate IsContact(sites: seq<Site>, staging: bool, globalEmail: string, email: string) {
    if NoContact(sites, staging, |sites|) then email == globalEmail
    else exists i | 0 <= i < |sites| :: IsFirstContact(sites, staging, i, email)
  }

  ghost predicate IsFirstContact(sites: seq<Site>, staging: bool, i: nat, email: string)
    requires i < |sites|
  {
    NoContact(sites, staging, i) && Uses(sites[i], staging) && email == sites[i].acme.value.email != ""
  }

  ghost predicate NoContact(sites: seq<Site>, staging: bool, n: nat)
    requires n <= |sites|
  {
    forall i :: 0 <= i < n && Uses(sites[i], staging) ==> sites[i].acme.value.email == ""
  }

  lemma {:induction false} SiteEmailIsFirst(sites: seq<Site>, staging: bool)
    ensures SiteEmail(sites, staging) == "" <==> NoContact(sites, staging, |sites|)
    ensures SiteEmail(sites, staging) != "" ==> IsContact(sites, staging, "", SiteEmail(sites, staging))
  {
    if sites != [] {
      var n := |sites| - 1;
      var front := sites[..n];
      SiteEmailIsFirst(front, staging);
      assert forall i :: 0 <= i < n ==> front[i] == sites[i];
      if SiteEmail(front, staging) != "" {
        var i :| 0 <= i < n && IsFirstContact(front, staging, i, SiteEmail(front, staging));
        assert IsFirstContact(sites, staging, i, SiteEmail(front, staging));
      } else if SiteEmail(sites, staging) != "" {
        assert IsFirstContact(sites, staging, n, SiteEmail(sites, staging));
      }
    }
  }

  lemma ContactIsFirst(sites: seq<Site>, staging: bool, globalEmail: string)
    ensures IsContact(sites, staging, globalEmail, Contact(sites, staging, globalEmail))
  {
    SiteEmailIsFirst(sites, staging);
  }

  class Holder {
    /** The normalization of host names; NormHost in the program. */
    const norm: string -> string

    var prod: Slot
    var stag: Slot
    var registry: map<bool, map<string, Expiry>>

    function SlotOf(staging: bool): Slot
      reads this
    {
      if staging then stag else prod
    }

    ghost predicate Valid()
      reads this
    {
      && registry.Keys == {false, true}
      && prod.Coherent(false) && stag.Coherent(true)
    }

    constructor (norm: string -> string)
      ensures Valid() && this.norm == norm && prod == EMPTY_SLOT && stag == EMPTY_SLOT
      ensures registry == map[false := map[], true := map[]]
    {
      this.norm := norm;
      prod, stag := EMPTY_SLOT, EMPTY_SLOT;
      registry := map[false := map[], true := map[]];
    }

    predicate Registered(staging: bool, host: string, now: int)
      requires Valid()
      reads this
    {
      var slot := registry[staging];
      norm(host) in slot && Active(slot[norm(host)], now)
    }

    predicate HasActive(staging: bool, now: int)
      requires Valid()
      reads this
    {
      exists host | host in registry[staging] :: Active(registry[staging][host], now)
    }

    /** The host policy of a manager: its snapshot, or the live registry of its slot. */
    predicate Admits(m: Manager, host: string, now: int)
      requires Valid()
      reads this
    {
      m.snap.Has(norm(host)) || Registered(m.staging, host, now)
    }

    method Register(domain: string, staging: bool)
      requires Valid()
      modifies this`registry
      ensures Valid()
      ensures registry == old(registry)[staging := old(registry)[staging][norm(domain) := Never]]
      ensures forall now :: Registered(staging, domain, now)
      ensures forall s, host, now :: s != staging || norm(host) != norm(domain) ==>
        Registered(s, host, now) == old(Registered(s, host, now))
    {
      registry := registry[staging := registry[staging][norm(domain) := Never]];
    }

    method Settle(domain: string, staging: bool, failed: bool, now: int)
      requires Valid()
      modifies this`registry
      ensures Valid()
      ensures registry == if norm(domain) in old(registry)[staging]
        then old(registry)[staging := old(registry)[staging][norm(domain) :=
          if failed then At(now + FAILURE_COOLDOWN) else Never]]
        else old(registry)
      ensures norm(domain) in old(registry)[staging] ==>
        forall t :: Registered(staging, domain, t) <==> !failed || t < now + FAILURE_COOLDOWN
      ensures forall s, host, t :: s != staging || norm(host) != norm(domain) ==>
        Registered(s, host, t) == old(Registered(s, host, t))
    {
      var slot := registry[staging];
      if norm(domain) !in slot {
        return;
      }
      if failed {
        registry := registry[staging := slot[norm(domain) := At(now + FAILURE_COOLDOWN)]];
        return;
      }
      registry := registry[staging := slot[norm(domain) := Never]];
    }

    // --- Routing ------------------------------------------------------------------------------

    /** The manager that answers for a host, by knowledge only. */
    function RouteManager(host0: string, now: int): Option<Manager>
      requires Valid()
      reads this
    {
      var host := norm(host0);
      if Registered(true, host, now) && stag.mgr.Some? then stag.mgr
      else if Registered(false, host, now) && prod.mgr.Some? then prod.mgr
      else if stag.mgr.Some? && host in stag.snap.sites then stag.mgr
      else if prod.mgr.Some? && host in prod.snap.sites then prod.mgr
      else if prod.mgr.Some? && host in prod.snap.cached then prod.mgr
      else if stag.mgr.Some? && host in stag.snap.cached then stag.mgr
      else if prod.mgr.Some? then prod.mgr
      else stag.mgr
    }

    /** How strong a live slot's claim on a host is; smaller is stronger, 6 is none. */
    ghost function Claim(staging: bool, host: string, now: int): int
      requires Valid()
      reads this
    {
      var snap := SlotOf(staging).snap;
      if Registered(staging, host, now) then (if staging then 0 else 1)
      else if norm(host) in snap.sites then (if staging then 2 else 3)
      else if norm(host) in snap.cached then (if staging then 5 else 4)
      else 6
    }

    lemma ClaimIsAdmission(staging: bool, host: string, now: int)
      requires Valid() && SlotOf(staging).mgr.Some?
      ensures Admits(SlotOf(staging).mgr.value, host, now) <==> Claim(staging, host, now) < 6
    {
    }

    /**
     Main result on routing: a manager is found whenever a slot is live; it has the strongest claim
     of the live slots, production winning when neither claims the host. So if any live slot admits
     the host, the one manager that is asked admits it.
     */
    lemma RoutesToStrongestClaim(host: string, now: int)
      requires Valid() && norm(norm(host)) == norm(host)
      ensures RouteManager(host, now).Some? <==> prod.mgr.Some? || stag.mgr.Some?
      ensures forall staging :: SlotOf(staging).mgr.Some? ==>
        var m := RouteManager(host, now).value;
        && m == SlotOf(m.staging).mgr.value
        && Claim(m.staging, host, now) <= Claim(staging, host, now)
        && (Claim(m.staging, host, now) == Claim(staging, host, now) && m.staging ==> staging)
        && (Admits(SlotOf(staging).mgr.value, host, now) ==> Admits(m, host, now))
    {
    }

    // --- Rebuilding ---------------------------------------------------------------------------

    method CollectHosts(domains: seq<string>) returns (hosts: set<string>)
      ensures hosts == NormHosts(norm, domains)
    {
      hosts := {};
      for i := 0 to |domains|
        invariant hosts == NormHosts(norm, domains[..i])
      {
        assert domains[..i + 1][..i] == domains[..i];
        hosts := hosts + {norm(domains[i])};
      }
      assert domains[..|domains|] == domains;
    }

    /** Assembles one slot; sites is empty when there is no configuration at hand. */
    method BuildSlot(sites: seq<Site>, globalEmail: string, staging: bool, cacheDir: seq<string>, now: int)
        returns (slot: Slot)
      requires Valid()
      ensures slot.snap == Snapshot(SiteHosts(norm, sites, staging), NormHosts(norm, cacheDir))
      ensures slot.mgr ==
        if slot.snap == Snapshot({}, {}) && !HasActive(staging, now) then None
        else Some(Manager(staging, slot.snap, Contact(sites, staging, globalEmail)))
      ensures IsSnapshot(norm, sites, cacheDir, staging, slot.snap)
      ensures slot.mgr.Some? ==> IsContact(sites, staging, globalEmail, slot.mgr.value.email)
    {
      SnapshotIsExact(norm, sites, cacheDir, staging);
      ContactIsFirst(sites, staging, globalEmail);
      var hosts: set<string> := {};
      var email := "";
      for i := 0 to |sites|
        invariant hosts == SiteHosts(norm, sites[..i], staging)
        invariant email == SiteEmail(sites[..i], staging)
      {
        assert sites[..i + 1][..i] == sites[..i];
        var s := sites[i];
        if !Uses(s, staging) {
          continue;
        }
        var more := CollectHosts(s.domains);
        hosts := hosts + more;
        if email == "" {
          email := s.acme.value.email;
        }
      }
      assert sites[..|sites|] == sites;
      if email == "" {
        email := globalEmail;
      }
      var cached := CollectHosts(cacheDir);
      var snap := Snapshot(hosts, cached);
      if hosts == {} && cached == {} && !HasActive(staging, now) {
        return Slot(None, snap);
      }
      return Slot(Some(Manager(staging, snap, email)), snap);
    }

    /** An entry the pruning keeps: unexpired, and not yet covered by the snapshot when it has no expiry. */
    static predicate Survives(key: string, e: Expiry, snap: Snapshot, now: int) {
      match e
      case Never => !snap.Has(key)
      case At(time) => now < time
    }

    static ghost function Pruned(norm: string -> string, slot: map<string, Expiry>, snap: Snapshot, now: int)
      : map<string, Expiry>
    {
      map host | host in slot && Survives(norm(host), slot[host], snap, now) :: slot[host]
    }

    static method PruneSlot(norm: string -> string, slot: map<string, Expiry>, snap: Snapshot, now: int)
        returns (left: map<string, Expiry>)
      ensures left == Pruned(norm, slot, snap, now)
    {
      left := slot;
      var todo := slot.Keys;
      while todo != {}
        invariant todo <= slot.Keys
        invariant left == map host |
          host in slot && (host in todo || Survives(norm(host), slot[host], snap, now)) :: slot[host]
        decreases todo
      {
        var host :| host in todo;
        todo := todo - {host};
        if !Survives(norm(host), slot[host], snap, now) {
          left := left - {host};
        }
      }
    }

    method PruneRegistry(now: int)
      requires Valid()
      modifies this`registry
      ensures Valid()
      ensures forall staging ::
        registry[staging] == Pruned(norm, old(registry)[staging], SlotOf(staging).snap, now)
      ensures forall staging, host :: host in registry[staging] <==>
        && host in old(registry)[staging]
        && (old(registry)[staging][host].At? ==> now < old(registry)[staging][host].time)
        && (old(registry)[staging][host].Never? ==>
              norm(host) !in SlotOf(staging).snap.sites && norm(host) !in SlotOf(staging).snap.cached)
      ensures forall staging, host :: host in registry[staging] ==>
        host in old(registry)[staging] && registry[staging][host] == old(registry)[staging][host]
    {
      var p := PruneSlot(norm, registry[false], prod.snap, now);
      var s := PruneSlot(norm, registry[true], stag.snap, now);
      registry := map[false := p, true := s];
    }

    /** Rebuilds both slots from the applied configuration, then prunes the registry. */
    method Rebuild(sites: seq<Site>, globalEmail: string, prodDir: seq<string>, stagDir: seq<string>, now: int)
      requires Valid()
      modifies this
      ensures Valid()
      ensures forall staging ::
        && SlotOf(staging).snap ==
             Snapshot(SiteHosts(norm, sites, staging), NormHosts(norm, if staging then stagDir else prodDir))
        && registry[staging] == Pruned(norm, old(registry)[staging], SlotOf(staging).snap, now)
        && SlotOf(staging).mgr ==
             if SlotOf(staging).snap == Snapshot({}, {}) && !old(HasActive(staging, now)) then None
             else Some(Manager(staging, SlotOf(staging).snap, Contact(sites, staging, globalEmail)))
      ensures forall staging, d :: norm(norm(d)) == norm(d) && old(Registered(staging, d, now)) ==>
        SlotOf(staging).mgr.Some? && Admits(SlotOf(staging).mgr.value, d, now)
      ensures forall staging, d ::
        norm(norm(d)) == norm(d) && Known(norm, sites, if staging then stagDir else prodDir, staging, d) ==>
        SlotOf(staging).mgr.Some? && Admits(SlotOf(staging).mgr.value, d, now)
    {
      var p := BuildSlot(sites, globalEmail, false, prodDir, now);
      var s := BuildSlot(sites, globalEmail, true, stagDir, now);
      prod, stag := p, s;
      PruneRegistry(now);
      forall staging, d | norm(norm(d)) == norm(d) && Known(norm, sites, if staging then stagDir else prodDir, staging, d)
        ensures SlotOf(staging).mgr.Some? && Admits(SlotOf(staging).mgr.value, d, now)
      {
        KnownIsListed(norm, sites, if staging then stagDir else prodDir, staging, d);
      }
      forall staging, d | norm(norm(d)) == norm(d) && old(Registered(staging, d, now))
        ensures SlotOf(staging).mgr.Some? && Admits(SlotOf(staging).mgr.value, d, now)
      {
        var slot, host := old(registry)[staging], norm(d);
        assert host in slot && Active(slot[host], now);
        assert norm(host) == host;
        if !Survives(norm(host), slot[host], SlotOf(staging).snap, now) {
          assert SlotOf(staging).snap.Has(host);
        }
      }
    }

    /** The manager for an issuance; built on first use around the registration that asked for it. */
    method SlotFor(domain: string, staging: bool, email: string, cacheDir: seq<string>, now: int)
        returns (m: Option<Manager>)
      requires Valid()
      modifies this`prod, this`stag
      ensures Valid()
      ensures SlotOf(!staging) == old(SlotOf(!staging))
      ensures old(SlotOf(staging)).mgr.Some? ==> SlotOf(staging) == old(SlotOf(staging))
      ensures m == SlotOf(staging).mgr
      ensures old(SlotOf(staging)).mgr.None? ==> (m.Some? <==> Registered(staging, domain, now))
      ensures m.Some? && Registered(staging, domain, now) ==> Admits(m.value, domain, now)
      ensures old(SlotOf(staging)).mgr.None? && m.Some? ==>
        && m.value.staging == staging && m.value.email == email && m.value.snap.sites == {}
        && IsSnapshot(norm, [], cacheDir, staging, m.value.snap)
      ensures m.None? ==> prod == old(prod) && stag == old(stag)
    {
      if SlotOf(staging).mgr.Some? {
        return SlotOf(staging).mgr;
      }
      if !Registered(staging, domain, now) {
        return None;
      }
      var s := BuildSlot([], email, staging, cacheDir, now);
      assert HasActive(staging, now) by {
        assert norm(domain) in registry[staging];
      }
      if staging {
        stag := s;
      } else {
        prod := s;
      }
      return s.mgr;
    }
  }
  lemma OneSite(norm: string -> string, site: Site, staging: bool)
    requires site.acme.Some? && |site.domains| == 1
    ensures SiteHosts(norm, [site], staging) ==
      if site.acme.value.staging == staging then {norm(site.domains[0])} else {}
  {
    assert [site][..0] == [] && site.domains[..0] == [];
    assert NormHosts(norm, site.domains) == {norm(site.domains[0])};
  }

  /**
   The routing does need a name that settles in one normalization: for any other, one registration and
   one site lead to a live slot that admits the host while the manager that is asked does not.
   */
  method Misroute(norm: string -> string, host: string) returns (h: Holder)
    requires norm(norm(host)) != norm(host)
    ensures h.Valid() && h.stag.mgr.Some? && h.Admits(h.stag.mgr.value, host, 0)
    ensures h.RouteManager(host, 0).Some? && !h.Admits(h.RouteManager(host, 0).value, host, 0)
  {
    h := new Holder(norm);
    h.Register(host, true);
    var site := Site([norm(host)], Some(Acme(false, "")));
    OneSite(norm, site, false);
    OneSite(norm, site, true);
    h.Rebuild([site], "", [], [], 0);
    assert h.SlotOf(true) == h.stag && h.SlotOf(false) == h.prod;
  }
}
