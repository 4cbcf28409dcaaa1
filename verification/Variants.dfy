/**
 The signature-detection stage: one main engine per site, variant engines for the category sets
 that disable rules can produce, and the lookup at request time.

 An engine is the set of detection categories it was built from.
 */
module Variants {
  import opened Matcher
  import opened Options
  import opened Text

  datatype Engine = Engine(categories: set<string>)

  datatype Site = Site(domains: seq<string>, wafEnabled: bool, categories: Option<seq<string>>)

  datatype Policy = Policy(rules: seq<Rule>, categories: Option<seq<string>>)

  datatype SiteWaf = SiteWaf(main: Engine, variants: map<string, Engine>)

  datatype BuildResult = BuildFailed(at: nat) | Built(byDomain: map<string, SiteWaf>)

  /** Whether the rule compiler accepts a site's directives for a category set. */
  type Compiler = (Site, set<string>) -> bool

  // --- Effective categories -------------------------------------------------------------------

  function Clean(c: string): string {
    TrimSpace(ToLower(c))
  }

  function CleanOne(t: Catalog, c: string): set<string> {
    if t.ValidCategory(Clean(c)) then {Clean(c)} else {}
  }

  function UnionOf(f: string -> set<string>, list: seq<string>, n: nat): set<string>
    requires n <= |list|
  {
    if n == 0 then {} else UnionOf(f, list, n - 1) + f(list[n - 1])
  }

  function Cleaner(t: Catalog): string -> set<string> {
    c => CleanOne(t, c)
  }

  /** The valid categories of a list, spelled the canonical way. */
  function CleanSet(t: Catalog, cats: seq<string>): set<string> {
    UnionOf(Cleaner(t), cats, |cats|)
  }

  /** The site list wins over the global default; without either, every category is on. */
  function Enabled(t: Catalog, siteCats: Option<seq<string>>, globalCats: Option<seq<string>>): set<string> {
    match (siteCats, globalCats)
    case (Some(cats), _) => CleanSet(t, cats)
    case (None, Some(cats)) => CleanSet(t, cats)
    case (None, None) => t.All()
  }

  method CollectClean(t: Catalog, cats: seq<string>) returns (enabled: set<string>)
    ensures enabled == CleanSet(t, cats)
  {
    enabled := {};
    for i := 0 to |cats|
      invariant enabled == UnionOf(Cleaner(t), cats, i)
    {
      enabled := AddClean(t, cats[i], enabled);
    }
  }

  method AddClean(t: Catalog, c: string, enabled: set<string>) returns (r: set<string>)
    ensures r == enabled + Cleaner(t)(c)
  {
    var cat := Clean(c);
    return if t.ValidCategory(cat) then enabled + {cat} else enabled;
  }

  method EnabledCategorySet(t: Catalog, siteCats: Option<seq<string>>, globalCats: Option<seq<string>>)
      returns (enabled: set<string>)
    ensures enabled == Enabled(t, siteCats, globalCats)
  {
    if siteCats == None {
      if globalCats.Some? {
        enabled := CollectClean(t, globalCats.value);
      } else {
        enabled := t.All();
      }
    } else {
      enabled := CollectClean(t, siteCats.value);
    }
  }

  /** The categories a list turns on: those of the table that an entry names, up to case and surrounding space. */
  lemma CleanSetExactly(t: Catalog, cats: seq<string>, c: string)
    ensures c in CleanSet(t, cats) <==>
      c in t.files && exists i :: 0 <= i < |cats| && TrimSpace(ToLower(cats[i])) == c
  {
    UnionMember(Cleaner(t), cats, |cats|, c);
    forall i | 0 <= i < |cats|
      ensures c in Cleaner(t)(cats[i]) <==> c in t.files && TrimSpace(ToLower(cats[i])) == c
    {
    }
  }

  lemma {:induction false} UnionMember(f: string -> set<string>, list: seq<string>, n: nat, c: string)
    requires n <= |list|
    ensures c in UnionOf(f, list, n) <==> exists i :: 0 <= i < n && c in f(list[i])
  {
    if n > 0 {
      UnionMember(f, list, n - 1, c);
    }
  }

  /** Which categories are on: the site's list decides, else the global one, else all are. */
  lemma EnabledExactly(t: Catalog, siteCats: Option<seq<string>>, globalCats: Option<seq<string>>, c: string)
    ensures c in Enabled(t, siteCats, globalCats) <==>
      if siteCats == None && globalCats == None then c in t.order
      else
        var cats := if siteCats.Some? then siteCats.value else globalCats.value;
        c in t.files && exists i :: 0 <= i < |cats| && TrimSpace(ToLower(cats[i])) == c
  {
    if siteCats.Some? {
      CleanSetExactly(t, siteCats.value, c);
    } else if globalCats.Some? {
      CleanSetExactly(t, globalCats.value, c);
    }
  }

  lemma {:induction false} UnionOfWithin(f: string -> set<string>, list: seq<string>, n: nat, all: set<string>)
    requires n <= |list| && forall c :: f(c) <= all
    ensures UnionOf(f, list, n) <= all
  {
    if n > 0 {
      UnionOfWithin(f, list, n - 1, all);
    }
  }

  lemma EnabledIsValid(t: Catalog, siteCats: Option<seq<string>>, globalCats: Option<seq<string>>)
    requires t.WellFormed()
    ensures Enabled(t, siteCats, globalCats) <= t.All()
  {
    var f := Cleaner(t);
    forall c
      ensures f(c) <= t.All()
    {
      assert f(c) == CleanOne(t, c);
    }
    if siteCats.Some? {
      UnionOfWithin(f, siteCats.value, |siteCats.value|, t.All());
    } else if globalCats.Some? {
      UnionOfWithin(f, globalCats.value, |globalCats.value|, t.All());
    }
  }

  function GlobalCats(policy: Option<Policy>): Option<seq<string>> {
    if policy.Some? then policy.value.categories else None
  }

  function Rules(policy: Option<Policy>): seq<Rule> {
    if policy.Some? then policy.value.rules else []
  }

  function Base(t: Catalog, site: Site, policy: Option<Policy>): set<string> {
    Enabled(t, site.categories, GlobalCats(policy))
  }

  method VariantCategories(t: Catalog, base: set<string>, exclude: set<string>) returns (cats: seq<string>)
    ensures cats == Ordered(t.order, base - exclude)
  {
    cats := [];
    for i := 0 to |t.order|
      invariant cats == Ordered(t.order[..i], base - exclude)
    {
      assert t.order[..i + 1][..i] == t.order[..i];
      var cat := t.order[i];
      if cat in base && cat !in exclude {
        cats := cats + [cat];
      }
    }
    assert t.order[..|t.order|] == t.order;
  }

  /** Listing a category set loses nothing and repeats nothing. */
  lemma {:induction false} OrderedSize(list: seq<string>, s: set<string>)
    requires forall i, j :: 0 <= i < j < |list| ==> list[i] != list[j]
    requires forall c :: c in s ==> c in list
    ensures |Ordered(list, s)| == |s|
  {
    if list == [] {
      assert s == {};
    } else {
      var n := |list| - 1;
      OrderedSkip(list[..n], s, list[n]);
      OrderedSize(list[..n], s - {list[n]});
    }
  }

  lemma {:induction false} OrderedSkip(list: seq<string>, s: set<string>, c: string)
    requires c !in list
    ensures Ordered(list, s - {c}) == Ordered(list, s)
  {
    if list != [] {
      assert list[|list| - 1] in list;
      OrderedSkip(list[..|list| - 1], s, c);
    }
  }

  /** The length test of the build recognises exactly the exclusions that remove nothing. */
  lemma AliasTest(t: Catalog, base: set<string>, exclude: set<string>)
    requires t.WellFormed() && base <= t.All()
    ensures |Ordered(t.order, base - exclude)| == |base| <==> base !! exclude
  {
    OrderedSize(t.order, base - exclude);
    assert base == (base - exclude) + (base * exclude);
    assert |base| == |base - exclude| + |base * exclude|;
  }

  lemma CleanWord(t: Catalog, c: string)
    requires IsWord(c) && t.ValidCategory(c)
    ensures CleanOne(t, c) == {c}
  {
    WordIsPlain(c);
  }

  lemma {:induction false} UnionOfSingletons(f: string -> set<string>, list: seq<string>, n: nat)
    requires n <= |list| && forall c :: c in list ==> f(c) == {c}
    ensures forall c :: c in UnionOf(f, list, n) <==> c in list[..n]
  {
    if n > 0 {
      assert list[n - 1] in list;
      UnionOfSingletons(f, list, n - 1);
      assert list[..n] == list[..n - 1] + [list[n - 1]];
    }
  }

  lemma CleanWords(t: Catalog, cats: seq<string>)
    requires forall c :: c in cats ==> IsWord(c) && t.ValidCategory(c)
    ensures forall c :: c in CleanSet(t, cats) <==> c in cats
  {
    var f := Cleaner(t);
    forall c | c in cats
      ensures f(c) == {c}
    {
      CleanWord(t, c);
    }
    UnionOfSingletons(f, cats, |cats|);
    assert cats[..|cats|] == cats;
  }

  /** A variant compiled from the listed categories loads exactly the set that was listed. */
  lemma ListedCategoriesLoad(t: Catalog, s: set<string>, globalCats: Option<seq<string>>)
    requires t.WellFormed() && s <= t.All()
    ensures Enabled(t, Some(Ordered(t.order, s)), globalCats) == s
  {
    var listed := Ordered(t.order, s);
    CleanWords(t, listed);
    assert forall c :: c in s ==> c in listed;
  }

  // --- Building the stage ---------------------------------------------------------------------

  /** Engine available for exclusion d: the main one when nothing is removed, else a compiled one. */
  ghost predicate Available(t: Catalog, site: Site, policy: Option<Policy>, compiles: Compiler, d: set<string>) {
    var base := Base(t, site, policy);
    base !! d || compiles(site, base - d)
  }

  /** sw is what the build makes of an enabled site. */
  ghost predicate BuiltFor(t: Catalog, site: Site, policy: Option<Policy>, compiles: Compiler, sw: SiteWaf) {
    var base := Base(t, site, policy);
    var ruleSets := RuleSets(Rules(policy), site.domains);
    && sw.main == Engine(base)
    && (forall key :: key in sw.variants ==> exists d :: IsUnion(ruleSets, d) && key == Key(t, d))
    && (forall d :: IsUnion(ruleSets, d) ==>
          (Key(t, d) in sw.variants <==> Available(t, site, policy, compiles, d)))
    && (forall d :: IsUnion(ruleSets, d) && Key(t, d) in sw.variants ==>
          sw.variants[Key(t, d)] == Engine(base - d))
  }

  /** One variant: an alias of the main engine, a compiled engine, or none when the compile fails. */
  method BuildVariant(t: Catalog, site: Site, policy: Option<Policy>, compiles: Compiler,
                      base: set<string>, ex: set<string>) returns (engine: Option<Engine>)
    requires t.WellFormed() && base == Base(t, site, policy)
    ensures engine == if Available(t, site, policy, compiles, ex) then Some(Engine(base - ex)) else None
  {
    EnabledIsValid(t, site.categories, GlobalCats(policy));
    var cats := VariantCategories(t, base, ex);
    AliasTest(t, base, ex);
    if |cats| == |base| {
      assert base - ex == base;
      return Some(Engine(base));
    }
    var loaded := EnabledCategorySet(t, Some(cats), GlobalCats(policy));
    ListedCategoriesLoad(t, base - ex, GlobalCats(policy));
    if !compiles(site, loaded) {
      return None;
    }
    return Some(Engine(loaded));
  }

  /** variants has, under its key, the engine of every set in sets that has one, and nothing else. */
  ghost predicate VariantsOf(t: Catalog, sets: seq<set<string>>, engineOf: set<string> -> Option<Engine>,
                             variants: map<string, Engine>)
  {
    && (forall key :: key in variants ==> exists i :: 0 <= i < |sets| && key == Key(t, sets[i]))
    && (forall i :: 0 <= i < |sets| ==>
          if engineOf(sets[i]).Some? then
            Key(t, sets[i]) in variants && variants[Key(t, sets[i])] == engineOf(sets[i]).value
          else Key(t, sets[i]) !in variants)
  }

  ghost function EngineOf(t: Catalog, site: Site, policy: Option<Policy>, compiles: Compiler)
    : set<string> -> Option<Engine>
  {
    (d: set<string>) =>
      if Available(t, site, policy, compiles, d) then Some(Engine(Base(t, site, policy) - d)) else None
  }

  method BuildVariants(t: Catalog, site: Site, policy: Option<Policy>, compiles: Compiler, sets: seq<set<string>>)
      returns (variants: map<string, Engine>)
    requires t.WellFormed()
    requires forall d :: d in sets ==> d <= t.All()
    ensures VariantsOf(t, sets, EngineOf(t, site, policy, compiles), variants)
  {
    variants := map[];
    var base := EnabledCategorySet(t, site.categories, GlobalCats(policy));
    ghost var engineOf := EngineOf(t, site, policy, compiles);
    for i := 0 to |sets|
      invariant VariantsOf(t, sets[..i], engineOf, variants)
    {
      var key := ScopedCorazaSetKey(t, sets[i]);
      var engine := BuildVariant(t, site, policy, compiles, base, sets[i]);
      assert engine == engineOf(sets[i]);
      ghost var before := variants;
      if engine.Some? {
        variants := variants[key := engine.value];
      }
      OneMoreVariant(t, sets[..i], sets[i], engineOf, before, variants);
      assert sets[..i + 1] == sets[..i] + [sets[i]];
    }
    assert sets[..|sets|] == sets;
  }

  lemma OneMoreVariant(t: Catalog, now: seq<set<string>>, d: set<string>, engineOf: set<string> -> Option<Engine>,
                       before: map<string, Engine>, after: map<string, Engine>)
    requires t.WellFormed() && d <= t.All() && forall e :: e in now ==> e <= t.All()
    requires VariantsOf(t, now, engineOf, before)
    requires after == if engineOf(d).Some? then before[Key(t, d) := engineOf(d).value] else before
    ensures VariantsOf(t, now + [d], engineOf, after)
  {
    KeysGrow(t, now, d, engineOf, before, after);
    forall k | 0 <= k < |now + [d]|
      ensures var e := (now + [d])[k];
        if engineOf(e).Some? then Key(t, e) in after && after[Key(t, e)] == engineOf(e).value
        else Key(t, e) !in after
    {
      EntryFits(t, now, d, engineOf, before, after, k);
    }
  }

  lemma EntryFits(t: Catalog, now: seq<set<string>>, d: set<string>, engineOf: set<string> -> Option<Engine>,
                  before: map<string, Engine>, after: map<string, Engine>, k: nat)
    requires t.WellFormed() && d <= t.All() && forall e :: e in now ==> e <= t.All()
    requires VariantsOf(t, now, engineOf, before)
    requires after == if engineOf(d).Some? then before[Key(t, d) := engineOf(d).value] else before
    requires k <= |now|
    ensures var e := (now + [d])[k];
      if engineOf(e).Some? then Key(t, e) in after && after[Key(t, e)] == engineOf(e).value
      else Key(t, e) !in after
  {
    if k < |now| {
      assert now[k] in now;
      KeyInjective(t, now[k], d);
    } else if engineOf(d) == None && Key(t, d) in before {
      var j :| 0 <= j < |now| && Key(t, d) == Key(t, now[j]);
      assert now[j] in now;
      KeyInjective(t, now[j], d);
    }
  }

  lemma KeysGrow(t: Catalog, now: seq<set<string>>, d: set<string>, engineOf: set<string> -> Option<Engine>,
                 before: map<string, Engine>, after: map<string, Engine>)
    requires VariantsOf(t, now, engineOf, before)
    requires after == if engineOf(d).Some? then before[Key(t, d) := engineOf(d).value] else before
    ensures forall key :: key in after ==> exists i :: 0 <= i < |now + [d]| && key == Key(t, (now + [d])[i])
  {
    forall key | key in after
      ensures exists i :: 0 <= i < |now + [d]| && key == Key(t, (now + [d])[i])
    {
      if key in before {
        var i :| 0 <= i < |now| && key == Key(t, now[i]);
        assert (now + [d])[i] == now[i];
      } else {
        assert (now + [d])[|now|] == d;
      }
    }
  }

  function DomainKey(d: string): string {
    ToLower(TrimSpace(d))
  }

  /** The predicate holds of one of the first n. */
  predicate AnyOf(p: string -> bool, list: seq<string>, n: nat)
    requires n <= |list|
  {
    n > 0 && (AnyOf(p, list, n - 1) || p(list[n - 1]))
  }

  lemma {:induction false} AnyOfExactly(p: string -> bool, list: seq<string>, n: nat)
    requires n <= |list|
    ensures AnyOf(p, list, n) <==> exists i :: 0 <= i < n && p(list[i])
  {
    if n > 0 {
      AnyOfExactly(p, list, n - 1);
    }
  }

  function Keyed(key: string): string -> bool {
    d => DomainKey(d) == key
  }

  /** One of the first n domains has this key. */
  predicate Lists(domains: seq<string>, n: nat, key: string)
    requires n <= |domains|
  {
    AnyOf(Keyed(key), domains, n)
  }

  lemma ListsMore(domains: seq<string>, n: nat, key: string)
    requires n < |domains|
    ensures Lists(domains, n + 1, key) <==> Lists(domains, n, key) || key == DomainKey(domains[n])
  {
    assert Keyed(key)(domains[n]) <==> DomainKey(domains[n]) == key;
  }

  /** A site serves a domain when it is enabled and lists it, up to case and surrounding space. */
  lemma ServesExactly(site: Site, key: string)
    ensures Serves(site, key) <==>
      site.wafEnabled && exists i :: 0 <= i < |site.domains| && ToLower(TrimSpace(site.domains[i])) == key
  {
    var p := Keyed(key);
    AnyOfExactly(p, site.domains, |site.domains|);
    forall i | 0 <= i < |site.domains|
      ensures p(site.domains[i]) <==> ToLower(TrimSpace(site.domains[i])) == key
    {
    }
  }

  ghost predicate Serves(site: Site, key: string) {
    site.wafEnabled && Lists(site.domains, |site.domains|, key)
  }

  /** Site i is the last enabled one that lists the domain. */
  ghost predicate ServedBy(sites: seq<Site>, key: string, i: int) {
    && 0 <= i < |sites| && Serves(sites[i], key)
    && forall j :: i < j < |sites| ==> !Serves(sites[j], key)
  }

  /** The stage maps exactly the served domains, each to the engines built for its last site. */
  ghost predicate Dispatch(sites: seq<Site>, built: seq<SiteWaf>, byDomain: map<string, SiteWaf>) {
    && |built| == |sites|
    && (forall key, i :: ServedBy(sites, key, i) ==> key in byDomain && byDomain[key] == built[i])
    && (forall key :: key in byDomain ==> exists i :: ServedBy(sites, key, i))
  }

  /** The main engine compiles and the scoped-rule cap holds. */
  ghost predicate Buildable(t: Catalog, site: Site, policy: Option<Policy>, compiles: Compiler) {
    && compiles(site, Base(t, site, policy))
    && |RuleSets(Rules(policy), site.domains)| <= MAX_SCOPED_CORAZA_RULES_PER_SITE
  }

  /** Each enabled one of the first n sites could be built, and was. */
  ghost predicate AllBuilt(t: Catalog, sites: seq<Site>, n: nat, policy: Option<Policy>, compiles: Compiler,
                           built: seq<SiteWaf>)
    requires n <= |sites| && n <= |built|
  {
    n == 0 || (
      && AllBuilt(t, sites, n - 1, policy, compiles, built)
      && (sites[n - 1].wafEnabled ==>
            && Buildable(t, sites[n - 1], policy, compiles)
            && BuiltFor(t, sites[n - 1], policy, compiles, built[n - 1])))
  }

  lemma {:induction false} AllBuiltMore(t: Catalog, sites: seq<Site>, n: nat, policy: Option<Policy>,
                                        compiles: Compiler, built: seq<SiteWaf>, sw: SiteWaf)
    requires n <= |sites| && n <= |built|
    ensures AllBuilt(t, sites, n, policy, compiles, built + [sw]) == AllBuilt(t, sites, n, policy, compiles, built)
  {
    if n > 0 {
      AllBuiltMore(t, sites, n - 1, policy, compiles, built, sw);
    }
  }

  lemma VariantsFit(t: Catalog, site: Site, policy: Option<Policy>, compiles: Compiler,
                    sets: seq<set<string>>, variants: map<string, Engine>)
    requires VariantsOf(t, sets, EngineOf(t, site, policy, compiles), variants)
    requires forall d :: d in sets <==> IsUnion(RuleSets(Rules(policy), site.domains), d)
    ensures BuiltFor(t, site, policy, compiles, SiteWaf(Engine(Base(t, site, policy)), variants))
  {
  }

  method BuildSite(t: Catalog, site: Site, policy: Option<Policy>, compiles: Compiler) returns (sw: Option<SiteWaf>)
    requires t.WellFormed() && AllValidated(t, Rules(policy))
    ensures sw.Some? <==> Buildable(t, site, policy, compiles)
    ensures sw.Some? ==> BuiltFor(t, site, policy, compiles, sw.value)
  {
    var base := EnabledCategorySet(t, site.categories, GlobalCats(policy));
    if !compiles(site, base) {
      return None;
    }
    var exclusions := ScopedCorazaExclusionSets(t, Rules(policy), site.domains);
    if exclusions.TooMany? {
      return None;
    }
    var variants := BuildVariants(t, site, policy, compiles, exclusions.sets);
    VariantsFit(t, site, policy, compiles, exclusions.sets, variants);
    return Some(SiteWaf(Engine(base), variants));
  }

  method AddDomains(byDomain: map<string, SiteWaf>, domains: seq<string>, sw: SiteWaf) returns (r: map<string, SiteWaf>)
    ensures forall key :: key in r <==> key in byDomain || Lists(domains, |domains|, key)
    ensures forall key :: key in r ==> r[key] == if Lists(domains, |domains|, key) then sw else byDomain[key]
  {
    r := byDomain;
    for i := 0 to |domains|
      invariant forall key :: key in r <==> key in byDomain || Lists(domains, i, key)
      invariant forall key :: key in r ==> r[key] == if Lists(domains, i, key) then sw else byDomain[key]
    {
      forall key
        ensures Lists(domains, i + 1, key) <==> Lists(domains, i, key) || key == DomainKey(domains[i])
      {
        ListsMore(domains, i, key);
      }
      r := r[DomainKey(domains[i]) := sw];
    }
  }

  /**
   Builds the stage. A main engine that does not compile, or too many scoped rules, fails the build
   with that site; built are the engines of every site, by position.
   */
  method New(t: Catalog, sites: seq<Site>, policy: Option<Policy>, compiles: Compiler)
      returns (result: BuildResult, ghost built: seq<SiteWaf>)
    requires t.WellFormed() && AllValidated(t, Rules(policy))
    ensures result.BuildFailed? ==>
      result.at < |sites| && sites[result.at].wafEnabled && !Buildable(t, sites[result.at], policy, compiles)
    ensures result.Built? ==>
      && Dispatch(sites, built, result.byDomain)
      && AllBuilt(t, sites, |sites|, policy, compiles, built)
  {
    var byDomain: map<string, SiteWaf> := map[];
    built := [];
    for i := 0 to |sites|
      invariant Dispatch(sites[..i], built, byDomain)
      invariant |built| == i && AllBuilt(t, sites, i, policy, compiles, built)
    {
      var site := sites[i];
      var more, engines := AddSite(t, site, policy, compiles, byDomain);
      if more == None {
        return BuildFailed(i), built;
      }
      DispatchGrows(sites[..i], site, built, engines, byDomain, more.value);
      assert sites[..i + 1] == sites[..i] + [site];
      byDomain := more.value;
      AllBuiltMore(t, sites, i, policy, compiles, built, engines);
      built := built + [engines];
    }
    assert sites[..|sites|] == sites;
    return Built(byDomain), built;
  }

  /** The loop body: an enabled site is built and its domains are mapped to it. */
  method AddSite(t: Catalog, site: Site, policy: Option<Policy>, compiles: Compiler, byDomain: map<string, SiteWaf>)
      returns (r: Option<map<string, SiteWaf>>, ghost engines: SiteWaf)
    requires t.WellFormed() && AllValidated(t, Rules(policy))
    ensures r == None <==> site.wafEnabled && !Buildable(t, site, policy, compiles)
    ensures r.Some? && site.wafEnabled ==> BuiltFor(t, site, policy, compiles, engines)
    ensures r.Some? ==> forall key :: key in r.value <==> key in byDomain || Serves(site, key)
    ensures r.Some? ==>
      forall key :: key in r.value ==> r.value[key] == if Serves(site, key) then engines else byDomain[key]
  {
    engines := SiteWaf(Engine({}), map[]);
    if !site.wafEnabled {
      return Some(byDomain), engines;
    }
    var sw := BuildSite(t, site, policy, compiles);
    if sw == None {
      return None, engines;
    }
    var more := AddDomains(byDomain, site.domains, sw.value);
    return Some(more), sw.value;
  }

  lemma DispatchGrows(now: seq<Site>, site: Site, built: seq<SiteWaf>, sw: SiteWaf,
                      before: map<string, SiteWaf>, after: map<string, SiteWaf>)
    requires Dispatch(now, built, before)
    requires forall key :: key in after <==> key in before || Serves(site, key)
    requires forall key :: key in after ==> after[key] == if Serves(site, key) then sw else before[key]
    ensures Dispatch(now + [site], built + [sw], after)
  {
    var next := now + [site];
    forall key, k | ServedBy(next, key, k)
      ensures key in after && after[key] == (built + [sw])[k]
    {
      ServedLatest(now, site, key, k);
    }
    forall key | key in after
      ensures exists k :: ServedBy(next, key, k)
    {
      if Serves(site, key) {
        ServedHere(now, site, key);
      } else {
        var k :| ServedBy(now, key, k);
        ServedEarlier(now, site, key, k);
      }
    }
  }

  lemma ServedLatest(now: seq<Site>, site: Site, key: string, k: int)
    requires ServedBy(now + [site], key, k)
    ensures if Serves(site, key) then k == |now| else ServedBy(now, key, k)
  {
    var next := now + [site];
    assert next[|now|] == site;
    if k < |now| {
      assert !Serves(next[|now|], key);
      forall j | k < j < |now|
        ensures !Serves(now[j], key)
      {
        assert next[j] == now[j];
      }
    }
  }

  lemma ServedHere(now: seq<Site>, site: Site, key: string)
    requires Serves(site, key)
    ensures ServedBy(now + [site], key, |now|)
  {
    assert (now + [site])[|now|] == site;
  }

  lemma ServedEarlier(now: seq<Site>, site: Site, key: string, k: int)
    requires ServedBy(now, key, k) && !Serves(site, key)
    ensures ServedBy(now + [site], key, k)
  {
  }

  // --- Selecting an engine at request time ----------------------------------------------------

  /** The categories the disable registry reports off. */
  function DisabledCategories(t: Catalog, disabled: set<string>): set<string> {
    set c | c in t.order && SCOPE_PREFIX + c in disabled
  }

  /** The engine a request runs through when the registry reports these stage names for the site. */
  function Picked(t: Catalog, sw: SiteWaf, disabled: set<string>): Engine {
    var key := Key(t, DisabledCategories(t, disabled));
    if key != "" && key in sw.variants then sw.variants[key] else sw.main
  }

  /** The variant lookup; the second result is the unmatched exclusion set of the fallback warning. */
  method PickVariant(t: Catalog, sw: SiteWaf, gate: Option<set<string>>) returns (variant: Option<Engine>, why: string)
    requires t.WellFormed()
    ensures (if variant.Some? then variant.value else sw.main) ==
      if gate.Some? then Picked(t, sw, gate.value) else sw.main
    ensures why != "" <==>
      && gate.Some? && sw.variants != map[] && DisabledCategories(t, gate.value) != {}
      && Key(t, DisabledCategories(t, gate.value)) !in sw.variants
    ensures why != "" ==> variant == None && why == Key(t, DisabledCategories(t, gate.value))
  {
    if sw.variants == map[] || gate == None {
      return None, "";
    }
    var d := DisabledCategories(t, gate.value);
    var excluded: seq<string> := [];
    for i := 0 to |t.order|
      invariant excluded == Ordered(t.order[..i], d)
    {
      assert t.order[..i + 1][..i] == t.order[..i];
      if SCOPE_PREFIX + t.order[i] in gate.value {
        excluded := excluded + [t.order[i]];
      }
    }
    assert t.order[..|t.order|] == t.order;
    assert excluded == Ordered(t.order, d);
    assert forall c :: c in excluded ==> IsWord(c);
    JoinOfWords(excluded, ',');
    assert excluded == [] <==> d == {} by {
      if c :| c in d {
        assert c in excluded;
      }
      if excluded != [] {
        assert excluded[0] in d;
      }
    }
    if |excluded| == 0 {
      return None, "";
    }
    if Join(excluded, ',') in sw.variants {
      return Some(sw.variants[Join(excluded, ',')]), "";
    }
    return None, Join(excluded, ',');
  }

  /** One of the names is the site's first domain, up to case. */
  ghost predicate NamesFirst(sites: seq<string>, domains: seq<string>) {
    domains != [] && exists name :: name in sites && ToLower(name) == ToLower(domains[0])
  }

  /** The stage names registered by a set of hit rules, all of which apply to the site. */
  ghost function HitStages(rules: seq<Rule>, domains: seq<string>, hits: set<nat>): set<string> {
    set i, stage | i in hits && i < |rules| && rules[i].enabled && rules[i].disables
      && (rules[i].sites == [] || NamesFirst(rules[i].sites, domains)) && stage in rules[i].stages :: stage
  }

  /** What one rule registers. */
  ghost function StagesOf(rule: Rule, domains: seq<string>, hit: bool): set<string> {
    if hit && rule.enabled && rule.disables && RuleAppliesToSite(rule.sites, domains)
    then set stage | stage in rule.stages else {}
  }

  lemma HitStagesLast(rules: seq<Rule>, domains: seq<string>, hits: set<nat>)
    requires rules != []
    ensures var n := |rules| - 1;
      HitStages(rules, domains, hits) == HitStages(rules[..n], domains, hits) + StagesOf(rules[n], domains, n in hits)
  {
  }

  lemma StagesOfCategories(t: Catalog, rule: Rule, domains: seq<string>, hit: bool)
    requires t.WellFormed() && Validated(t, rule)
    ensures DisabledCategories(t, StagesOf(rule, domains, hit)) ==
      if hit && Counts(rule, domains) then RuleSet(rule.stages) else {}
  {
  }

  lemma DisabledUnion(t: Catalog, a: set<string>, b: set<string>)
    ensures DisabledCategories(t, a + b) == DisabledCategories(t, a) + DisabledCategories(t, b)
  {
  }

  lemma ChosenSnoc(sets: seq<set<string>>, s: set<string>, pick: seq<bool>, hit: bool)
    requires |pick| == |sets|
    ensures Chosen(sets + [s], pick + [hit]) == Chosen(sets, pick) + if hit then s else {}
  {
  }

  /** What the registry reports after any rules were hit is the union of a choice of rule sets. */
  lemma {:induction false} HitsAreUnions(t: Catalog, rules: seq<Rule>, domains: seq<string>, hits: set<nat>)
      returns (pick: seq<bool>)
    requires t.WellFormed() && AllValidated(t, rules)
    ensures |pick| == |RuleSets(rules, domains)|
    ensures Chosen(RuleSets(rules, domains), pick) == DisabledCategories(t, HitStages(rules, domains, hits))
  {
    if rules == [] {
      pick := [];
    } else {
      var n := |rules| - 1;
      var last, hit := rules[n], n in hits;
      pick := HitsAreUnions(t, rules[..n], domains, hits);
      HitStagesLast(rules, domains, hits);
      DisabledUnion(t, HitStages(rules[..n], domains, hits), StagesOf(last, domains, hit));
      StagesOfCategories(t, last, domains, hit);
      if Counts(last, domains) {
        ChosenSnoc(RuleSets(rules[..n], domains), RuleSet(last.stages), pick, hit);
        pick := pick + [hit];
      }
    }
  }

  /**
   Main result: for every validated policy and any rules hit so far, the selected engine loads the
   site's categories minus the disabled ones. Only when that variant's compile was skipped does the
   fallback load more, and never more than the site's own set.
   */
  lemma SelectedEngineIsExact(t: Catalog, site: Site, policy: Option<Policy>, compiles: Compiler,
                              sw: SiteWaf, hits: set<nat>)
    requires t.WellFormed() && AllValidated(t, Rules(policy))
    requires BuiltFor(t, site, policy, compiles, sw)
    ensures var base := Base(t, site, policy);
      var disabled := HitStages(Rules(policy), site.domains, hits);
      var d := DisabledCategories(t, disabled);
      Picked(t, sw, disabled).categories ==
        if d == {} || Available(t, site, policy, compiles, d) then base - d else base
  {
    var disabled := HitStages(Rules(policy), site.domains, hits);
    var d := DisabledCategories(t, disabled);
    var pick := HitsAreUnions(t, Rules(policy), site.domains, hits);
    var ruleSets := RuleSets(Rules(policy), site.domains);
    var od := Ordered(t.order, d);
    assert forall c :: c in od ==> IsWord(c);
    JoinOfWords(od, ',');
    if d == {} {
      NothingOrdered(t.order);
      assert Base(t, site, policy) - d == Base(t, site, policy);
    } else {
      var c :| c in d;
      assert c in od;
      if true !in pick {
        NoneChosen(ruleSets, pick);
        assert false;
      }
      assert IsUnion(ruleSets, d);
    }
  }

  /**
   One rule from the policy to the engine: for an enabled disabling rule with a scoped stage and no site
   list, or one that names the site's first domain, an engine without the rule's categories is in the
   built variants unless its compile failed, and a request that hits just this rule runs through it.
   */
  lemma RuleHasEngine(t: Catalog, site: Site, policy: Option<Policy>, compiles: Compiler, sw: SiteWaf,
                      i: nat, s: set<string>)
    requires t.WellFormed() && AllValidated(t, Rules(policy)) && BuiltFor(t, site, policy, compiles, sw)
    requires i < |Rules(policy)| && Reserves(Rules(policy)[i], site.domains, s)
    ensures var base := Base(t, site, policy);
      && (Key(t, s) in sw.variants <==> base !! s || compiles(site, base - s))
      && (Key(t, s) in sw.variants ==> sw.variants[Key(t, s)] == Engine(base - s))
      && Picked(t, sw, set stage | stage in Rules(policy)[i].stages).categories ==
        if base !! s || compiles(site, base - s) then base - s else base
  {
    var rules := Rules(policy);
    assert HasRuleFor(rules, site.domains, s);
    RuleSetsExactly(rules, site.domains, s);
    SetIsUnion(RuleSets(rules, site.domains), s);
    HitByItself(t, rules, site.domains, i, s);
    SelectedEngineIsExact(t, site, policy, compiles, sw, {i});
  }

  lemma HitByItself(t: Catalog, rules: seq<Rule>, domains: seq<string>, i: nat, s: set<string>)
    requires t.WellFormed() && AllValidated(t, rules) && i < |rules| && Reserves(rules[i], domains, s)
    ensures HitStages(rules, domains, {i}) == set stage | stage in rules[i].stages
    ensures DisabledCategories(t, HitStages(rules, domains, {i})) == s
  {
    CountsExactly(rules[i], domains, s);
    ValidatedAt(t, rules, i);
    StagesOfCategories(t, rules[i], domains, true);
  }

  lemma {:induction false} ValidatedAt(t: Catalog, rules: seq<Rule>, i: nat)
    requires AllValidated(t, rules) && i < |rules|
    ensures Validated(t, rules[i])
    decreases |rules|
  {
    if i < |rules| - 1 {
      ValidatedAt(t, rules[..|rules| - 1], i);
    }
  }

  lemma {:induction false} BuiltAt(t: Catalog, sites: seq<Site>, n: nat, policy: Option<Policy>, compiles: Compiler,
                                   built: seq<SiteWaf>, i: nat)
    requires i < n <= |sites| && n <= |built| && AllBuilt(t, sites, n, policy, compiles, built) && sites[i].wafEnabled
    ensures BuiltFor(t, sites[i], policy, compiles, built[i])
    decreases n
  {
    if i < n - 1 {
      BuiltAt(t, sites, n - 1, policy, compiles, built, i);
    }
  }

  /** End to end: the engine a request for a served domain runs through, on any stage that New builds. */
  lemma DomainEngineIsExact(t: Catalog, sites: seq<Site>, policy: Option<Policy>, compiles: Compiler,
                            built: seq<SiteWaf>, byDomain: map<string, SiteWaf>, key: string, i: nat, hits: set<nat>)
    requires t.WellFormed() && AllValidated(t, Rules(policy))
    requires Dispatch(sites, built, byDomain) && AllBuilt(t, sites, |sites|, policy, compiles, built)
    requires ServedBy(sites, key, i)
    ensures var base := Base(t, sites[i], policy);
      var disabled := HitStages(Rules(policy), sites[i].domains, hits);
      var d := DisabledCategories(t, disabled);
      key in byDomain && Picked(t, byDomain[key], disabled).categories ==
        if d == {} || Available(t, sites[i], policy, compiles, d) then base - d else base
  {
    BuiltAt(t, sites, |sites|, policy, compiles, built, i);
    SelectedEngineIsExact(t, sites[i], policy, compiles, built[i], hits);
  }

  lemma NothingOrdered(list: seq<string>)
    ensures Ordered(list, {}) == []
  {
  }

  lemma {:induction false} NoneChosen(sets: seq<set<string>>, pick: seq<bool>)
    requires |pick| == |sets| && true !in pick
    ensures Chosen(sets, pick) == {}
  {
    if sets != [] {
      assert pick[|sets| - 1] in pick;
      NoneChosen(sets[..|sets| - 1], pick[..|sets| - 1]);
    }
  }

  /** Whatever the registry reports, even sets no rules explain, detection never widens and never loses more. */
  lemma SelectedEngineIsBounded(t: Catalog, site: Site, policy: Option<Policy>, compiles: Compiler,
                                sw: SiteWaf, disabled: set<string>)
    requires t.WellFormed() && AllValidated(t, Rules(policy))
    requires BuiltFor(t, site, policy, compiles, sw)
    ensures Base(t, site, policy) - DisabledCategories(t, disabled) <= Picked(t, sw, disabled).categories
    ensures Picked(t, sw, disabled).categories <= Base(t, site, policy)
  {
    var d := DisabledCategories(t, disabled);
    var ruleSets := RuleSets(Rules(policy), site.domains);
    if Key(t, d) in sw.variants {
      var u :| IsUnion(ruleSets, u) && Key(t, d) == Key(t, u);
      RuleSetsValid(t, Rules(policy), site.domains);
      UnionIsValid(t, ruleSets, u);
      KeyInjective(t, d, u);
    }
  }
}
