/**
 Matcher rules that disable detection categories, and the category sets a site needs variant
 engines for: every union of a nonempty subset of its applicable rules' sets.
 */
module Matcher {
  import opened Text

  const STAGE_CORAZA := "coraza"
  const SCOPE_PREFIX := "coraza:"
  const MAX_SCOPED_CORAZA_RULES_PER_SITE := 4

  /** The category tables: detection order, include file per category, and the modules a rule may disable. */
  datatype Catalog = Catalog(order: seq<string>, files: map<string, string>, modules: set<string>) {

    predicate ValidCategory(c: string) {
      c in files
    }

    function All(): set<string> {
      set c | c in order
    }

    /** Both tables name the same categories, each a lower-case word listed once. */
    ghost predicate WellFormed() {
      && (forall c :: c in order <==> c in files)
      && (forall c :: c in order ==> IsWord(c))
      && (forall i, j :: 0 <= i < j < |order| ==> order[i] != order[j])
    }
  }

  predicate IsWord(c: string) {
    c != "" && forall i :: 0 <= i < |c| ==> 'a' <= c[i] <= 'z'
  }

  const CRS_ORDER: seq<string> :=
    ["sqli", "xss", "rce", "lfi", "rfi", "php", "generic", "session", "java", "scanner"]

  const CRS_FILES: map<string, string> := map[
    "sqli" := "REQUEST-942-APPLICATION-ATTACK-SQLI.conf",
    "xss" := "REQUEST-941-APPLICATION-ATTACK-XSS.conf",
    "rce" := "REQUEST-932-APPLICATION-ATTACK-RCE.conf",
    "lfi" := "REQUEST-930-APPLICATION-ATTACK-LFI.conf",
    "rfi" := "REQUEST-931-APPLICATION-ATTACK-RFI.conf",
    "php" := "REQUEST-933-APPLICATION-ATTACK-PHP.conf",
    "generic" := "REQUEST-934-APPLICATION-ATTACK-GENERIC.conf",
    "session" := "REQUEST-943-APPLICATION-ATTACK-SESSION-FIXATION.conf",
    "java" := "REQUEST-944-APPLICATION-ATTACK-JAVA.conf",
    "scanner" := "REQUEST-913-SCANNER-DETECTION.conf"]

  const CRS_MODULES: set<string> := {"botdetect", "botchallenge", "captcha", "ratelimit", "semantic", "coraza"}

  /** The program's own tables. */
  const CRS := Catalog(CRS_ORDER, CRS_FILES, CRS_MODULES)

  lemma CrsWellFormed()
    ensures CRS.WellFormed()
  {
    CrsWords();
  }

  lemma CrsWords()
    ensures forall i :: 0 <= i < |CRS_ORDER| ==> IsWord(CRS_ORDER[i])
  {
  }

  // --- Validation of a disable rule -----------------------------------------------------------

  predicate IsScoped(stage: string) {
    SCOPE_PREFIX <= stage
  }

  /** The category a scoped stage names, spelled the canonical way. */
  function ScopeCategory(stage: string): string
    requires IsScoped(stage)
  {
    ToLower(TrimSpace(stage[|SCOPE_PREFIX|..]))
  }

  function Canonical(stage: string): string {
    if IsScoped(stage) then SCOPE_PREFIX + ScopeCategory(stage) else stage
  }

  predicate Acceptable(t: Catalog, stage: string) {
    if IsScoped(stage) then t.ValidCategory(ScopeCategory(stage)) else stage == STAGE_CORAZA || stage in t.modules
  }

  /** One of the first n stages is the whole detection stage. */
  predicate HasWhole(stages: seq<string>, n: nat)
    requires n <= |stages|
  {
    n > 0 && (HasWhole(stages, n - 1) || stages[n - 1] == STAGE_CORAZA)
  }

  predicate HasScoped(stages: seq<string>, n: nat)
    requires n <= |stages|
  {
    n > 0 && (HasScoped(stages, n - 1) || IsScoped(stages[n - 1]))
  }

  /** The predicate holds of the first n. */
  predicate AllOf(p: string -> bool, s: seq<string>, n: nat)
    requires n <= |s|
  {
    n == 0 || (AllOf(p, s, n - 1) && p(s[n - 1]))
  }

  lemma {:induction false} AllOfEarlier(p: string -> bool, s: seq<string>, i: nat, n: nat)
    requires i <= n <= |s| && AllOf(p, s, n)
    ensures AllOf(p, s, i)
    decreases n
  {
    if i < n {
      AllOfEarlier(p, s, i, n - 1);
    }
  }

  function Accepts(t: Catalog): string -> bool {
    stage => Acceptable(t, stage)
  }

  predicate AllAcceptable(t: Catalog, stages: seq<string>, n: nat)
    requires n <= |stages|
  {
    AllOf(Accepts(t), stages, n)
  }

  /** The list with its first n stages in canonical spelling. */
  function Rewritten(was: seq<string>, n: nat): seq<string>
    requires n <= |was|
  {
    seq(|was|, i requires 0 <= i < |was| => if i < n then Canonical(was[i]) else was[i])
  }

  lemma RewrittenMore(was: seq<string>, i: nat)
    requires i < |was|
    ensures |Rewritten(was, i)| == |was| && Rewritten(was, i)[i] == was[i]
    ensures Rewritten(was, i + 1) == Rewritten(was, i)[i := Canonical(was[i])]
  {
  }

  /**
   The disable branch of the validation, which rewrites the stage list in place. A rule may disable
   the whole stage or single categories, not both. A refused list is rewritten up to the refusal.
   */
  method ValidateStages(t: Catalog, stages: array<string>) returns (ok: bool)
    modifies stages
    ensures var was := old(stages[..]);
      var n := |was|;
      && (ok <==> was != [] && AllAcceptable(t, was, n) && !(HasWhole(was, n) && HasScoped(was, n)))
      && (ok ==> stages[..] == Rewritten(was, n))
      && exists i :: 0 <= i <= n && AllAcceptable(t, was, i) && stages[..] == Rewritten(was, i)
  {
    ghost var was := stages[..];
    assert stages[..] == Rewritten(was, 0);
    if stages.Length == 0 {
      return false;
    }
    var hasCoraza, hasScoped := false, false;
    for i := 0 to stages.Length
      invariant AllAcceptable(t, was, i)
      invariant stages[..] == Rewritten(was, i)
      invariant hasCoraza <==> HasWhole(was, i)
      invariant hasScoped <==> HasScoped(was, i)
    {
      var accepted, whole, scoped := CheckStage(t, stages, i, was);
      if !accepted {
        return false;
      }
      hasScoped := hasScoped || scoped;
      hasCoraza := hasCoraza || whole;
    }
    return !(hasCoraza && hasScoped);
  }

  /** The loop body: a scoped stage is rewritten, others must be known. */
  method CheckStage(t: Catalog, stages: array<string>, i: nat, ghost was: seq<string>)
    returns (accepted: bool, whole: bool, scoped: bool)
    requires i < stages.Length == |was| && stages[..] == Rewritten(was, i) && AllAcceptable(t, was, i)
    modifies stages
    ensures stages[..] == Rewritten(was, if accepted then i + 1 else i)
    ensures if accepted then AllAcceptable(t, was, i + 1) else !AllAcceptable(t, was, |was|)
    ensures HasWhole(was, i + 1) == (HasWhole(was, i) || whole)
    ensures HasScoped(was, i + 1) == (HasScoped(was, i) || scoped)
  {
    RewrittenMore(was, i);
    assert stages[..][i] == was[i];
    NextStage(t, was, i);
    accepted, whole, scoped := RewriteStage(t, stages, i);
  }

  /** What the stage at i adds to the verdicts about the list. */
  lemma NextStage(t: Catalog, was: seq<string>, i: nat)
    requires i < |was| && AllAcceptable(t, was, i)
    ensures if Acceptable(t, was[i]) then AllAcceptable(t, was, i + 1) else !AllAcceptable(t, was, |was|)
    ensures HasWhole(was, i + 1) == (HasWhole(was, i) || was[i] == STAGE_CORAZA)
    ensures HasScoped(was, i + 1) == (HasScoped(was, i) || IsScoped(was[i]))
  {
    if AllAcceptable(t, was, |was|) {
      AllOfEarlier(Accepts(t), was, i + 1, |was|);
    }
  }

  method RewriteStage(t: Catalog, stages: array<string>, i: nat) returns (accepted: bool, whole: bool, scoped: bool)
    requires i < stages.Length
    modifies stages
    ensures accepted == Acceptable(t, old(stages[i]))
    ensures whole == (old(stages[i]) == STAGE_CORAZA)
    ensures scoped == IsScoped(old(stages[i]))
    ensures stages[..] == if accepted then old(stages[..])[i := Canonical(old(stages[i]))] else old(stages[..])
  {
    var st := stages[i];
    if IsScoped(st) {
      var cat := ToLower(TrimSpace(st[|SCOPE_PREFIX|..]));
      if !t.ValidCategory(cat) {
        return false, false, true;
      }
      stages[i] := SCOPE_PREFIX + cat;
      return true, false, true;
    }
    if st == STAGE_CORAZA {
      return true, true, false;
    }
    return st in t.modules, false, false;
  }

  /** Which single stages are known, and how they are spelled afterwards. */
  lemma StageExactly(t: Catalog, stage: string, rest: string)
    ensures stage == "coraza:" + rest ==>
      && (Acceptable(t, stage) <==> ToLower(TrimSpace(rest)) in t.files)
      && Canonical(stage) == "coraza:" + ToLower(TrimSpace(rest))
    ensures !("coraza:" <= stage) ==>
      && (Acceptable(t, stage) <==> stage == "coraza" || stage in t.modules)
      && Canonical(stage) == stage
  {
    if stage == SCOPE_PREFIX + rest {
      assert stage[|SCOPE_PREFIX|..] == rest;
    }
  }

  /** What the prefix-wise verdicts of the validation say about the whole list. */
  lemma {:induction false} AllOfExactly(p: string -> bool, s: seq<string>, n: nat)
    requires n <= |s|
    ensures AllOf(p, s, n) <==> forall i :: 0 <= i < n ==> p(s[i])
  {
    if n > 0 {
      AllOfExactly(p, s, n - 1);
    }
  }

  lemma {:induction false} HasWholeExactly(stages: seq<string>, n: nat)
    requires n <= |stages|
    ensures HasWhole(stages, n) <==> exists i :: 0 <= i < n && stages[i] == "coraza"
  {
    if n > 0 {
      HasWholeExactly(stages, n - 1);
    }
  }

  lemma {:induction false} HasScopedExactly(stages: seq<string>, n: nat)
    requires n <= |stages|
    ensures HasScoped(stages, n) <==> exists i :: 0 <= i < n && "coraza:" <= stages[i]
  {
    if n > 0 {
      HasScopedExactly(stages, n - 1);
    }
  }

  lemma CanonicalIsValid(t: Catalog, stage: string)
    requires t.WellFormed() && Acceptable(t, stage)
    ensures Acceptable(t, Canonical(stage)) && Canonical(Canonical(stage)) == Canonical(stage)
    ensures IsScoped(stage) ==> IsScoped(Canonical(stage)) && Canonical(stage)[|SCOPE_PREFIX|..] in t.All()
  {
    if IsScoped(stage) {
      var cat := ScopeCategory(stage);
      var canonical := SCOPE_PREFIX + cat;
      assert canonical[|SCOPE_PREFIX|..] == cat && IsScoped(canonical);
      WordIsPlain(cat);
    }
  }

  lemma WordIsPlain(c: string)
    requires IsWord(c)
    ensures TrimSpace(c) == c && ToLower(c) == c && ',' !in c
  {
    TrimNothing(c);
  }

  // --- The category sets of a site ------------------------------------------------------------

  datatype Rule = Rule(enabled: bool, disables: bool, sites: seq<string>, stages: seq<string>)

  /** What validation leaves behind. */
  predicate Validated(t: Catalog, rule: Rule) {
    rule.disables ==> forall stage :: stage in rule.stages ==> Acceptable(t, stage) && Canonical(stage) == stage
  }

  /** What an accepted disable list is rewritten to satisfies what the engine build relies on. */
  lemma AcceptedIsValidated(t: Catalog, was: seq<string>, rule: Rule)
    requires t.WellFormed() && AllAcceptable(t, was, |was|) && rule.stages == Rewritten(was, |was|)
    ensures Validated(t, rule)
  {
    forall stage | stage in rule.stages
      ensures Acceptable(t, stage) && Canonical(stage) == stage
    {
      var i :| 0 <= i < |was| && stage == Canonical(was[i]);
      AllOfEarlier(Accepts(t), was, i + 1, |was|);
      CanonicalIsValid(t, was[i]);
    }
  }

  predicate RuleAppliesToSite(sites: seq<string>, domains: seq<string>) {
    sites == [] || (domains != [] && exists s :: s in sites && EqualFold(s, domains[0]))
  }

  function RuleSet(stages: seq<string>): set<string> {
    set stage | stage in stages && IsScoped(stage) :: stage[|SCOPE_PREFIX|..]
  }

  predicate Counts(rule: Rule, domains: seq<string>) {
    rule.enabled && rule.disables && RuleAppliesToSite(rule.sites, domains) && RuleSet(rule.stages) != {}
  }

  /** The category sets of the applicable rules, in rule order. */
  function RuleSets(rules: seq<Rule>, domains: seq<string>): seq<set<string>> {
    if rules == [] then []
    else
      var front := RuleSets(rules[..|rules| - 1], domains);
      var last := rules[|rules| - 1];
      if Counts(last, domains) then front + [RuleSet(last.stages)] else front
  }

  /** rules has an enabled disabling rule for these domains whose scoped stages name exactly the categories of s. */
  ghost predicate HasRuleFor(rules: seq<Rule>, domains: seq<string>, s: set<string>) {
    exists i | 0 <= i < |rules| :: Reserves(rules[i], domains, s)
  }

  ghost predicate Reserves(rule: Rule, domains: seq<string>, s: set<string>) {
    && rule.enabled && rule.disables
    && (rule.sites == [] || (domains != [] && exists site :: site in rule.sites && ToLower(site) == ToLower(domains[0])))
    && s != {} && forall c :: c in s <==> "coraza:" + c in rule.stages
  }

  /** The collected sets are exactly those that the fields of the rules call for. */
  lemma {:induction false} RuleSetsExactly(rules: seq<Rule>, domains: seq<string>, s: set<string>)
    ensures s in RuleSets(rules, domains) <==> HasRuleFor(rules, domains, s)
  {
    if rules != [] {
      var n := |rules| - 1;
      RuleSetsExactly(rules[..n], domains, s);
      CountsExactly(rules[n], domains, s);
      assert HasRuleFor(rules, domains, s) <==> HasRuleFor(rules[..n], domains, s) || Reserves(rules[n], domains, s);
    }
  }

  lemma CountsExactly(rule: Rule, domains: seq<string>, s: set<string>)
    ensures Counts(rule, domains) && s == RuleSet(rule.stages) <==> Reserves(rule, domains, s)
  {
    forall c
      ensures c in RuleSet(rule.stages) <==> "coraza:" + c in rule.stages
    {
      RuleSetMember(rule.stages, c);
    }
  }

  lemma RuleSetMember(stages: seq<string>, c: string)
    ensures c in RuleSet(stages) <==> SCOPE_PREFIX + c in stages
  {
    if c in RuleSet(stages) {
      var stage :| stage in stages && IsScoped(stage) && c == stage[|SCOPE_PREFIX|..];
      assert stage == SCOPE_PREFIX + c;
    }
    if SCOPE_PREFIX + c in stages {
      assert IsScoped(SCOPE_PREFIX + c) && (SCOPE_PREFIX + c)[|SCOPE_PREFIX|..] == c;
    }
  }

  /** The union of the chosen sets. */
  function Chosen(sets: seq<set<string>>, pick: seq<bool>): set<string>
    requires |pick| == |sets|
  {
    if sets == [] then {}
    else
      var n := |sets| - 1;
      Chosen(sets[..n], pick[..n]) + (if pick[n] then sets[n] else {})
  }

  /** d is the union of some nonempty choice of the sets. */
  ghost predicate IsUnion(sets: seq<set<string>>, d: set<string>) {
    exists pick: seq<bool> :: |pick| == |sets| && true in pick && d == Chosen(sets, pick)
  }

  function Pow2(n: nat): (p: nat)
    ensures p >= 1
  {
    if n == 0 then 1 else 2 * Pow2(n - 1)
  }

  /** mask & (1 << bit) != 0 */
  predicate Bit(mask: nat, bit: nat) {
    (mask / Pow2(bit)) % 2 == 1
  }

  function Bits(mask: nat, n: nat): seq<bool> {
    seq(n, i requires 0 <= i < n => Bit(mask, i))
  }

  function MaskOf(pick: seq<bool>): nat {
    if pick == [] then 0
    else
      var n := |pick| - 1;
      MaskOf(pick[..n]) + if pick[n] then Pow2(n) else 0
  }

  lemma {:induction false} EvenMultiple(n: nat, k: nat) returns (m: nat)
    requires k < n
    ensures m >= 0 && Pow2(n) == m * Pow2(k) && m % 2 == 0
  {
    if n == k + 1 {
      m := 2;
    } else {
      var half := EvenMultiple(n - 1, k);
      m := half + half;
      Distribute(half, half, Pow2(k));
      assert Pow2(n) == Pow2(n - 1) + Pow2(n - 1);
    }
  }

  lemma DivideUnique(a: nat, p: nat, q: nat, r: nat)
    requires a == q * p + r && r < p
    ensures a / p == q
  {
    var q', r' := a / p, a % p;
    assert a == q' * p + r';
    Distribute(q - q', q', p);
    if q - q' >= 1 {
      Scale(q - q', p);
    } else if q' - q >= 1 {
      Distribute(q' - q, q, p);
      Scale(q' - q, p);
    }
  }

  lemma Distribute(a: int, b: int, p: int)
    ensures (a + b) * p == a * p + b * p
  {
  }

  lemma Scale(d: int, p: nat)
    requires d >= 1
    ensures d * p >= p
  {
  }

  lemma DivideShift(a: nat, m: nat, p: nat)
    requires p > 0
    ensures (a + m * p) / p == a / p + m
  {
    var q, r := a / p, a % p;
    assert a == q * p + r;
    Distribute(q, m, p);
    assert m * p >= 0;
    DivideUnique(a + m * p, p, q + m, r);
  }

  lemma HighBit(low: nat, n: nat, k: nat)
    requires k < n
    ensures Bit(low + Pow2(n), k) == Bit(low, k)
  {
    var m := EvenMultiple(n, k);
    DivideShift(low, m, Pow2(k));
    SameParity(low / Pow2(k), m);
  }

  lemma SameParity(q: nat, m: nat)
    requires m % 2 == 0
    ensures (q + m) % 2 == q % 2
  {
  }

  lemma TopBit(low: nat, n: nat)
    requires low < Pow2(n)
    ensures !Bit(low, n) && Bit(low + Pow2(n), n)
  {
    DivideUnique(low, Pow2(n), 0, low);
    DivideUnique(low + Pow2(n), Pow2(n), 1, low);
  }

  /** Every choice is the bit pattern of the mask MaskOf. */
  lemma {:induction false} MaskHasBits(pick: seq<bool>)
    ensures MaskOf(pick) < Pow2(|pick|)
    ensures forall k :: 0 <= k < |pick| ==> Bit(MaskOf(pick), k) == pick[k]
  {
    if pick != [] {
      var n := |pick| - 1;
      var low := MaskOf(pick[..n]);
      MaskHasBits(pick[..n]);
      TopBit(low, n);
      forall k | 0 <= k < n
        ensures Bit(MaskOf(pick), k) == pick[k]
      {
        assert Bit(low, k) == pick[..n][k];
        HighBit(low, n, k);
      }
    }
  }

  /** Each single set is a union of a choice. */
  lemma SetIsUnion(sets: seq<set<string>>, s: set<string>)
    requires s in sets
    ensures IsUnion(sets, s)
  {
    var i :| 0 <= i < |sets| && sets[i] == s;
    var pick := seq(|sets|, j => j == i);
    assert pick[i];
    ChosenOne(sets, i, |sets|);
    assert sets[..|sets|] == sets;
  }

  lemma {:induction false} ChosenOne(sets: seq<set<string>>, i: nat, n: nat)
    requires i < |sets| && n <= |sets|
    ensures Chosen(sets[..n], seq(n, j => j == i)) == if i < n then sets[i] else {}
  {
    if n > 0 {
      ChosenOne(sets, i, n - 1);
      assert sets[..n][..n - 1] == sets[..n - 1] && seq(n, j => j == i)[..n - 1] == seq(n - 1, j => j == i);
    }
  }

  lemma {:induction false} MaskIsPositive(pick: seq<bool>)
    requires true in pick
    ensures MaskOf(pick) > 0
  {
    var n := |pick| - 1;
    if !pick[n] {
      var i :| 0 <= i < n && pick[i];
      assert pick[..n][i];
      MaskIsPositive(pick[..n]);
    }
  }

  /** A nonzero mask below 2^n has a bit among the first n. */
  lemma {:induction false} MaskPicksSome(mask: nat, n: nat)
    requires 0 < mask < Pow2(n)
    ensures exists k :: 0 <= k < n && Bit(mask, k)
  {
    var m := n - 1;
    if mask >= Pow2(m) {
      DivideUnique(mask, Pow2(m), 1, mask - Pow2(m));
      assert Bit(mask, m);
    } else {
      MaskPicksSome(mask, m);
      var k :| 0 <= k < m && Bit(mask, k);
    }
  }

  // --- Canonical keys -------------------------------------------------------------------------

  /** The members of list that are in s, in list order. */
  function Ordered(list: seq<string>, s: set<string>): (r: seq<string>)
    ensures forall c :: c in r <==> c in list && c in s
  {
    if list == [] then []
    else
      var front := Ordered(list[..|list| - 1], s);
      var last := list[|list| - 1];
      if last in s then front + [last] else front
  }

  function Key(t: Catalog, s: set<string>): string {
    Join(Ordered(t.order, s), ',')
  }

  lemma {:induction false} JoinSnoc(parts: seq<string>, last: string, sep: char)
    ensures Join(parts + [last], sep) == if parts == [] then last else Join(parts, sep) + [sep] + last
  {
    if parts == [] {
    } else if |parts| == 1 {
      assert (parts + [last])[1..] == [last];
    } else {
      JoinSnoc(parts[1..], last, sep);
      assert (parts + [last])[1..] == parts[1..] + [last];
    }
  }

  lemma JoinOfWords(parts: seq<string>, sep: char)
    requires forall part :: part in parts ==> part != ""
    ensures Join(parts, sep) == "" <==> parts == []
  {
    if |parts| > 0 {
      assert parts[0] in parts;
    }
  }

  /** The string builder writes exactly the comma-joined categories. */
  method ScopedCorazaSetKey(t: Catalog, excluded: set<string>) returns (key: string)
    requires t.WellFormed()
    ensures key == Key(t, excluded)
  {
    key := "";
    for i := 0 to |t.order|
      invariant key == Join(Ordered(t.order[..i], excluded), ',')
    {
      var cat := t.order[i];
      ghost var done := Ordered(t.order[..i], excluded);
      assert forall c :: c in done ==> c in t.order && IsWord(c);
      JoinOfWords(done, ',');
      JoinSnoc(done, cat, ',');
      assert t.order[..i + 1][..i] == t.order[..i];
      if cat in excluded {
        if |key| > 0 {
          key := key + [','];
        }
        key := key + cat;
      }
    }
    assert t.order[..|t.order|] == t.order;
  }

  /** Two valid category sets share a key only when they are equal. */
  lemma KeyInjective(t: Catalog, a: set<string>, b: set<string>)
    requires t.WellFormed() && a <= t.All() && b <= t.All()
    ensures Key(t, a) == Key(t, b) <==> a == b
  {
    if Key(t, a) == Key(t, b) {
      OrderedFromKey(t, a);
      OrderedFromKey(t, b);
      var oa, ob := Ordered(t.order, a), Ordered(t.order, b);
      assert oa == ob;
      assert forall c :: c in t.All() ==> (c in oa <==> c in a) && (c in ob <==> c in b);
      assert a == b;
    }
  }

  /** The key spells out the ordered categories. */
  lemma OrderedFromKey(t: Catalog, a: set<string>)
    requires t.WellFormed()
    ensures Ordered(t.order, a) == if Key(t, a) == "" then [] else Split(Key(t, a), ',')
  {
    var oa := Ordered(t.order, a);
    JoinOfWords(oa, ',');
    if oa != [] {
      forall c | c in oa
        ensures ',' !in c
      {
        WordIsPlain(c);
      }
      SplitOfJoin(oa, ',');
    }
  }

  // --- Enumerating the subset unions ----------------------------------------------------------

  /** The inner loop: the union of the sets whose bit is set. */
  method MaskUnion(ruleSets: seq<set<string>>, mask: nat) returns (union: set<string>)
    ensures union == Chosen(ruleSets, Bits(mask, |ruleSets|))
  {
    union := {};
    for bit := 0 to |ruleSets|
      invariant union == Chosen(ruleSets[..bit], Bits(mask, bit))
    {
      assert ruleSets[..bit + 1][..bit] == ruleSets[..bit];
      assert Bits(mask, bit + 1)[..bit] == Bits(mask, bit);
      if !Bit(mask, bit) {
        continue;
      }
      union := union + ruleSets[bit];
    }
    assert ruleSets[..|ruleSets|] == ruleSets;
  }

  /** The unions found so far, with distinct keys, all of them seen. */
  ghost predicate Enumerated(t: Catalog, sets: seq<set<string>>, out: seq<set<string>>, seen: set<string>) {
    && (forall key :: key in seen <==> exists i :: 0 <= i < |out| && Key(t, out[i]) == key)
    && (forall i, j :: 0 <= i < j < |out| ==> Key(t, out[i]) != Key(t, out[j]))
    && (forall i :: 0 <= i < |out| ==> IsUnion(sets, out[i]))
  }

  lemma EnumerateOne(t: Catalog, sets: seq<set<string>>, out: seq<set<string>>, seen: set<string>, d: set<string>)
    requires Enumerated(t, sets, out, seen) && Key(t, d) !in seen && IsUnion(sets, d)
    ensures Enumerated(t, sets, out + [d], seen + {Key(t, d)})
  {
    var now := out + [d];
    assert now[|out|] == d && forall i :: 0 <= i < |out| ==> now[i] == out[i];
  }

  /** The outer loop: every mask once, with the unions de-duplicated by key. */
  method SubsetUnions(t: Catalog, ruleSets: seq<set<string>>) returns (out: seq<set<string>>)
    requires t.WellFormed()
    ensures |out| <= Pow2(|ruleSets|) - 1
    ensures forall i, j :: 0 <= i < j < |out| ==> Key(t, out[i]) != Key(t, out[j])
    ensures forall i :: 0 <= i < |out| ==> IsUnion(ruleSets, out[i])
    ensures forall d :: IsUnion(ruleSets, d) ==> exists i :: 0 <= i < |out| && Key(t, out[i]) == Key(t, d)
  {
    var n := |ruleSets|;
    var seen: set<string> := {};
    out := [];
    for mask := 1 to Pow2(n)
      invariant |out| <= mask - 1
      invariant Enumerated(t, ruleSets, out, seen)
      invariant forall m :: 1 <= m < mask ==> Key(t, Chosen(ruleSets, Bits(m, n))) in seen
    {
      var union := MaskUnion(ruleSets, mask);
      var k := ScopedCorazaSetKey(t, union);
      if k in seen {
        continue;
      }
      MaskIsUnion(ruleSets, mask);
      EnumerateOne(t, ruleSets, out, seen, union);
      seen := seen + {k};
      out := out + [union];
    }
    forall d | IsUnion(ruleSets, d)
      ensures exists i :: 0 <= i < |out| && Key(t, out[i]) == Key(t, d)
    {
      var m := UnionHasMask(ruleSets, d);
      assert Key(t, Chosen(ruleSets, Bits(m, n))) in seen;
    }
  }

  /** Every union is met under some mask of the loop. */
  lemma UnionHasMask(sets: seq<set<string>>, d: set<string>) returns (m: nat)
    requires IsUnion(sets, d)
    ensures 1 <= m < Pow2(|sets|) && d == Chosen(sets, Bits(m, |sets|))
  {
    var pick: seq<bool> :| |pick| == |sets| && true in pick && d == Chosen(sets, pick);
    m := MaskOf(pick);
    MaskHasBits(pick);
    MaskIsPositive(pick);
    assert Bits(m, |sets|) == pick;
  }

  lemma MaskIsUnion(sets: seq<set<string>>, mask: nat)
    requires 1 <= mask < Pow2(|sets|)
    ensures IsUnion(sets, Chosen(sets, Bits(mask, |sets|)))
  {
    MaskPicksSome(mask, |sets|);
    var bit :| 0 <= bit < |sets| && Bit(mask, bit);
    assert Bits(mask, |sets|)[bit];
  }

  lemma {:induction false} ChosenIsValid(sets: seq<set<string>>, pick: seq<bool>, all: set<string>)
    requires |pick| == |sets| && forall s :: s in sets ==> s <= all
    ensures Chosen(sets, pick) <= all
  {
    if sets != [] {
      var n := |sets| - 1;
      assert sets[n] in sets;
      ChosenIsValid(sets[..n], pick[..n], all);
    }
  }

  /** With valid categories the enumeration is exact: the distinct unions, each once. */
  lemma UnionsExact(t: Catalog, ruleSets: seq<set<string>>, out: seq<set<string>>)
    requires t.WellFormed() && forall s :: s in ruleSets ==> s <= t.All()
    requires forall i, j :: 0 <= i < j < |out| ==> Key(t, out[i]) != Key(t, out[j])
    requires forall i :: 0 <= i < |out| ==> IsUnion(ruleSets, out[i])
    requires forall d :: IsUnion(ruleSets, d) ==> exists i :: 0 <= i < |out| && Key(t, out[i]) == Key(t, d)
    ensures forall d :: d in out <==> IsUnion(ruleSets, d)
    ensures forall i, j :: 0 <= i < j < |out| ==> out[i] != out[j]
  {
    forall d | IsUnion(ruleSets, d)
      ensures d in out && d <= t.All()
    {
      UnionIsValid(t, ruleSets, d);
      var i :| 0 <= i < |out| && Key(t, out[i]) == Key(t, d);
      UnionIsValid(t, ruleSets, out[i]);
      KeyInjective(t, out[i], d);
    }
  }

  lemma UnionIsValid(t: Catalog, ruleSets: seq<set<string>>, d: set<string>)
    requires forall s :: s in ruleSets ==> s <= t.All()
    requires IsUnion(ruleSets, d)
    ensures d <= t.All()
  {
    var pick: seq<bool> :| |pick| == |ruleSets| && true in pick && d == Chosen(ruleSets, pick);
    ChosenIsValid(ruleSets, pick, t.All());
  }

  datatype Exclusions = TooMany | Sets(sets: seq<set<string>>)

  predicate AllValidated(t: Catalog, rules: seq<Rule>) {
    rules == [] || (AllValidated(t, rules[..|rules| - 1]) && Validated(t, rules[|rules| - 1]))
  }

  lemma {:induction false} RuleSetsValid(t: Catalog, rules: seq<Rule>, domains: seq<string>)
    requires t.WellFormed() && AllValidated(t, rules)
    ensures forall s :: s in RuleSets(rules, domains) ==> s <= t.All()
  {
    if rules != [] {
      RuleSetsValid(t, rules[..|rules| - 1], domains);
      var last := rules[|rules| - 1];
      if Counts(last, domains) {
        forall c | c in RuleSet(last.stages)
          ensures c in t.All()
        {
          var stage :| stage in last.stages && IsScoped(stage) && c == stage[|SCOPE_PREFIX|..];
          CanonicalIsValid(t, stage);
        }
      }
    }
  }

  lemma {:induction false} RuleSetsGrow(rules: seq<Rule>, i: nat, domains: seq<string>)
    requires i <= |rules|
    ensures |RuleSets(rules[..i], domains)| <= |RuleSets(rules, domains)|
    decreases |rules|
  {
    if i < |rules| {
      RuleSetsGrow(rules[..|rules| - 1], i, domains);
      assert rules[..|rules| - 1][..i] == rules[..i];
    } else {
      assert rules[..i] == rules;
    }
  }

  method CollectRuleSet(stages: seq<string>) returns (s: set<string>)
    ensures s == RuleSet(stages)
  {
    s := {};
    for i := 0 to |stages|
      invariant s == RuleSet(stages[..i])
    {
      if IsScoped(stages[i]) {
        s := s + {stages[i][|SCOPE_PREFIX|..]};
      }
      assert stages[..i + 1] == stages[..i] + [stages[i]];
    }
    assert stages[..|stages|] == stages;
  }

  /** The collector shared by validation and the engine build. */
  method ScopedCorazaExclusionSets(t: Catalog, rules: seq<Rule>, domains: seq<string>) returns (r: Exclusions)
    requires t.WellFormed()
    ensures r.TooMany? <==> |RuleSets(rules, domains)| > MAX_SCOPED_CORAZA_RULES_PER_SITE
    ensures r.Sets? ==> |r.sets| <= Pow2(|RuleSets(rules, domains)|) - 1
    ensures r.Sets? && AllValidated(t, rules) ==>
      && (forall d :: d in r.sets <==> IsUnion(RuleSets(rules, domains), d))
      && (forall i, j :: 0 <= i < j < |r.sets| ==> r.sets[i] != r.sets[j])
      && (forall d :: d in r.sets ==> d <= t.All())
  {
    var ruleSets: seq<set<string>> := [];
    for i := 0 to |rules|
      invariant ruleSets == RuleSets(rules[..i], domains)
      invariant |ruleSets| <= MAX_SCOPED_CORAZA_RULES_PER_SITE
    {
      assert rules[..i + 1][..i] == rules[..i];
      var rule := rules[i];
      if !rule.enabled || !rule.disables {
        continue;
      }
      if !RuleAppliesToSite(rule.sites, domains) {
        continue;
      }
      var s := CollectRuleSet(rule.stages);
      if s == {} {
        continue;
      }
      ruleSets := ruleSets + [s];
      if |ruleSets| > MAX_SCOPED_CORAZA_RULES_PER_SITE {
        RuleSetsGrow(rules, i + 1, domains);
        return TooMany;
      }
    }
    assert rules[..|rules|] == rules;
    if ruleSets == [] {
      return Sets([]);
    }
    var out := SubsetUnions(t, ruleSets);
    if AllValidated(t, rules) {
      RuleSetsValid(t, rules, domains);
      UnionsExact(t, ruleSets, out);
      forall d | d in out
        ensures d <= t.All()
      {
        UnionIsValid(t, ruleSets, d);
      }
    }
    return Sets(out);
  }
}
