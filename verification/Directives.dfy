/**
 The directive filter: rule-target updates that point into excluded categories are dropped, and
 included files that carry such updates are inlined so that they can be filtered too.

 The embedded ruleset is a map from file name to text. A directive text means the sequence of lines
 one gets by replacing every resolvable include by the lines of its file.
 */
module Directives {
  import opened Decimal
  import opened LineFilter
  import opened Matcher
  import opened Options
  import opened Text

  const UPDATE_DIRECTIVE := "secruleupdatetargetbyid"
  const INCLUDE_DIRECTIVE := "Include @owasp_crs/"

  type Ruleset = map<string, string>

  // --- Line classification --------------------------------------------------------------------

  /** The whitespace-separated words of a line. */
  function Fields(s: string): seq<string>
    decreases |s|
  {
    var t := TrimLeft(s);
    if t == "" then []
    else
      var w := WordLength(t);
      [t[..w]] + Fields(t[w..])
  }

  function WordLength(t: string): (w: nat)
    requires t != "" && !IsSpace(t[0])
    ensures 1 <= w <= |t|
  {
    if |t| == 1 || IsSpace(t[1]) then 1 else 1 + WordLength(t[1..])
  }

  /** A signed decimal in the 64-bit range. */
  function Atoi(s: string): Option<int> {
    var negative := s != "" && s[0] == '-';
    var digits := if s != "" && (s[0] == '-' || s[0] == '+') then s[1..] else s;
    if digits == "" || !(forall c :: c in digits ==> IsDigit(c)) then None
    else
      var n := if negative then -(Value(digits) as int) else Value(digits);
      if -0x8000_0000_0000_0000 <= n < 0x8000_0000_0000_0000 then Some(n) else None
  }

  /** Division by 1000 that truncates toward zero. */
  function Thousands(n: int): (q: int)
    ensures if n >= 0 then 1000 * q <= n < 1000 * q + 1000 else 1000 * q - 1000 < n <= 1000 * q
  {
    if n >= 0 then n / 1000 else -((-n) / 1000)
  }

  /** The line updates the targets of a rule that lives in an excluded file. */
  predicate Dangling(line: string, excluded: set<int>) {
    Updates(UPDATE_DIRECTIVE, line, excluded)
  }

  predicate Updates(directive: string, line: string, excluded: set<int>) {
    UpdateText(directive, TrimSpace(line), excluded)
  }

  predicate UpdateText(directive: string, t: string, excluded: set<int>) {
    && directive <= ToLower(t)
    && |Fields(t)| >= 2
    && Atoi(Fields(t)[1]).Some?
    && Thousands(Atoi(Fields(t)[1]).value) in excluded
  }

  /** The 3-digit file number, 0 when the name has none. */
  function CrsFileNumber(name: string): int {
    if '-' !in name then 0
    else
      var rest := name[IndexOf(name, '-') + 1..];
      if '-' !in rest then 0
      else
        match Atoi(rest[..IndexOf(rest, '-')])
        case Some(n) => n
        case None => 0
  }

  /** excluded are the file numbers of the categories that are off. */
  ghost predicate ExcludedFor(t: Catalog, enabled: set<string>, excluded: set<int>) {
    forall num :: num in excluded <==>
      num > 0 && exists cat :: cat in t.files && cat !in enabled && CrsFileNumber(t.files[cat]) == num
  }

  method ExcludedCategoryPrefixes(t: Catalog, enabled: set<string>) returns (excluded: set<int>)
    ensures ExcludedFor(t, enabled, excluded)
  {
    excluded := {};
    var todo := t.files.Keys;
    while todo != {}
      invariant todo <= t.files.Keys
      invariant forall num :: num in excluded <==>
        num > 0 && exists cat :: cat in t.files && cat !in todo && cat !in enabled && CrsFileNumber(t.files[cat]) == num
      decreases todo
    {
      ghost var before := todo;
      var cat :| cat in todo;
      todo := todo - {cat};
      assert forall c :: c in t.files && c !in todo <==> c in t.files && (c !in before || c == cat);
      var num := CrsFileNumber(t.files[cat]);
      if cat !in enabled && num > 0 {
        excluded := excluded + {num};
      }
    }
  }

  /** The name of a single-file include. */
  function IncludeName(line: string): Option<string> {
    var t := TrimSpace(line);
    if INCLUDE_DIRECTIVE <= t && '*' !in t[|INCLUDE_DIRECTIVE|..] then Some(t[|INCLUDE_DIRECTIVE|..]) else None
  }

  /** The text of the file a line includes. */
  function Included(fs: Ruleset, line: string): Option<string> {
    var name := IncludeName(line);
    if name.Some? && name.value in fs then Some(fs[name.value]) else None
  }

  predicate CarriesUpdates(fs: Ruleset, line: string) {
    Included(fs, line).Some? && Contains(ToLower(Included(fs, line).value), UPDATE_DIRECTIVE)
  }

  function DirectivePass(fs: Ruleset, excluded: set<int>): Pass {
    Pass(line => Dangling(line, excluded), line => Included(fs, line), line => CarriesUpdates(fs, line))
  }

  /** The text the filter should produce. */
  function Filtered(fs: Ruleset, directives: string, excluded: set<int>): string {
    if excluded == {} then directives else Materialized(DirectivePass(fs, excluded), directives)
  }

  method MaterializeCrsIncludes(fs: Ruleset, directives: string, excluded: set<int>) returns (r: string)
    ensures r == Filtered(fs, directives, excluded)
  {
    if excluded == {} {
      return directives;
    }
    r := Materialize(DirectivePass(fs, excluded), directives);
  }

  /** Exactly which lines are includes, and of what. */
  lemma IncludedExactly(fs: Ruleset, line: string, content: string)
    ensures Included(fs, line) == Some(content) <==>
      exists name :: TrimSpace(line) == "Include @owasp_crs/" + name && '*' !in name && name in fs && fs[name] == content
  {
    var t := TrimSpace(line);
    forall name: string
      ensures t == INCLUDE_DIRECTIVE + name <==> INCLUDE_DIRECTIVE <= t && name == t[|INCLUDE_DIRECTIVE|..]
    {
      AfterPrefix(INCLUDE_DIRECTIVE, t, name);
    }
  }

  lemma AfterPrefix(prefix: string, t: string, name: string)
    ensures t == prefix + name <==> prefix <= t && name == t[|prefix|..]
  {
  }

  // --- Correctness ----------------------------------------------------------------------------

  /** Included files do not themselves include files of the ruleset. */
  ghost predicate Flat(fs: Ruleset) {
    forall name, line :: name in fs && line in Split(fs[name], '\n') ==> Included(fs, line) == None
  }

  lemma OccursAfter(s: string, k: nat, part: string, j: int)
    requires k <= |s| && OccursAt(s[k..], part, j)
    ensures OccursAt(s, part, k + j)
  {
  }

  lemma {:induction false} PieceOccurs(s: string, sep: char, part: string) returns (i: nat)
    requires part in Split(s, sep)
    ensures OccursAt(s, part, i)
    decreases |s|
  {
    if sep !in s {
      i := 0;
    } else {
      var k := IndexOf(s, sep);
      if part == s[..k] {
        i := 0;
      } else {
        assert part in Split(s[k + 1..], sep);
        var j := PieceOccurs(s[k + 1..], sep, part);
        i := k + 1 + j;
        OccursAfter(s, k + 1, part, j);
      }
    }
  }

  /** An update line inside a body shows up as a substring of the lower-cased body. */
  lemma BodyWithoutUpdates(content: string, line: string, word: string)
    requires line in Split(content, '\n') && word <= ToLower(TrimSpace(line))
    ensures Contains(ToLower(content), word)
  {
    var i := PieceOccurs(content, '\n', line);
    var j := TrimIsSubstring(line);
    WordOccurs(content, line, i, TrimSpace(line), j, word);
  }

  lemma WordOccurs(content: string, line: string, i: nat, t: string, j: nat, word: string)
    requires OccursAt(content, line, i) && OccursAt(line, t, j) && word <= ToLower(t)
    ensures Contains(ToLower(content), word)
  {
    OccursWithin(content, line, i, t, j);
    LowerOccurs(content, t, i + j);
    assert OccursAt(ToLower(t), word, 0);
    OccursWithin(ToLower(content), ToLower(t), i + j, word, 0);
  }

  lemma UpdateLinesStartWithWord(line: string, excluded: set<int>)
    ensures Dangling(line, excluded) ==> UPDATE_DIRECTIVE <= ToLower(TrimSpace(line))
  {
  }

  /** An include line is not an update line. */
  lemma IncludeIsNotDangling(fs: Ruleset, line: string, excluded: set<int>)
    requires Included(fs, line).Some?
    ensures !Dangling(line, excluded)
  {
    UpdateLinesStartWithWord(line, excluded);
    var t := TrimSpace(line);
    assert t[0] == INCLUDE_DIRECTIVE[0] == 'I' && ToLower(t)[0] == 'i' && UPDATE_DIRECTIVE[0] == 's';
  }

  lemma BlankIsHarmless(fs: Ruleset, excluded: set<int>)
    ensures !Dangling("", excluded) && Included(fs, "") == None
  {
  }

  lemma DirectivesCoherent(fs: Ruleset, excluded: set<int>)
    requires Flat(fs)
    ensures Coherent(DirectivePass(fs, excluded))
  {
    var p := DirectivePass(fs, excluded);
    BlankIsHarmless(fs, excluded);
    forall line | p.body(line).Some?
      ensures !p.drop(line)
    {
      IncludeIsNotDangling(fs, line, excluded);
    }
    forall line, l | p.body(line).Some? && !p.inline(line) && l in Split(p.body(line).value, '\n')
      ensures !p.drop(l)
    {
      UpdateLinesStartWithWord(l, excluded);
      if Dangling(l, excluded) {
        BodyWithoutUpdates(p.body(line).value, l, UPDATE_DIRECTIVE);
        assert false;
      }
    }
  }

  /** The directives a text stands for, and what should be left of them. */
  function Meaning(fs: Ruleset, text: string): seq<string> {
    Expand(line => Included(fs, line), Split(text, '\n'))
  }

  function Wanted(fs: Ruleset, directives: string, excluded: set<int>): seq<string> {
    Filter(line => Dangling(line, excluded), Meaning(fs, directives))
  }

  /**
   Main result: expanding the includes after the filter gives the same directives, in the same order,
   as expanding first and then deleting exactly the dangling updates.
   */
  lemma FilterPreservesMeaning(fs: Ruleset, directives: string, excluded: set<int>)
    requires Flat(fs)
    ensures NonBlank(Meaning(fs, Filtered(fs, directives, excluded))) == NonBlank(Wanted(fs, directives, excluded))
  {
    if excluded == {} {
      FilterKeepsClean(line => Dangling(line, excluded), Meaning(fs, directives));
    } else {
      DirectivesCoherent(fs, excluded);
      PassPreservesMeaning(DirectivePass(fs, excluded), directives);
    }
  }

  /** The line includes a file in which every line is a dangling update. */
  ghost predicate AllDangling(fs: Ruleset, line: string, excluded: set<int>) {
    && Included(fs, line).Some?
    && forall l :: l in Split(Included(fs, line).value, '\n') ==> Dangling(l, excluded)
  }

  ghost predicate SomeFileVanishes(fs: Ruleset, directives: string, excluded: set<int>) {
    exists line :: line in Split(directives, '\n') && AllDangling(fs, line, excluded)
  }

  /**
   Exactly when the two line sequences are equal to the last blank line: unless an included file
   loses all its lines, or nothing at all is left, where the program writes one blank line.
   */
  lemma FilterPreservesLines(fs: Ruleset, directives: string, excluded: set<int>)
    requires Flat(fs)
    ensures Meaning(fs, Filtered(fs, directives, excluded)) == Wanted(fs, directives, excluded) <==>
      Wanted(fs, directives, excluded) != [] && !SomeFileVanishes(fs, directives, excluded)
  {
    var lines := Split(directives, '\n');
    if excluded == {} {
      FilterKeepsClean(line => Dangling(line, excluded), Meaning(fs, directives));
      ExpandIsLonger(line => Included(fs, line), lines);
      if line :| line in lines && AllDangling(fs, line, excluded) {
        assert Split(Included(fs, line).value, '\n')[0] in Split(Included(fs, line).value, '\n');
        assert false;
      }
    } else {
      var p := DirectivePass(fs, excluded);
      DirectivesCoherent(fs, excluded);
      PassPreservesLines(p, directives);
      forall line | line in lines
        ensures Vanishes(p, line) <==> AllDangling(fs, line, excluded)
      {
        VanishesExactly(p, line);
      }
    }
  }

  lemma VanishesExactly(p: Pass, line: string)
    requires Coherent(p)
    ensures Vanishes(p, line) <==>
      p.body(line).Some? && forall l :: l in Split(p.body(line).value, '\n') ==> p.drop(l)
  {
    if p.body(line).Some? {
      var lines := Split(p.body(line).value, '\n');
      var kept := Filter(p.drop, lines);
      if kept != [] {
        assert kept[0] in kept;
      }
      assert lines[0] in lines;
    }
  }

  lemma {:induction false} WordLengthIs(t: string, w: nat)
    requires 1 <= w <= |t| && !(exists c :: c in t[..w] && IsSpace(c)) && (w < |t| ==> IsSpace(t[w]))
    ensures !IsSpace(t[0]) && WordLength(t) == w
  {
    assert t[0] in t[..w];
    if w > 1 {
      assert t[1] in t[..w];
      assert t[1..][..w - 1] == t[1..w];
      WordLengthIs(t[1..], w - 1);
    }
  }

  predicate Unspaced(s: string) {
    s != "" && forall c :: c in s ==> !IsSpace(c)
  }

  predicate Blank(s: string) {
    forall c :: c in s ==> IsSpace(c)
  }

  lemma FirstField(a: string, rest: string)
    requires Unspaced(a) && (rest != "" ==> IsSpace(rest[0]))
    ensures Fields(a + rest) == [a] + Fields(rest)
  {
    var s := a + rest;
    assert s[..|a|] == a && s[|a|..] == rest;
    WordLengthIs(s, |a|);
  }

  lemma TrimGap(gap: string, rest: string)
    requires Blank(gap) && (rest == "" || !IsSpace(rest[0]))
    ensures TrimLeft(gap + rest) == rest
  {
    var s := gap + rest;
    assert forall i :: 0 <= i < |gap| ==> s[i] == gap[i] && gap[i] in gap;
    assert rest != "" ==> s[|gap|] == rest[0];
    assert s[|gap|..] == rest;
  }

  lemma FieldsAfterGap(gap: string, rest: string)
    requires Blank(gap) && rest != "" && !IsSpace(rest[0])
    ensures Fields(gap + rest) == Fields(rest)
  {
    TrimGap(gap, rest);
    TrimGap("", rest);
    assert "" + rest == rest;
  }

  /** The first two words of a text, with what is between and after them. */
  ghost predicate TwoWords(t: string, word: string, gap: string, id: string, rest: string) {
    && t == word + (gap + (id + rest))
    && Unspaced(word) && Unspaced(id)
    && gap != "" && Blank(gap)
    && (rest == "" || IsSpace(rest[0]))
  }

  lemma FieldsOfTwoWords(t: string, word: string, gap: string, id: string, rest: string)
    requires TwoWords(t, word, gap, id, rest)
    ensures |Fields(t)| >= 2 && Fields(t)[1] == id
  {
    var after := gap + (id + rest);
    var tail := FieldsAfterWord(gap, id, rest);
    GapComesFirst(gap, id + rest);
    SecondField(word, after, id, tail);
  }

  lemma GapComesFirst(gap: string, s: string)
    requires gap != "" && Blank(gap)
    ensures IsSpace((gap + s)[0])
  {
    assert gap[0] in gap;
  }

  lemma SecondField(word: string, after: string, id: string, tail: seq<string>)
    requires Unspaced(word) && after != "" && IsSpace(after[0]) && Fields(after) == [id] + tail
    ensures |Fields(word + after)| >= 2 && Fields(word + after)[1] == id
  {
    FirstField(word, after);
  }

  lemma FieldsAfterWord(gap: string, id: string, rest: string) returns (tail: seq<string>)
    requires Blank(gap) && Unspaced(id) && (rest == "" || IsSpace(rest[0]))
    ensures Fields(gap + (id + rest)) == [id] + tail
  {
    tail := Fields(rest);
    FirstField(id, rest);
    assert id[0] in id && (id + rest)[0] == id[0];
    FieldsAfterGap(gap, id + rest);
  }

  lemma {:induction false} WordLengthStops(t: string)
    requires t != "" && !IsSpace(t[0])
    ensures Unspaced(t[..WordLength(t)])
    ensures WordLength(t) < |t| ==> IsSpace(t[WordLength(t)])
  {
    var w := WordLength(t);
    if w > 1 {
      WordLengthStops(t[1..]);
      assert t[..w] == [t[0]] + t[1..][..w - 1];
    } else {
      assert t[..1] == [t[0]];
    }
  }

  /** A text that starts with a word as that word and what follows it. */
  lemma CutWord(t: string) returns (word: string, after: string)
    requires t != "" && !IsSpace(t[0])
    ensures t == word + after && Unspaced(word) && (after == "" || IsSpace(after[0]))
  {
    WordLengthStops(t);
    word, after := t[..WordLength(t)], t[WordLength(t)..];
  }

  /** A text as its leading blanks and what follows them. */
  lemma CutGap(s: string) returns (gap: string, t: string)
    ensures s == gap + t && Blank(gap) && (t == "" || !IsSpace(t[0]))
  {
    t := TrimLeft(s);
    gap := s[..|s| - |t|];
  }

  lemma WordFollows(word: string, after: string)
    requires Unspaced(word) && (after == "" || IsSpace(after[0])) && |Fields(word + after)| >= 2
    ensures Fields(after) != []
  {
    FirstField(word, after);
  }

  lemma WordAfterGap(gap: string, t: string)
    requires Blank(gap) && (t == "" || !IsSpace(t[0])) && Fields(gap + t) != []
    ensures t != ""
  {
    TrimGap(gap, t);
  }

  lemma TwoFieldsAreTwoWords(t: string) returns (word: string, gap: string, id: string, rest: string)
    requires t != "" && !IsSpace(t[0]) && |Fields(t)| >= 2
    ensures TwoWords(t, word, gap, id, rest)
  {
    var after, second;
    word, after := CutWord(t);
    WordFollows(word, after);
    gap, second := CutGap(after);
    WordAfterGap(gap, second);
    id, rest := CutWord(second);
    assert gap == "" ==> gap + second == second;
  }

  /** A prefix without blanks lies within the first word. */
  lemma PrefixInWord(p: string, t: string, word: string, after: string)
    requires Unspaced(p) && t == word + after && (after == "" || IsSpace(after[0]))
    ensures p <= ToLower(t) <==> p <= ToLower(word)
  {
    var low := ToLower(t);
    assert low[..|word|] == ToLower(word);
    if after != "" {
      assert low[|word|] == Lower(after[0]);
      NoBlankInPrefix(p, low, |word|);
    }
  }

  lemma NoBlankInPrefix(p: string, s: string, i: nat)
    requires Unspaced(p) && i < |s| && IsSpace(s[i])
    ensures p <= s ==> |p| <= i
  {
    assert i < |p| ==> p[i] in p;
  }

  /** The text is a rule-target update of rule n. */
  ghost predicate UpdatesRule(directive: string, t: string, n: int) {
    exists word, gap, id, rest :: UpdateOf(directive, t, word, gap, id, rest, n)
  }

  ghost predicate UpdateOf(directive: string, t: string, word: string, gap: string, id: string, rest: string, n: int) {
    TwoWords(t, word, gap, id, rest) && directive <= ToLower(word) && Atoi(id) == Some(n)
  }

  lemma UpdateHasShape(directive: string, t: string, excluded: set<int>) returns (n: int)
    requires Unspaced(directive) && t != "" && !IsSpace(t[0]) && UpdateText(directive, t, excluded)
    ensures UpdatesRule(directive, t, n) && Thousands(n) in excluded
  {
    var word, gap, id, rest := TwoFieldsAreTwoWords(t);
    FieldsOfTwoWords(t, word, gap, id, rest);
    n := Atoi(id).value;
    WordBegins(directive, t, word, gap, id, rest);
    assert UpdateOf(directive, t, word, gap, id, rest, n);
  }

  lemma ShapeIsUpdate(directive: string, t: string, excluded: set<int>, n: int)
    requires Unspaced(directive) && UpdatesRule(directive, t, n) && Thousands(n) in excluded
    ensures UpdateText(directive, t, excluded)
  {
    var word, gap, id, rest :| UpdateOf(directive, t, word, gap, id, rest, n);
    FieldsOfTwoWords(t, word, gap, id, rest);
    WordBegins(directive, t, word, gap, id, rest);
  }

  lemma WordBegins(directive: string, t: string, word: string, gap: string, id: string, rest: string)
    requires Unspaced(directive) && TwoWords(t, word, gap, id, rest)
    ensures directive <= ToLower(t) <==> directive <= ToLower(word)
  {
    var after := gap + (id + rest);
    assert after[0] == gap[0] && gap[0] in gap;
    PrefixInWord(directive, t, word, after);
  }

  lemma UpdatesExactly(directive: string, line: string, excluded: set<int>)
    requires Unspaced(directive)
    ensures Updates(directive, line, excluded) <==>
      exists n :: UpdatesRule(directive, TrimSpace(line), n) && Thousands(n) in excluded
  {
    var t := TrimSpace(line);
    TrimmedStart(line);
    if Updates(directive, line, excluded) {
      var n := UpdateHasShape(directive, t, excluded);
    }
    if n :| UpdatesRule(directive, t, n) && Thousands(n) in excluded {
      ShapeIsUpdate(directive, t, excluded, n);
    }
  }

  lemma TrimmedStart(line: string)
    ensures TrimSpace(line) != "" ==> !IsSpace(TrimSpace(line)[0])
  {
  }

  /**
   Exactly which lines are dropped: those that trim to a first word beginning with the directive's name
   in any case and a second word that is the number of a rule in an excluded file, whatever follows.
   */
  lemma DanglingExactly(line: string, excluded: set<int>)
    ensures Dangling(line, excluded) <==>
      exists n :: UpdatesRule("secruleupdatetargetbyid", TrimSpace(line), n) && Thousands(n) in excluded
  {
    UpdateWord();
    UpdatesExactly(UPDATE_DIRECTIVE, line, excluded);
  }

  /** Rule numbers are read as decimal numbers with an optional sign. */
  lemma AtoiReads(n: int)
    requires 0 <= n < 0x8000_0000_0000_0000
    ensures Atoi(Itoa(n)) == Some(n) && Atoi(['+'] + Itoa(n)) == Some(n) && Atoi(['-'] + Itoa(n)) == Some(-n)
  {
    ValueOfItoa(n);
    var s := Itoa(n);
    assert IsDigit(s[0]);
    assert (['+'] + s)[1..] == s && (['-'] + s)[1..] == s;
  }

  lemma UpdateIsTrimmed(word: string, id: string)
    requires Unspaced(word) && Unspaced(id)
    ensures TrimSpace(word + ([' '] + id)) == word + ([' '] + id)
  {
  }

  lemma UpdateDangles(update: string, word: string, id: string, n: int, excluded: set<int>)
    requires Unspaced(word) && Unspaced(id) && ToLower(word) == word && Atoi(id) == Some(n)
    requires update == word + ([' '] + id) && Thousands(n) in excluded
    ensures Updates(word, update, excluded)
  {
    UpdateIsTrimmed(word, id);
    assert id + "" == id;
    assert UpdateOf(word, update, word, [' '], id, "", n);
    ShapeIsUpdate(word, update, excluded, n);
  }

  lemma UpdateWord()
    ensures Unspaced(UPDATE_DIRECTIVE) && ToLower(UPDATE_DIRECTIVE) == UPDATE_DIRECTIVE && '\n' !in UPDATE_DIRECTIVE
  {
  }

  lemma ExampleUpdate(update: string)
    requires update == UPDATE_DIRECTIVE + ([' '] + "913100")
    ensures Dangling(update, {913}) && '\n' !in update
  {
    UpdateWord();
    RuleNumber();
    UpdateDangles(update, UPDATE_DIRECTIVE, "913100", 913100, {913});
  }

  lemma OneUpdateVanishes(fs: Ruleset, directives: string, update: string, excluded: set<int>)
    requires Flat(fs) && excluded != {}
    requires Dangling(update, excluded) && '\n' !in update
    requires Included(fs, directives) == Some(update) && '\n' !in directives
    ensures Meaning(fs, Filtered(fs, directives, excluded)) != Wanted(fs, directives, excluded)
  {
    DirectivesCoherent(fs, excluded);
    PassLosesFile(DirectivePass(fs, excluded), directives, update);
  }

  /**
   A file made of one dangling update leaves a blank line where none is wanted: with the scanner
   category off, the file 913 is excluded, and an update of rule 913100 is all that file "a" contains.
   */
  lemma VanishingFileLeavesBlank() returns (fs: Ruleset, directives: string, excluded: set<int>)
    ensures fs == map["a" := UPDATE_DIRECTIVE + ([' '] + "913100")] && Flat(fs)
    ensures directives == INCLUDE_DIRECTIVE + "a"
    ensures excluded == {913} && ExcludedFor(CRS, CRS.All() - {"scanner"}, excluded)
    ensures Meaning(fs, Filtered(fs, directives, excluded)) != Wanted(fs, directives, excluded)
  {
    var update := UPDATE_DIRECTIVE + ([' '] + "913100");
    ExampleUpdate(update);
    fs, directives := ExampleInclude(update);
    excluded := {913};
    ScannerIsExcluded();
    UpdateIncludesNothing(fs, update, excluded);
    OneFileIsFlat(fs, update);
    OneUpdateVanishes(fs, directives, update, excluded);
  }

  /** The file number of the scanner category. */
  lemma ScannerIsExcluded()
    ensures ExcludedFor(CRS, CRS.All() - {"scanner"}, {913})
  {
    CrsWellFormed();
    ScannerFile();
    OneOff(CRS, "scanner", 913);
  }

  lemma OneOff(t: Catalog, cat: string, num: int)
    requires t.WellFormed() && cat in t.files && CrsFileNumber(t.files[cat]) == num > 0
    ensures ExcludedFor(t, t.All() - {cat}, {num})
  {
  }

  lemma ScannerFile()
    ensures "scanner" in CRS.files && CrsFileNumber(CRS.files["scanner"]) == 913
  {
    ScannerName();
    FileDigits();
    FileNumberIs("REQUEST", "913", "SCANNER-DETECTION.conf", 913);
  }

  lemma ScannerName()
    ensures "scanner" in CRS_FILES
    ensures CRS_FILES["scanner"] == "REQUEST" + (['-'] + ("913" + (['-'] + "SCANNER-DETECTION.conf")))
  {
  }

  lemma FileNumberIs(head: string, digits: string, tail: string, num: int)
    requires '-' !in head && '-' !in digits && Atoi(digits) == Some(num)
    ensures CrsFileNumber(head + (['-'] + (digits + (['-'] + tail)))) == num
  {
    var rest := digits + (['-'] + tail);
    FirstDash(head, rest);
    FirstDash(digits, tail);
  }

  lemma FirstDash(head: string, tail: string)
    requires '-' !in head
    ensures var s := head + (['-'] + tail);
      '-' in s && IndexOf(s, '-') == |head| && s[..|head|] == head && s[|head| + 1..] == tail
  {
    var s := head + (['-'] + tail);
    assert s[|head|] == '-' && s[..|head|] == head;
    FirstIndex(s, '-', |head|);
  }

  lemma ExampleInclude(content: string) returns (fs: Ruleset, line: string)
    ensures fs == map["a" := content]
    ensures line == INCLUDE_DIRECTIVE + "a" && Included(fs, line) == Some(content) && '\n' !in line
  {
    line := INCLUDE_DIRECTIVE + "a";
    fs := map["a" := content];
    IncludeWord();
    IncludeShape(line, INCLUDE_DIRECTIVE, "a");
  }

  lemma IncludeWord()
    ensures !IsSpace(INCLUDE_DIRECTIVE[0]) && '\n' !in INCLUDE_DIRECTIVE
  {
  }

  lemma IncludeShape(line: string, word: string, name: string)
    requires line == word + name && word != "" && !IsSpace(word[0]) && Unspaced(name)
    ensures TrimSpace(line) == line && word <= line && line[|word|..] == name
  {
    assert line[|line| - 1] == name[|name| - 1] && name[|name| - 1] in name;
    TrimNothing(line);
  }

  lemma OneFileIsFlat(fs: Ruleset, update: string)
    requires Included(fs, update) == None && '\n' !in update
    requires forall name :: name in fs ==> fs[name] == update
    ensures Flat(fs)
  {
  }

  lemma UpdateIncludesNothing(fs: Ruleset, line: string, excluded: set<int>)
    requires Dangling(line, excluded)
    ensures Included(fs, line) == None
  {
    if Included(fs, line).Some? {
      IncludeIsNotDangling(fs, line, excluded);
    }
  }

  lemma FileDigits()
    ensures Atoi("913") == Some(913)
  {
    ItoaStep(9, '1');
    ItoaStep(91, '3');
    AtoiReads(913);
    assert "913" == [Digit(9)] + ['1'] + ['3'];
  }

  lemma RuleNumber()
    ensures Atoi("913100") == Some(913100)
  {
    ItoaStep(9, '1');
    ItoaStep(91, '3');
    ItoaStep(913, '1');
    ItoaStep(9131, '0');
    ItoaStep(91310, '0');
    AtoiReads(913100);
    assert "913100" == [Digit(9)] + ['1'] + ['3'] + ['1'] + ['0'] + ['0'];
  }

  lemma ItoaStep(n: nat, c: char)
    requires n > 0 && IsDigit(c)
    ensures Itoa(10 * n + (c as int - '0' as int)) == Itoa(n) + [c]
  {
  }

  /** Filtering a filtered text changes nothing; with nothing excluded, filtering changes nothing at all. */
  lemma FilterIsIdempotent(fs: Ruleset, directives: string, excluded: set<int>)
    requires Flat(fs)
    ensures Filtered(fs, Filtered(fs, directives, excluded), excluded) == Filtered(fs, directives, excluded)
    ensures Filtered(fs, directives, {}) == directives
  {
    if excluded != {} {
      DirectivesCoherent(fs, excluded);
      PassIsIdempotent(DirectivePass(fs, excluded), directives);
    }
  }
}
