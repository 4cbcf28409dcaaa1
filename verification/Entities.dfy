/**
 Placeholders that stand for sensitive values in outbound text: the per-conversation map that hands
 them out, and the restoration of the values on the way back.
 */
module Entities {
  import opened Decimal
  import opened Sequences

  // --- Decimal ordinals -----------------------------------------------------------------------

  lemma ItoaInjective(a: nat, b: nat)
    requires Itoa(a) == Itoa(b)
    ensures a == b
  {
    ValueOfItoa(a);
    ValueOfItoa(b);
  }

  /** The digits of n; none for 0. */
  function Shown(n: nat): string {
    if n > 0 then Itoa(n) else ""
  }

  lemma ShownStep(n: nat, after: string)
    requires n > 0
    ensures Shown(n) + after == Shown(n / 10) + ([Digit(n)] + after)
  {
  }

  /** The digit loop, writing from the end of a 12-byte buffer. */
  method ItoaAI(n: nat) returns (s: string)
    requires n < Pow10(12)
    ensures s == Itoa(n)
  {
    if n == 0 {
      return "0";
    }
    var b := new char[12];
    var pos := b.Length;
    var i := n;
    while i > 0
      invariant 0 <= pos <= 12 && 0 <= i < Pow10(pos)
      invariant Itoa(n) == Shown(i) + b[pos..]
    {
      ShownStep(i, b[pos..]);
      ghost var before := b[pos..];
      pos := pos - 1;
      b[pos] := Digit(i);
      assert b[pos..] == [Digit(i)] + before;
      i := i / 10;
    }
    return b[pos..];
  }

  // --- Placeholders ---------------------------------------------------------------------------

  predicate IsCategory(c: string) {
    c == "ENT" || c == "USR" || c == "NET" || c == "INF" || c == "SEC"
  }

  function Placeholder(cat: string, n: nat): string {
    "[" + (cat + ("-" + (Itoa(n) + "]")))
  }

  /** The number of leading digits. */
  function DigitRun(s: string): (d: nat)
    ensures d <= |s|
    ensures forall i :: 0 <= i < d ==> IsDigit(s[i])
    ensures d < |s| ==> !IsDigit(s[d])
  {
    if s != "" && IsDigit(s[0]) then 1 + DigitRun(s[1..]) else 0
  }

  /** The length of the placeholder-shaped text at the start of s, 0 when there is none. */
  function MatchLength(s: string): (len: nat)
    ensures len <= |s|
  {
    if |s| >= 7 && s[0] == '[' && IsCategory(s[1..4]) && s[4] == '-' then
      var d := DigitRun(s[5..]);
      if d >= 1 && 5 + d < |s| && s[5 + d] == ']' then 6 + d else 0
    else 0
  }

  lemma {:induction false} DigitRunIs(digits: string, rest: string)
    requires forall i :: 0 <= i < |digits| ==> IsDigit(digits[i])
    requires rest != "" && !IsDigit(rest[0])
    ensures DigitRun(digits + rest) == |digits|
  {
    if digits == "" {
      assert digits + rest == rest;
    } else {
      DigitRunIs(digits[1..], rest);
      assert (digits + rest)[1..] == digits[1..] + rest;
    }
  }

  lemma CategoryLength(cat: string)
    requires IsCategory(cat)
    ensures |cat| == 3 && forall i :: 0 <= i < 3 ==> cat[i] != '['
  {
  }

  /** A placeholder is recognised whatever follows it. */
  lemma PlaceholderMatches(cat: string, n: nat, rest: string)
    requires IsCategory(cat)
    ensures MatchLength(Placeholder(cat, n) + rest) == |Placeholder(cat, n)|
  {
    CategoryLength(cat);
    var s := Placeholder(cat, n) + rest;
    assert s[1..4] == cat;
    assert s[5..] == Itoa(n) + ("]" + rest);
    DigitRunIs(Itoa(n), "]" + rest);
  }

  /** Placeholders of different categories or ordinals differ. */
  lemma PlaceholderInjective(cat: string, n: nat, cat': string, n': nat)
    requires IsCategory(cat) && IsCategory(cat')
    ensures Placeholder(cat, n) == Placeholder(cat', n') <==> cat == cat' && n == n'
  {
    CategoryLength(cat);
    CategoryLength(cat');
    var s, t := Placeholder(cat, n), Placeholder(cat', n');
    if s == t {
      assert s[1..4] == cat && t[1..4] == cat';
      assert s[5..|s| - 1] == Itoa(n) && t[5..|t| - 1] == Itoa(n');
      ItoaInjective(n, n');
    }
  }

  /** Inside placeholder-shaped text the opening bracket occurs only at the start. */
  lemma OneBracket(s: string, i: nat)
    requires 0 < i < MatchLength(s)
    ensures s[i] != '['
  {
    var len := MatchLength(s);
    CategoryLength(s[1..4]);
    if i < 4 {
      assert s[i] == s[1..4][i - 1];
    } else if i == 4 {
      assert s[i] == '-';
    } else if i < len - 1 {
      assert s[i] == s[5..][i - 5] && IsDigit(s[5..][i - 5]);
    } else {
      assert s[i] == ']';
    }
  }

  // --- Restoring ------------------------------------------------------------------------------

  /** Replaces every known placeholder; unknown ones pass through. */
  function Restore(byPH: map<string, string>, text: string): string
    decreases |text|
  {
    if text == "" then ""
    else
      var len := MatchLength(text);
      if len > 0 then
        (if text[..len] in byPH then byPH[text[..len]] else text[..len]) + Restore(byPH, text[len..])
      else [text[0]] + Restore(byPH, text[1..])
  }

  /** Nothing in the text looks like a placeholder. */
  ghost predicate ShapeFree(text: string) {
    forall i :: 0 <= i <= |text| ==> MatchLength(text[i..]) == 0
  }

  lemma MatchWithin(s: string, rest: string)
    requires 0 < MatchLength(s + rest) <= |s|
    ensures MatchLength(s) == MatchLength(s + rest)
  {
    var len := MatchLength(s + rest);
    assert (s + rest)[1..4] == s[1..4];
    assert (s + rest)[5..][..len - 6] == s[5..][..len - 6];
    assert s[5..] == s[5..len - 1] + s[len - 1..];
    DigitRunIs(s[5..len - 1], s[len - 1..]);
  }

  /** No placeholder shape starts in plain text, even right before a placeholder. */
  lemma NoMatchAcross(text: string, rest: string)
    requires ShapeFree(text) && text != "" && (rest == "" || rest[0] == '[')
    ensures MatchLength(text + rest) == 0
  {
    var all := text + rest;
    var len := MatchLength(all);
    assert MatchLength(text[0..]) == 0 && text[0..] == text;
    if len > |text| {
      OneBracket(all, |text|);
    } else if len > 0 {
      MatchWithin(text, rest);
    }
  }

  lemma ShapeFreeTail(text: string)
    requires ShapeFree(text) && text != ""
    ensures ShapeFree(text[1..])
  {
  }

  lemma RestoreStep(byPH: map<string, string>, c: char, after: string)
    requires MatchLength([c] + after) == 0
    ensures Restore(byPH, [c] + after) == [c] + Restore(byPH, after)
  {
  }

  lemma RestoreStepBefore(byPH: map<string, string>, c: char, tail: string, rest: string)
    requires MatchLength([c] + tail + rest) == 0
    requires Restore(byPH, tail + rest) == tail + Restore(byPH, rest)
    ensures Restore(byPH, [c] + tail + rest) == [c] + tail + Restore(byPH, rest)
  {
    Assoc([c], tail, rest);
    RestoreStep(byPH, c, tail + rest);
    Assoc([c], tail, Restore(byPH, rest));
  }

  lemma {:induction false} RestorePlain(byPH: map<string, string>, text: string, rest: string)
    requires ShapeFree(text) && (rest == "" || rest[0] == '[')
    ensures Restore(byPH, text + rest) == text + Restore(byPH, rest)
  {
    if text == "" {
      assert text + rest == rest;
    } else {
      NoMatchAcross(text, rest);
      ShapeFreeTail(text);
      RestorePlain(byPH, text[1..], rest);
      assert text == [text[0]] + text[1..];
      RestoreStepBefore(byPH, text[0], text[1..], rest);
    }
  }

  /** No placeholder shape in the text is one that was handed out. */
  ghost predicate AllUnknown(byPH: map<string, string>, text: string) {
    forall i :: 0 <= i <= |text| ==> UnknownAt(byPH, text[i..])
  }

  predicate UnknownAt(byPH: map<string, string>, s: string) {
    MatchLength(s) > 0 ==> s[..MatchLength(s)] !in byPH
  }

  /** Unknown placeholders pass through: a text in which no placeholder is known is returned unchanged. */
  lemma {:induction false} UnknownPassThrough(byPH: map<string, string>, text: string)
    requires AllUnknown(byPH, text)
    ensures Restore(byPH, text) == text
    decreases |text|
  {
    if text != "" {
      assert text[0..] == text && UnknownAt(byPH, text[0..]);
      var n := HeadPasses(byPH, text);
      UnknownTail(byPH, text, n);
      UnknownPassThrough(byPH, text[n..]);
      assert text[..n] + text[n..] == text;
    }
  }

  lemma HeadPasses(byPH: map<string, string>, text: string) returns (n: nat)
    requires text != "" && UnknownAt(byPH, text)
    ensures 0 < n <= |text| && Restore(byPH, text) == text[..n] + Restore(byPH, text[n..])
  {
    n := if MatchLength(text) > 0 then MatchLength(text) else 1;
    assert text[..1] == [text[0]];
  }

  lemma UnknownTail(byPH: map<string, string>, text: string, n: nat)
    requires AllUnknown(byPH, text) && n <= |text|
    ensures AllUnknown(byPH, text[n..])
  {
    forall i | 0 <= i <= |text[n..]|
      ensures UnknownAt(byPH, text[n..][i..])
    {
      assert text[n..][i..] == text[n + i..];
      assert UnknownAt(byPH, text[n + i..]);
    }
  }

  /** Exactly which texts start with a placeholder shape: one of the five categories and a number, in brackets. */
  lemma MatchExactly(s: string, len: nat)
    ensures MatchLength(s) == len > 0 <==> exists cat, digits, rest :: IsShape(s, cat, digits, rest, len)
  {
    if MatchLength(s) == len > 0 {
      var d := DigitRun(s[5..]);
      var cat, digits, rest := s[1..4], s[5..5 + d], s[6 + d..];
      assert s == "[" + (cat + ("-" + (digits + ("]" + rest))));
      assert digits == s[5..][..d];
      assert IsShape(s, cat, digits, rest, len);
    }
    forall cat, digits, rest | IsShape(s, cat, digits, rest, len)
      ensures MatchLength(s) == len > 0
    {
      ShapeMatches(s, cat, digits, rest, len);
    }
  }

  ghost predicate IsShape(s: string, cat: string, digits: string, rest: string, len: nat) {
    && s == "[" + (cat + ("-" + (digits + ("]" + rest))))
    && cat in ["ENT", "USR", "NET", "INF", "SEC"]
    && digits != "" && (forall i :: 0 <= i < |digits| ==> '0' <= digits[i] <= '9')
    && len == 6 + |digits|
  }

  lemma ShapeMatches(s: string, cat: string, digits: string, rest: string, len: nat)
    requires IsShape(s, cat, digits, rest, len)
    ensures MatchLength(s) == len
  {
    CategoryLength(cat);
    var after := digits + ("]" + rest);
    assert s[1..4] == cat && s[4] == '-' && s[5..] == after && |s| == 5 + |after|;
    DigitRunIs(digits, "]" + rest);
    assert s[5 + |digits|] == after[|digits|] == ']';
  }

  /** A text seen as plain stretches with sensitive values between them. */
  datatype Doc = Tail(text: string) | Then(text: string, cat: string, value: string, rest: Doc)

  function Original(doc: Doc): string {
    match doc
    case Tail(text) => text
    case Then(text, _, value, rest) => text + (value + Original(rest))
  }

  /** Plain stretches look like no placeholder, and values have known categories. */
  ghost predicate Maskable(doc: Doc) {
    match doc
    case Tail(text) => ShapeFree(text)
    case Then(text, cat, _, rest) => ShapeFree(text) && IsCategory(cat) && Maskable(rest)
  }

  type Ordinals = map<string, map<string, nat>>

  predicate Known(byCat: Ordinals, cat: string, value: string) {
    cat in byCat && value in byCat[cat]
  }

  ghost predicate AllKnown(byCat: Ordinals, doc: Doc) {
    doc.Then? ==> Known(byCat, doc.cat, doc.value) && AllKnown(byCat, doc.rest)
  }

  function Masked(byCat: Ordinals, doc: Doc): string
    requires AllKnown(byCat, doc)
  {
    match doc
    case Tail(text) => text
    case Then(text, cat, value, rest) => text + (Placeholder(cat, byCat[cat][value]) + Masked(byCat, rest))
  }

  /** Placeholders handed out and values are in bijection; ordinals are 1..k per category. */
  ghost predicate Bijection(byCat: Ordinals, byPH: map<string, string>) {
    (forall cat :: cat in byCat ==> IsCategory(cat)) && BijectionBy(Placeholder, byCat, byPH)
  }

  ghost predicate BijectionBy(name: (string, nat) -> string, byCat: Ordinals, byPH: map<string, string>) {
    && (forall cat :: cat in byCat ==> Numbered(byCat[cat]))
    && (forall cat, value :: Known(byCat, cat, value) ==> Names(name, byCat, byPH, cat, value))
    && (forall ph :: ph in byPH ==> Named(name, byCat, ph, byPH[ph]))
  }

  /** The placeholder of a known value stands for that value. */
  ghost predicate Names(name: (string, nat) -> string, byCat: Ordinals, byPH: map<string, string>,
                        cat: string, value: string)
    requires Known(byCat, cat, value)
  {
    var ph := name(cat, byCat[cat][value]);
    ph in byPH && byPH[ph] == value
  }

  /** The placeholder is the one of a known value. */
  ghost predicate Named(name: (string, nat) -> string, byCat: Ordinals, ph: string, value: string) {
    exists cat :: Known(byCat, cat, value) && ph == name(cat, byCat[cat][value])
  }

  /** The values carry the ordinals 1..k, each once. */
  ghost predicate Numbered(m: map<string, nat>) {
    && (forall v :: v in m ==> 1 <= m[v] <= |m|)
    && (forall v, w :: v in m && w in m && m[v] == m[w] ==> v == w)
    && (forall n :: 1 <= n <= |m| ==> Taken(m, n))
  }

  ghost predicate Taken(m: map<string, nat>, n: nat) {
    exists v :: v in m && m[v] == n
  }

  /**
   Main result: replacing the values by their placeholders is undone exactly by Restore, even when a
   value itself looks like a placeholder.
   */
  lemma {:induction false} RestoreUndoesMask(byCat: Ordinals, byPH: map<string, string>, doc: Doc)
    requires Bijection(byCat, byPH) && AllKnown(byCat, doc) && Maskable(doc)
    ensures Restore(byPH, Masked(byCat, doc)) == Original(doc)
  {
    match doc
    case Tail(text) =>
      RestorePlain(byPH, text, "");
      assert text + "" == text;
    case Then(text, cat, value, rest) =>
      assert Names(Placeholder, byCat, byPH, cat, value);
      var ph := Placeholder(cat, byCat[cat][value]);
      var after := Masked(byCat, rest);
      RestoreUndoesMask(byCat, byPH, rest);
      RestorePlain(byPH, text, ph + after);
      PlaceholderMatches(cat, byCat[cat][value], after);
      assert (ph + after)[..|ph|] == ph && (ph + after)[|ph|..] == after;
  }

  // --- The map --------------------------------------------------------------------------------

  lemma SizeGrows(m: map<string, nat>, value: string, n: nat)
    requires value !in m
    ensures |m[value := n]| == |m| + 1
  {
  }

  lemma NumberedGrows(m: map<string, nat>, value: string)
    requires Numbered(m) && value !in m
    ensures Numbered(m[value := |m| + 1]) && |m[value := |m| + 1]| == |m| + 1
  {
    SizeGrows(m, value, |m| + 1);
    var m' := m[value := |m| + 1];
    forall n | 1 <= n <= |m'|
      ensures Taken(m', n)
    {
      if n == |m'| {
        assert m'[value] == n;
      } else {
        assert Taken(m, n);
        var v :| v in m && m[v] == n;
        assert m'[v] == n;
      }
    }
  }

  function WithValue(byCat: Ordinals, cat: string, value: string): Ordinals {
    var m := OrdinalsOf(byCat, cat);
    byCat[cat := m[value := |m| + 1]]
  }

  function OrdinalsOf(byCat: Ordinals, cat: string): map<string, nat> {
    if cat in byCat then byCat[cat] else map[]
  }

  lemma WithValueKnows(byCat: Ordinals, cat: string, value: string, c: string, v: string)
    requires !Known(byCat, cat, value)
    ensures Known(WithValue(byCat, cat, value), c, v) <==> Known(byCat, c, v) || (c == cat && v == value)
    ensures Known(byCat, c, v) ==> WithValue(byCat, cat, value)[c][v] == byCat[c][v]
  {
  }

  lemma ForwardGrows(name: (string, nat) -> string, byCat: Ordinals, byPH: map<string, string>,
                     cat: string, value: string, c: string, v: string)
    requires BijectionBy(name, byCat, byPH) && !Known(byCat, cat, value)
    requires name(cat, WithValue(byCat, cat, value)[cat][value]) !in byPH
    requires Known(WithValue(byCat, cat, value), c, v)
    ensures var byCat' := WithValue(byCat, cat, value);
      var byPH' := byPH[name(cat, byCat'[cat][value]) := value];
      Names(name, byCat', byPH', c, v)
  {
    WithValueKnows(byCat, cat, value, c, v);
    assert Known(byCat, c, v) ==> Names(name, byCat, byPH, c, v);
  }

  lemma BackwardGrows(name: (string, nat) -> string, byCat: Ordinals, byPH: map<string, string>,
                      cat: string, value: string, p: string)
    requires BijectionBy(name, byCat, byPH) && !Known(byCat, cat, value)
    requires p in byPH || p == name(cat, WithValue(byCat, cat, value)[cat][value])
    ensures var byCat' := WithValue(byCat, cat, value);
      Named(name, byCat', p, if p == name(cat, byCat'[cat][value]) then value else byPH[p])
  {
    var byCat' := WithValue(byCat, cat, value);
    if p == name(cat, byCat'[cat][value]) {
      assert Known(byCat', cat, value);
    } else {
      assert Named(name, byCat, p, byPH[p]);
      var c :| Known(byCat, c, byPH[p]) && p == name(c, byCat[c][byPH[p]]);
      WithValueKnows(byCat, cat, value, c, byPH[p]);
    }
  }

  lemma BijectionGrows(name: (string, nat) -> string, byCat: Ordinals, byPH: map<string, string>,
                       cat: string, value: string)
    requires BijectionBy(name, byCat, byPH) && !Known(byCat, cat, value)
    requires name(cat, WithValue(byCat, cat, value)[cat][value]) !in byPH
    ensures var byCat' := WithValue(byCat, cat, value);
      BijectionBy(name, byCat', byPH[name(cat, byCat'[cat][value]) := value])
  {
    var byCat' := WithValue(byCat, cat, value);
    var byPH' := byPH[name(cat, byCat'[cat][value]) := value];
    NumberedGrows(OrdinalsOf(byCat, cat), value);
    forall c, v | Known(byCat', c, v)
      ensures Names(name, byCat', byPH', c, v)
    {
      ForwardGrows(name, byCat, byPH, cat, value, c, v);
    }
    forall p | p in byPH'
      ensures Named(name, byCat', p, byPH'[p])
    {
      BackwardGrows(name, byCat, byPH, cat, value, p);
    }
  }

  /** The next ordinal of a category has not been handed out. */
  lemma NextIsFresh(byCat: Ordinals, byPH: map<string, string>, cat: string, value: string)
    requires Bijection(byCat, byPH) && IsCategory(cat) && !Known(byCat, cat, value)
    ensures Placeholder(cat, WithValue(byCat, cat, value)[cat][value]) !in byPH
  {
    var n := WithValue(byCat, cat, value)[cat][value];
    var ph := Placeholder(cat, n);
    if ph in byPH {
      assert Named(Placeholder, byCat, ph, byPH[ph]);
      var c :| Known(byCat, c, byPH[ph]) && ph == Placeholder(c, byCat[c][byPH[ph]]);
      PlaceholderInjective(cat, n, c, byCat[c][byPH[ph]]);
    }
  }

  lemma Assigned(byCat: Ordinals, cat: string, value: string, n: nat, byCat': Ordinals)
    requires n == |OrdinalsOf(byCat, cat)| + 1 && byCat' == byCat[cat := OrdinalsOf(byCat, cat)[value := n]]
    ensures byCat' == WithValue(byCat, cat, value) && byCat'[cat][value] == n
  {
  }

  /** Adding a new value keeps the bijection. */
  lemma AddKeepsBijection(byCat: Ordinals, byPH: map<string, string>, cat: string, value: string)
    requires Bijection(byCat, byPH) && IsCategory(cat) && !Known(byCat, cat, value)
    ensures var byCat' := WithValue(byCat, cat, value);
      Bijection(byCat', byPH[Placeholder(cat, byCat'[cat][value]) := value])
  {
    NextIsFresh(byCat, byPH, cat, value);
    BijectionGrows(Placeholder, byCat, byPH, cat, value);
  }

  method Render(cat: string, n: nat) returns (ph: string)
    requires n < Pow10(12)
    ensures ph == Placeholder(cat, n)
  {
    var digits := ItoaAI(n);
    return "[" + (cat + ("-" + (digits + "]")));
  }

  class EntityMap {
    var byCat: Ordinals
    var byPH: map<string, string>

    ghost predicate Valid()
      reads this
    {
      Bijection(byCat, byPH)
    }

    constructor ()
      ensures Valid() && byCat == map[] && byPH == map[]
    {
      byCat, byPH := map[], map[];
    }

    /** Later additions leave earlier placeholders alone. */
    twostate predicate Extends()
      reads this
    {
      && (forall cat, value :: Known(old(byCat), cat, value) ==>
            Known(byCat, cat, value) && byCat[cat][value] == old(byCat)[cat][value])
    }

    /** The placeholder of a value: the known one, or a new one with the next ordinal of its category. */
    method Add(cat: string, value: string) returns (ph: string)
      requires Valid() && IsCategory(cat)
      requires (if cat in byCat then |byCat[cat]| else 0) + 1 < Pow10(12)
      modifies this
      ensures Valid() && Extends() && Known(byCat, cat, value) && ph == Placeholder(cat, byCat[cat][value])
      ensures byCat == if old(Known(byCat, cat, value)) then old(byCat) else WithValue(old(byCat), cat, value)
    {
      forall c, v | Known(byCat, c, v) && !Known(byCat, cat, value) {
        WithValueKnows(byCat, cat, value, c, v);
      }
      if Known(byCat, cat, value) {
        ph := Render(cat, byCat[cat][value]);
        return;
      }
      ph := AddNew(cat, value);
    }

    method AddNew(cat: string, value: string) returns (ph: string)
      requires Valid() && IsCategory(cat) && !Known(byCat, cat, value)
      requires (if cat in byCat then |byCat[cat]| else 0) + 1 < Pow10(12)
      modifies this
      ensures Valid() && byCat == WithValue(old(byCat), cat, value)
      ensures ph == Placeholder(cat, byCat[cat][value])
    {
      var ordinals := OrdinalsOf(byCat, cat);
      var n := |ordinals| + 1;
      ph := Render(cat, n);
      AddKeepsBijection(byCat, byPH, cat, value);
      Assigned(byCat, cat, value, n, byCat[cat := ordinals[value := n]]);
      byCat := byCat[cat := ordinals[value := n]];
      byPH := byPH[ph := value];
    }

    /** Masks one text in one pass, handing out placeholders on the way; Restore gives the text back. */
    method Mask(doc: Doc) returns (text: string)
      requires Valid() && Maskable(doc) && Room(byCat, Size(doc))
      modifies this
      ensures Valid() && Extends() && AllKnown(byCat, doc) && text == Masked(byCat, doc)
      ensures Restore(byPH, text) == Original(doc)
    {
      text := Replace(doc);
      RestoreUndoesMask(byCat, byPH, doc);
    }

    method Replace(doc: Doc) returns (text: string)
      requires Valid() && Maskable(doc) && Room(byCat, Size(doc))
      modifies this
      ensures Valid() && Extends() && AllKnown(byCat, doc) && text == Masked(byCat, doc)
      decreases doc
    {
      match doc
      case Tail(t) =>
        text := t;
      case Then(t, cat, value, rest) =>
        RoomAfterAdd(byCat, cat, value, Size(rest));
        var ph := Add(cat, value);
        ghost var n := byCat[cat][value];
        var after := Replace(rest);
        assert Known(byCat, cat, value) && byCat[cat][value] == n;
        text := t + (ph + after);
    }
  }

  function Size(doc: Doc): nat {
    if doc.Tail? then 0 else 1 + Size(doc.rest)
  }

  /** The ordinals of k more values still fit the digit buffer. */
  ghost predicate Room(byCat: Ordinals, k: nat) {
    k < Pow10(12) && forall cat :: cat in byCat ==> |byCat[cat]| + k < Pow10(12)
  }

  lemma RoomAfterAdd(byCat: Ordinals, cat: string, value: string, k: nat)
    requires Room(byCat, k + 1)
    ensures Room(byCat, k) && Room(WithValue(byCat, cat, value), k)
  {
  }
}
