/**
 Route templates of the API inventory: a request path with its identifier segments replaced.

 The passes over segments are stated for any labelling of segments; the program's own labelling is
 Label.
 */
module PathTemplate {
  import opened Decimal
  import opened Text

  const MAX_SEGMENTS := 10
  const PARAM := "{param}"
  const MORE := "..."

  // --- One segment ----------------------------------------------------------------------------

  predicate IsHex(c: char) {
    IsDigit(c) || 'a' <= c <= 'f' || 'A' <= c <= 'F'
  }

  predicate AllDigits(s: string) {
    s != "" && forall i :: 0 <= i < |s| ==> IsDigit(s[i])
  }

  predicate AllHex(s: string) {
    s != "" && forall i :: 0 <= i < |s| ==> IsHex(s[i])
  }

  function WithoutDashes(s: string): string {
    if s == "" then ""
    else if s[0] == '-' then WithoutDashes(s[1..])
    else [s[0]] + WithoutDashes(s[1..])
  }

  predicate IsUuid(s: string) {
    |s| == 36 && s[8] == '-' && s[13] == '-' && s[18] == '-' && s[23] == '-' && AllHex(WithoutDashes(s))
  }

  predicate IsDateLike(s: string) {
    if |s| == 10 && s[4] == '-' && s[7] == '-' && AllDigits(s[0..4] + s[5..7] + s[8..10]) then true
    else if |s| == 8 && AllDigits(s) then s[0] == '2' && s[1] == '0' && s[2] == '2'
    else (|s| == 10 || |s| == 13) && AllDigits(s)
  }

  /** The segment looks like an identifier. */
  predicate IsParam(s: string) {
    AllDigits(s) || IsUuid(s) || (|s| >= 16 && AllHex(s)) || IsDateLike(s) || '@' in s
  }

  /** The segment is an API version such as v1 or v1_0. */
  predicate IsVersion(s: string) {
    var l := ToLower(s);
    || l == "api"
    || (|l| >= 2 && l[0] == 'v' && forall i :: 1 <= i < |l| ==> IsDigit(l[i]) || l[i] == '.' || l[i] == '_')
  }

  function Label(seg: string): string {
    if IsVersion(seg) || !IsParam(seg) then seg else PARAM
  }

  // --- A path ---------------------------------------------------------------------------------

  /** The labels of the first n segments, empty ones skipped. */
  function Labels(mark: string -> string, segs: seq<string>, n: nat): seq<string>
    requires n <= |segs|
  {
    if n == 0 then []
    else if segs[n - 1] == "" then Labels(mark, segs, n - 1)
    else Labels(mark, segs, n - 1) + [mark(segs[n - 1])]
  }

  /** Deep paths end in a wildcard. */
  function Outline(mark: string -> string, segs: seq<string>): seq<string> {
    if |segs| > MAX_SEGMENTS then Labels(mark, segs, MAX_SEGMENTS) + [MORE] else Labels(mark, segs, |segs|)
  }

  function TrimSlashLeft(s: string): (r: string)
    ensures forall c :: c in r ==> c in s
  {
    if s != "" && s[0] == '/' then TrimSlashLeft(s[1..]) else s
  }

  function TrimSlashRight(s: string): (r: string)
    ensures forall c :: c in r ==> c in s
  {
    if s != "" && s[|s| - 1] == '/' then TrimSlashRight(s[..|s| - 1]) else s
  }

  /** The path without query string and surrounding slashes. */
  function Core(path: string): (r: string)
    ensures '?' !in r
  {
    TrimSlashRight(TrimSlashLeft(if '?' in path then path[..IndexOf(path, '?')] else path))
  }

  function Rendered(out: seq<string>): string {
    if out == [] then "/" else ['/'] + Join(out, '/')
  }

  function Template(mark: string -> string, path: string): string {
    if Core(path) == "" then "/" else Rendered(Outline(mark, Split(Core(path), '/')))
  }

  method NormalizePath(path: string) returns (r: string)
    ensures r == Template(Label, path)
  {
    if path == "" {
      assert Core("") == "";
      return "/";
    }
    var core := Core(path);
    if core == "" {
      return "/";
    }
    var segs := Split(core, '/');
    var out: seq<string> := [];
    for i := 0 to |segs|
      invariant i <= MAX_SEGMENTS
      invariant out == Labels(Label, segs, i)
    {
      if i >= MAX_SEGMENTS {
        out := out + [MORE];
        return Rendered(out);
      }
      if segs[i] == "" {
        continue;
      }
      if IsVersion(segs[i]) || !IsParam(segs[i]) {
        out := out + [segs[i]];
        continue;
      }
      out := out + [PARAM];
    }
    return Rendered(out);
  }

  // --- Templates are templates of themselves --------------------------------------------------

  /** A segment that the pass leaves as it is. */
  predicate Settled(mark: string -> string, seg: string) {
    seg != "" && '/' !in seg && '?' !in seg && mark(seg) == seg
  }

  predicate AllSettled(mark: string -> string, segs: seq<string>) {
    forall seg :: seg in segs ==> Settled(mark, seg)
  }

  lemma {:induction false} LabelsSettled(mark: string -> string, segs: seq<string>, n: nat)
    requires n <= |segs| && forall seg :: seg in segs && seg != "" ==> Settled(mark, mark(seg))
    ensures AllSettled(mark, Labels(mark, segs, n)) && |Labels(mark, segs, n)| <= n
  {
    if n > 0 {
      assert segs[n - 1] in segs;
      LabelsSettled(mark, segs, n - 1);
    }
  }

  lemma {:induction false} LabelsOfSettled(mark: string -> string, segs: seq<string>, n: nat)
    requires n <= |segs| && AllSettled(mark, segs)
    ensures Labels(mark, segs, n) == segs[..n]
  {
    if n > 0 {
      assert segs[n - 1] in segs;
      LabelsOfSettled(mark, segs, n - 1);
      assert segs[..n] == segs[..n - 1] + [segs[n - 1]];
    }
  }

  /** What the pass produces fits the depth bound, and a wildcard is its last segment. */
  predicate Bounded(out: seq<string>) {
    |out| <= MAX_SEGMENTS || (|out| == MAX_SEGMENTS + 1 && out[MAX_SEGMENTS] == MORE)
  }

  lemma OutlineSettled(mark: string -> string, segs: seq<string>)
    requires Settled(mark, MORE) && forall seg :: seg in segs && seg != "" ==> Settled(mark, mark(seg))
    ensures AllSettled(mark, Outline(mark, segs)) && Bounded(Outline(mark, segs))
  {
    LabelsSettled(mark, segs, if |segs| > MAX_SEGMENTS then MAX_SEGMENTS else |segs|);
  }

  lemma OutlineOfSettled(mark: string -> string, out: seq<string>)
    requires AllSettled(mark, out) && Bounded(out)
    ensures Outline(mark, out) == out
  {
    if |out| > MAX_SEGMENTS {
      LabelsOfSettled(mark, out, MAX_SEGMENTS);
      assert out == out[..MAX_SEGMENTS] + [MORE];
    } else {
      LabelsOfSettled(mark, out, |out|);
      assert out[..|out|] == out;
    }
  }

  lemma {:induction false} JoinSettled(mark: string -> string, out: seq<string>)
    requires out != [] && AllSettled(mark, out)
    ensures var s := Join(out, '/'); s != "" && s[0] != '/' && s[|s| - 1] != '/' && '?' !in s
  {
    assert Settled(mark, out[0]);
    if |out| > 1 {
      JoinSettled(mark, out[1..]);
    }
  }

  lemma TrimOnce(s: string)
    requires s != "" && s[0] != '/' && s[|s| - 1] != '/'
    ensures TrimSlashRight(TrimSlashLeft(['/'] + s)) == s
  {
  }

  lemma CoreOfRendered(mark: string -> string, out: seq<string>)
    requires out != [] && AllSettled(mark, out)
    ensures Core(Rendered(out)) == Join(out, '/') && Join(out, '/') != ""
  {
    JoinSettled(mark, out);
    TrimOnce(Join(out, '/'));
  }

  lemma TemplateOfSettled(mark: string -> string, out: seq<string>)
    requires AllSettled(mark, out) && Bounded(out)
    ensures Template(mark, Rendered(out)) == Rendered(out)
  {
    if out == [] {
      assert Core("/") == "" by {
        assert "/"[1..] == "";
      }
    } else {
      CoreOfRendered(mark, out);
      SplitOfJoin(out, '/');
      OutlineOfSettled(mark, out);
    }
  }

  lemma {:induction false} PieceChars(s: string, sep: char, part: string)
    requires part in Split(s, sep)
    ensures forall c :: c in part ==> c in s
    decreases |s|
  {
    if sep in s && part != s[..IndexOf(s, sep)] {
      PieceChars(s[IndexOf(s, sep) + 1..], sep, part);
    }
  }

  /** The two written labels are words of their own. */
  lemma WrittenLabels()
    ensures Settled(Label, PARAM) && Settled(Label, MORE)
  {
  }

  lemma LabelSettles(seg: string)
    requires seg != "" && '/' !in seg && '?' !in seg
    ensures Settled(Label, Label(seg))
  {
  }

  /** The segments of a template: at most 11, none empty, and none an identifier. */
  lemma TemplateSegments(path: string) returns (out: seq<string>)
    ensures Template(Label, path) == Rendered(out) && AllSettled(Label, out) && Bounded(out)
    ensures forall seg :: seg in out ==> IsVersion(seg) || !IsParam(seg)
  {
    if Core(path) == "" {
      out := [];
    } else {
      var segs := Split(Core(path), '/');
      forall seg | seg in segs && seg != ""
        ensures Settled(Label, Label(seg))
      {
        PieceChars(Core(path), '/', seg);
        LabelSettles(seg);
      }
      WrittenLabels();
      OutlineSettled(Label, segs);
      out := Outline(Label, segs);
      forall seg | seg in out
        ensures IsVersion(seg) || !IsParam(seg)
      {
        SettledIsLiteral(seg);
      }
    }
  }

  lemma SettledIsLiteral(seg: string)
    requires Settled(Label, seg)
    ensures IsVersion(seg) || !IsParam(seg)
  {
  }

  /** Main result: the template of a template is itself, so learning a learned route adds nothing. */
  lemma TemplateIsIdempotent(path: string)
    ensures Template(Label, Template(Label, path)) == Template(Label, path)
  {
    var out := TemplateSegments(path);
    TemplateOfSettled(Label, out);
  }

  // --- From the path to its template ----------------------------------------------------------

  predicate IsSegment(seg: string) {
    seg != "" && '/' !in seg && '?' !in seg
  }

  predicate AllSegments(segs: seq<string>) {
    forall seg :: seg in segs ==> IsSegment(seg)
  }

  /** A path with a query string. */
  function PathOf(segs: seq<string>, query: string): string {
    ['/'] + Join(segs, '/') + (['?'] + query)
  }

  lemma {:induction false} JoinOfSegments(segs: seq<string>)
    requires segs != [] && AllSegments(segs)
    ensures var s := Join(segs, '/'); s != "" && s[0] != '/' && s[|s| - 1] != '/' && '?' !in s
  {
    assert IsSegment(segs[0]);
    if |segs| > 1 {
      JoinOfSegments(segs[1..]);
    }
  }

  lemma CoreOfPath(segs: seq<string>, query: string)
    requires segs != [] && AllSegments(segs)
    ensures Core(PathOf(segs, query)) == Join(segs, '/') && Join(segs, '/') != ""
  {
    JoinOfSegments(segs);
    var path, body := PathOf(segs, query), ['/'] + Join(segs, '/');
    assert path[|body|] == '?' && path[..|body|] == body;
    FirstIndex(path, '?', |body|);
    TrimOnce(Join(segs, '/'));
  }

  lemma {:induction false} LabelsAt(mark: string -> string, segs: seq<string>, n: nat)
    requires n <= |segs| && AllSegments(segs)
    ensures |Labels(mark, segs, n)| == n
    ensures forall i :: 0 <= i < n ==> Labels(mark, segs, n)[i] == mark(segs[i])
  {
    if n > 0 {
      LabelsAt(mark, segs, n - 1);
      assert segs[n - 1] in segs;
    }
  }

  lemma SegmentsMarked(mark: string -> string, segs: seq<string>, query: string) returns (out: seq<string>)
    requires segs != [] && AllSegments(segs)
    ensures Template(mark, PathOf(segs, query)) == ['/'] + Join(out, '/')
    ensures |out| == if |segs| <= 10 then |segs| else 11
    ensures |segs| > 10 ==> out[10] == MORE
    ensures forall i :: 0 <= i < |segs| && i < 10 ==> out[i] == mark(segs[i])
  {
    CoreOfPath(segs, query);
    SplitOfJoin(segs, '/');
    out := Outline(mark, segs);
    LabelsAt(mark, segs, if |segs| > 10 then 10 else |segs|);
  }

  /**
   Segment by segment: the template has the path's segments in place, each as it is or as a parameter,
   and a wildcard in place of everything after the tenth. The query string is dropped.
   */
  lemma SegmentsInPlace(segs: seq<string>, query: string) returns (out: seq<string>)
    requires segs != [] && AllSegments(segs)
    ensures Template(Label, PathOf(segs, query)) == ['/'] + Join(out, '/')
    ensures |out| == if |segs| <= 10 then |segs| else 11
    ensures |segs| > 10 ==> out[10] == "..."
    ensures forall i :: 0 <= i < |segs| && i < 10 && IsLiteral(segs[i]) ==> out[i] == segs[i]
    ensures forall i :: 0 <= i < |segs| && i < 10 && IsIdentifier(segs[i]) ==> out[i] == "{param}"
    ensures forall i :: 0 <= i < |segs| && i < 10 ==> out[i] == segs[i] || out[i] == "{param}"
  {
    out := SegmentsMarked(Label, segs, query);
    forall i | 0 <= i < |segs| && i < 10
      ensures IsLiteral(segs[i]) ==> out[i] == segs[i]
      ensures IsIdentifier(segs[i]) ==> out[i] == "{param}"
      ensures out[i] == segs[i] || out[i] == "{param}"
    {
      assert segs[i] in segs;
      LabelIs(segs[i]);
    }
  }

  /** Words: some character is neither a hexadecimal digit nor a dash, and there is no at sign. */
  ghost predicate IsLiteral(seg: string) {
    '@' !in seg && exists c :: c in seg && !IsHex(c) && c != '-'
  }

  /** Numbers, long hexadecimal strings and addresses. */
  ghost predicate IsIdentifier(seg: string) {
    || '@' in seg
    || (seg != "" && forall c :: c in seg ==> '0' <= c <= '9')
    || (|seg| >= 16 && forall c :: c in seg ==> '0' <= c <= '9' || 'a' <= c <= 'f' || 'A' <= c <= 'F')
  }

  lemma LabelIs(seg: string)
    requires IsSegment(seg)
    ensures IsLiteral(seg) ==> Label(seg) == seg
    ensures IsIdentifier(seg) ==> Label(seg) == PARAM
  {
    if IsLiteral(seg) {
      LiteralIsNoParam(seg);
    }
    if IsIdentifier(seg) {
      IdentifierIsParam(seg);
    }
  }

  lemma IdentifierIsParam(seg: string)
    requires IsSegment(seg) && IsIdentifier(seg)
    ensures IsParam(seg) && !IsVersion(seg)
  {
    assert forall i :: 0 <= i < |seg| ==> seg[i] in seg;
    var low := ToLower(seg);
    if '@' in seg {
      var i :| 0 <= i < |seg| && seg[i] == '@';
      assert low[i] == '@';
    } else {
      assert IsHex(seg[0]) && low[0] == Lower(seg[0]);
      if |seg| == 3 {
        assert low[1] == Lower(seg[1]) && IsHex(seg[1]);
      }
    }
  }

  lemma LiteralIsNoParam(seg: string)
    requires IsLiteral(seg)
    ensures !IsParam(seg)
  {
    var c :| c in seg && !IsHex(c) && c != '-';
    var i :| 0 <= i < |seg| && seg[i] == c;
    assert !IsHex(seg[i]);
    KeptWithoutDashes(seg, c);
    if IsDateLike(seg) {
      DateHasDigits(seg, i);
    }
  }

  lemma {:induction false} KeptWithoutDashes(s: string, c: char)
    requires c in s && c != '-'
    ensures c in WithoutDashes(s)
  {
    if s[0] == '-' {
      KeptWithoutDashes(s[1..], c);
    } else if s[0] != c {
      KeptWithoutDashes(s[1..], c);
    }
  }

  lemma DateHasDigits(s: string, i: nat)
    requires i < |s| && IsDateLike(s)
    ensures IsDigit(s[i]) || s[i] == '-'
  {
    if |s| == 10 && s[4] == '-' && s[7] == '-' && AllDigits(s[0..4] + s[5..7] + s[8..10]) {
      var d := s[0..4] + s[5..7] + s[8..10];
      if i < 4 {
        assert d[i] == s[i];
      } else if 5 <= i < 7 {
        assert d[i - 1] == s[i];
      } else if i >= 8 {
        assert d[i - 2] == s[i];
      }
    }
  }
}
