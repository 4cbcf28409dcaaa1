/**
 Filtering a text of lines some of which stand for the lines of a file.

 A pass drops some lines, and replaces some file references by the filtered text of their file so
 that the lines inside can be dropped too. The lemmas relate the text it produces to the reference
 order of work: first expand every reference, then drop.
 */
module LineFilter {
  import opened Options
  import opened Sequences
  import opened Text

  /** drop: lines to delete; body: the text a line refers to; inline: references that are replaced. */
  datatype Pass = Pass(drop: string -> bool, body: string -> Option<string>, inline: string -> bool)

  /** The reference filter: dropped lines removed, everything else kept in order. */
  function Filter(drop: string -> bool, lines: seq<string>): (r: seq<string>)
    ensures forall line :: line in r <==> line in lines && !drop(line)
  {
    if lines == [] then []
    else (if drop(lines[0]) then [] else [lines[0]]) + Filter(drop, lines[1..])
  }

  function ExpandLine(body: string -> Option<string>, line: string): seq<string> {
    if body(line).Some? then Split(body(line).value, '\n') else [line]
  }

  /** The lines a text stands for. */
  function Expand(body: string -> Option<string>, lines: seq<string>): seq<string> {
    if lines == [] then [] else ExpandLine(body, lines[0]) + Expand(body, lines[1..])
  }

  function Dropped(drop: string -> bool, content: string): string {
    Join(Filter(drop, Split(content, '\n')), '\n')
  }

  function Chunk(p: Pass, line: string): string {
    if p.inline(line) && p.body(line).Some? then Dropped(p.drop, p.body(line).value) else line
  }

  function Chunks(p: Pass, lines: seq<string>): seq<string> {
    if lines == [] then [] else [Chunk(p, lines[0])] + Chunks(p, lines[1..])
  }

  /** The whole pass: inline, join, and drop once more over the result. */
  function Materialized(p: Pass, text: string): string {
    Dropped(p.drop, Join(Chunks(p, Split(text, '\n')), '\n'))
  }

  /**
   What the pass relies on: files do not refer to files, references are not dropped, only references
   are inlined, references left alone contain nothing to drop, and a blank line is neither.
   */
  ghost predicate Coherent(p: Pass) {
    && (forall line, l :: p.body(line).Some? && l in Split(p.body(line).value, '\n') ==> p.body(l) == None)
    && (forall line :: p.body(line).Some? ==> !p.drop(line))
    && (forall line :: p.inline(line) ==> p.body(line).Some?)
    && (forall line, l :: p.body(line).Some? && !p.inline(line) && l in Split(p.body(line).value, '\n') ==> !p.drop(l))
    && !p.drop("") && p.body("") == None
  }

  lemma {:induction false} FilterSnoc(drop: string -> bool, lines: seq<string>, last: string)
    ensures Filter(drop, lines + [last]) == Filter(drop, lines) + if drop(last) then [] else [last]
  {
    FilterConcat(drop, lines, [last]);
    assert [last][1..] == [];
  }

  lemma {:induction false} ChunksSnoc(p: Pass, lines: seq<string>, last: string)
    ensures Chunks(p, lines + [last]) == Chunks(p, lines) + [Chunk(p, last)]
  {
    if lines != [] {
      ChunksSnoc(p, lines[1..], last);
      assert (lines + [last])[1..] == lines[1..] + [last];
    } else {
      assert (lines + [last])[1..] == [];
    }
  }

  method DropLines(drop: string -> bool, content: string) returns (r: string)
    ensures r == Dropped(drop, content)
  {
    var lines := Split(content, '\n');
    var out: seq<string> := [];
    for i := 0 to |lines|
      invariant out == Filter(drop, lines[..i])
    {
      FilterSnoc(drop, lines[..i], lines[i]);
      assert lines[..i + 1] == lines[..i] + [lines[i]];
      if drop(lines[i]) {
        continue;
      }
      out := out + [lines[i]];
    }
    assert lines[..|lines|] == lines;
    return Join(out, '\n');
  }

  method Materialize(p: Pass, text: string) returns (r: string)
    ensures r == Materialized(p, text)
  {
    var lines := Split(text, '\n');
    var out: seq<string> := [];
    for i := 0 to |lines|
      invariant out == Chunks(p, lines[..i])
    {
      ChunksSnoc(p, lines[..i], lines[i]);
      assert lines[..i + 1] == lines[..i] + [lines[i]];
      var content := p.body(lines[i]);
      if content.Some? && p.inline(lines[i]) {
        var filtered := DropLines(p.drop, content.value);
        out := out + [filtered];
        continue;
      }
      out := out + [lines[i]];
    }
    assert lines[..|lines|] == lines;
    r := DropLines(p.drop, Join(out, '\n'));
  }

  lemma FilterCons(drop: string -> bool, line: string, lines: seq<string>)
    ensures Filter(drop, [line] + lines) == (if drop(line) then [] else [line]) + Filter(drop, lines)
  {
  }

  lemma {:induction false} FilterConcat(drop: string -> bool, a: seq<string>, b: seq<string>)
    ensures Filter(drop, a + b) == Filter(drop, a) + Filter(drop, b)
  {
    if a == [] {
      assert a + b == b;
    } else {
      var line, rest := a[0], a[1..];
      FilterConcat(drop, rest, b);
      assert a == [line] + rest;
      Assoc([line], rest, b);
      FilterCons(drop, line, rest + b);
      Assoc(if drop(line) then [] else [line], Filter(drop, rest), Filter(drop, b));
    }
  }

  lemma {:induction false} FilterKeepsClean(drop: string -> bool, lines: seq<string>)
    requires forall line :: line in lines ==> !drop(line)
    ensures Filter(drop, lines) == lines
  {
    if lines != [] {
      FilterKeepsClean(drop, lines[1..]);
    }
  }

  lemma ExpandCons(body: string -> Option<string>, line: string, lines: seq<string>)
    ensures Expand(body, [line] + lines) == ExpandLine(body, line) + Expand(body, lines)
  {
  }

  lemma {:induction false} ExpandConcat(body: string -> Option<string>, a: seq<string>, b: seq<string>)
    ensures Expand(body, a + b) == Expand(body, a) + Expand(body, b)
  {
    if a == [] {
      assert a + b == b;
    } else {
      var line, rest := a[0], a[1..];
      ExpandConcat(body, rest, b);
      assert a == [line] + rest;
      Assoc([line], rest, b);
      ExpandCons(body, line, rest + b);
      Assoc(ExpandLine(body, line), Expand(body, rest), Expand(body, b));
    }
  }

  lemma {:induction false} ExpandPlain(body: string -> Option<string>, lines: seq<string>)
    requires forall line :: line in lines ==> body(line) == None
    ensures Expand(body, lines) == lines
  {
    if lines != [] {
      ExpandPlain(body, lines[1..]);
    }
  }

  lemma {:induction false} ExpandIsLonger(body: string -> Option<string>, lines: seq<string>)
    ensures |Expand(body, lines)| >= |lines|
  {
    if lines != [] {
      ExpandIsLonger(body, lines[1..]);
    }
  }

  // --- The text the pass produces, line by line -----------------------------------------------

  /** Joining no lines and splitting again leaves one blank line. */
  function OrBlank(lines: seq<string>): seq<string> {
    if lines == [] then [""] else lines
  }

  lemma SplitOfDropped(drop: string -> bool, content: string)
    ensures Split(Dropped(drop, content), '\n') == OrBlank(Filter(drop, Split(content, '\n')))
  {
    var kept := Filter(drop, Split(content, '\n'));
    if kept != [] {
      SplitOfJoin(kept, '\n');
    }
  }

  /** The lines the pass keeps in place of one line. */
  function Kept(p: Pass, line: string): seq<string> {
    if p.inline(line) && p.body(line).Some? then OrBlank(Filter(p.drop, Split(p.body(line).value, '\n')))
    else Filter(p.drop, [line])
  }

  function KeptAll(p: Pass, lines: seq<string>): seq<string> {
    if lines == [] then [] else Kept(p, lines[0]) + KeptAll(p, lines[1..])
  }

  lemma FilteredChunk(p: Pass, line: string)
    requires Coherent(p) && '\n' !in line
    ensures Filter(p.drop, Split(Chunk(p, line), '\n')) == Kept(p, line)
  {
    if p.inline(line) {
      SplitOfDropped(p.drop, p.body(line).value);
      FilterKeepsClean(p.drop, Kept(p, line));
    }
  }

  lemma {:induction false} FilteredChunks(p: Pass, lines: seq<string>)
    requires Coherent(p) && forall line :: line in lines ==> '\n' !in line
    ensures Filter(p.drop, SplitAll(Chunks(p, lines), '\n')) == KeptAll(p, lines)
  {
    if lines != [] {
      assert lines[0] in lines;
      FilteredChunk(p, lines[0]);
      FilteredChunks(p, lines[1..]);
      FilterConcat(p.drop, Split(Chunk(p, lines[0]), '\n'), SplitAll(Chunks(p, lines[1..]), '\n'));
      assert Chunks(p, lines)[1..] == Chunks(p, lines[1..]);
    }
  }

  lemma MaterializedLines(p: Pass, text: string)
    requires Coherent(p)
    ensures Split(Materialized(p, text), '\n') == OrBlank(KeptAll(p, Split(text, '\n')))
  {
    var chunks := Chunks(p, Split(text, '\n'));
    SplitOfDropped(p.drop, Join(chunks, '\n'));
    SplitOfJoinAll(chunks, '\n');
    FilteredChunks(p, Split(text, '\n'));
  }

  // --- Against the reference order of work ----------------------------------------------------

  /** Per line, the pass keeps what is wanted, or one blank line where nothing is left of a file. */
  lemma KeptIsWanted(p: Pass, line: string)
    requires Coherent(p)
    ensures var wanted := Filter(p.drop, ExpandLine(p.body, line));
      Expand(p.body, Kept(p, line)) == if p.inline(line) then OrBlank(wanted) else wanted
  {
    if p.inline(line) {
      ExpandPlain(p.body, Kept(p, line));
    } else if p.body(line).Some? {
      FilterKeepsClean(p.drop, [line]);
      FilterKeepsClean(p.drop, ExpandLine(p.body, line));
      assert [line][1..] == [];
      assert Expand(p.body, [line]) == ExpandLine(p.body, line);
    } else {
      ExpandPlain(p.body, Kept(p, line));
    }
  }

  /** Every line of the referenced file is dropped. */
  predicate Vanishes(p: Pass, line: string) {
    p.inline(line) && Filter(p.drop, ExpandLine(p.body, line)) == []
  }

  predicate IsBlank(line: string) {
    line == ""
  }

  function NonBlank(lines: seq<string>): (r: seq<string>)
    ensures forall line :: line in r <==> line in lines && line != ""
  {
    Filter(IsBlank, lines)
  }

  /** The expansions of the first line and of the rest, before and after the pass. */
  lemma KeptAllStep(p: Pass, lines: seq<string>)
    requires Coherent(p) && lines != []
    ensures var line, rest := lines[0], lines[1..];
      var wanted := Filter(p.drop, ExpandLine(p.body, line));
      && Expand(p.body, KeptAll(p, lines)) ==
        (if p.inline(line) then OrBlank(wanted) else wanted) + Expand(p.body, KeptAll(p, rest))
      && Filter(p.drop, Expand(p.body, lines)) == wanted + Filter(p.drop, Expand(p.body, rest))
  {
    KeptIsWanted(p, lines[0]);
    ExpandConcat(p.body, Kept(p, lines[0]), KeptAll(p, lines[1..]));
    FilterConcat(p.drop, ExpandLine(p.body, lines[0]), Expand(p.body, lines[1..]));
  }

  lemma {:induction false} KeptAllLength(p: Pass, lines: seq<string>)
    requires Coherent(p)
    ensures var got, want := Expand(p.body, KeptAll(p, lines)), Filter(p.drop, Expand(p.body, lines));
      && |got| >= |want|
      && (|got| == |want| <==> forall line :: line in lines ==> !Vanishes(p, line))
      && (|got| == |want| ==> got == want)
  {
    if lines != [] {
      KeptAllLength(p, lines[1..]);
      KeptAllStep(p, lines);
      assert forall l :: l in lines <==> l == lines[0] || l in lines[1..];
      var wanted := Filter(p.drop, ExpandLine(p.body, lines[0]));
      assert Vanishes(p, lines[0]) <==> |if p.inline(lines[0]) then OrBlank(wanted) else wanted| != |wanted|;
    }
  }

  lemma {:induction false} KeptAllMeaning(p: Pass, lines: seq<string>)
    requires Coherent(p)
    ensures NonBlank(Expand(p.body, KeptAll(p, lines))) == NonBlank(Filter(p.drop, Expand(p.body, lines)))
  {
    if lines != [] {
      KeptAllMeaning(p, lines[1..]);
      KeptAllStep(p, lines);
      var wanted := Filter(p.drop, ExpandLine(p.body, lines[0]));
      FilterConcat(IsBlank, wanted, Filter(p.drop, Expand(p.body, lines[1..])));
      FilterConcat(IsBlank, wanted, Expand(p.body, KeptAll(p, lines[1..])));
      FilterConcat(IsBlank, [""], Expand(p.body, KeptAll(p, lines[1..])));
      assert NonBlank([""]) == [];
    }
  }

  /** Expanding after the pass gives the same nonblank lines as expanding first and then dropping. */
  lemma PassPreservesMeaning(p: Pass, text: string)
    requires Coherent(p)
    ensures NonBlank(Expand(p.body, Split(Materialized(p, text), '\n'))) ==
      NonBlank(Filter(p.drop, Expand(p.body, Split(text, '\n'))))
  {
    MaterializedLines(p, text);
    KeptAllMeaning(p, Split(text, '\n'));
    ExpandPlain(p.body, [""]);
    assert NonBlank([""]) == [];
  }

  /** Exactly when the two agree to the last blank line. */
  lemma PassPreservesLines(p: Pass, text: string)
    requires Coherent(p)
    ensures var lines := Split(text, '\n');
      var want := Filter(p.drop, Expand(p.body, lines));
      Expand(p.body, Split(Materialized(p, text), '\n')) == want <==>
        want != [] && forall line :: line in lines ==> !Vanishes(p, line)
  {
    MaterializedLines(p, text);
    KeptAllLength(p, Split(text, '\n'));
    ExpandIsLonger(p.body, KeptAll(p, Split(text, '\n')));
    ExpandPlain(p.body, [""]);
  }

  /** A text that only refers to a file whose one line is dropped keeps a blank line. */
  lemma PassLosesFile(p: Pass, text: string, update: string)
    requires Coherent(p) && '\n' !in text && p.body(text) == Some(update)
    requires '\n' !in update && p.drop(update)
    ensures Expand(p.body, Split(Materialized(p, text), '\n')) != Filter(p.drop, Expand(p.body, Split(text, '\n')))
  {
  }

  lemma {:induction false} KeptAllMembers(p: Pass, lines: seq<string>, line: string)
    requires Coherent(p) && line in KeptAll(p, lines)
    ensures !p.drop(line) && !p.inline(line)
  {
    if line !in Kept(p, lines[0]) {
      KeptAllMembers(p, lines[1..], line);
    }
  }

  lemma {:induction false} ChunksOfPlain(p: Pass, lines: seq<string>)
    requires forall line :: line in lines ==> !p.inline(line)
    ensures Chunks(p, lines) == lines
  {
    if lines != [] {
      ChunksOfPlain(p, lines[1..]);
    }
  }

  lemma PassIsIdempotent(p: Pass, text: string)
    requires Coherent(p)
    ensures Materialized(p, Materialized(p, text)) == Materialized(p, text)
  {
    var result := Materialized(p, text);
    var lines := Split(result, '\n');
    MaterializedLines(p, text);
    forall line | line in lines
      ensures !p.drop(line) && !p.inline(line)
    {
      if line in KeptAll(p, Split(text, '\n')) {
        KeptAllMembers(p, Split(text, '\n'), line);
      }
    }
    ChunksOfPlain(p, lines);
    JoinOfSplit(result, '\n');
    FilterKeepsClean(p.drop, lines);
  }
}
