/** The string operations the program takes from its standard library, on ASCII text. */
module Text {
  import opened Sequences

  function Lower(c: char): char {
    if 'A' <= c <= 'Z' then c + 32 as char else c
  }

  function ToLower(s: string): (r: string)
    ensures |r| == |s|
    ensures forall i :: 0 <= i < |s| ==> r[i] == Lower(s[i])
  {
    seq(|s|, i requires 0 <= i < |s| => Lower(s[i]))
  }

  predicate EqualFold(a: string, b: string) {
    ToLower(a) == ToLower(b)
  }

  predicate IsSpace(c: char) {
    c == ' ' || c == '\t' || c == '\n' || c == '\U{0B}' || c == '\U{0C}' || c == '\r'
  }

  function TrimLeft(s: string): (r: string)
    ensures |r| <= |s| && r == s[|s| - |r|..]
    ensures r != [] ==> !IsSpace(r[0])
    ensures forall i :: 0 <= i < |s| - |r| ==> IsSpace(s[i])
  {
    if s != [] && IsSpace(s[0]) then TrimLeft(s[1..]) else s
  }

  function TrimRight(s: string): (r: string)
    ensures r <= s
    ensures r != [] ==> !IsSpace(r[|r| - 1])
    ensures forall i :: |r| <= i < |s| ==> IsSpace(s[i])
  {
    if s != [] && IsSpace(s[|s| - 1]) then TrimRight(s[..|s| - 1]) else s
  }

  function TrimSpace(s: string): string {
    TrimRight(TrimLeft(s))
  }

  predicate OccursAt(s: string, sub: string, i: int) {
    0 <= i <= |s| - |sub| && s[i..i + |sub|] == sub
  }

  predicate Contains(s: string, sub: string) {
    exists i | 0 <= i <= |s| - |sub| :: OccursAt(s, sub, i)
  }

  lemma OccursWithin(s: string, part: string, i: int, sub: string, j: int)
    requires OccursAt(s, part, i) && OccursAt(part, sub, j)
    ensures OccursAt(s, sub, i + j)
  {
    SliceOfSlice(s, i, i + |part|, j, j + |sub|);
  }

  lemma SliceOfSlice<T>(s: seq<T>, a: nat, b: nat, c: nat, d: nat)
    requires a <= b <= |s| && c <= d <= b - a
    ensures s[a..b][c..d] == s[a + c..a + d]
  {
    var inner, outer := s[a..b][c..d], s[a + c..a + d];
    forall k | 0 <= k < |inner|
      ensures inner[k] == outer[k]
    {
      assert inner[k] == s[a..b][c + k];
    }
  }

  lemma LowerOccurs(s: string, part: string, i: int)
    requires OccursAt(s, part, i)
    ensures OccursAt(ToLower(s), ToLower(part), i)
  {
  }

  /** The trimmed text is a part of the text. */
  lemma TrimIsSubstring(s: string) returns (i: nat)
    ensures OccursAt(s, TrimSpace(s), i)
  {
    i := |s| - |TrimLeft(s)|;
  }

  /** Text without surrounding space is left alone. */
  lemma TrimNothing(s: string)
    requires s == [] || (!IsSpace(s[0]) && !IsSpace(s[|s| - 1]))
    ensures TrimSpace(s) == s
  {
  }

  // --- Split and Join -------------------------------------------------------------------------

  /** The pieces between separators; the empty text has one empty piece. */
  function Split(s: string, sep: char): (parts: seq<string>)
    ensures parts != []
    ensures forall part :: part in parts ==> sep !in part
  {
    if sep !in s then [s]
    else
      var i := IndexOf(s, sep);
      [s[..i]] + Split(s[i + 1..], sep)
  }

  function IndexOf(s: string, c: char): (i: nat)
    requires c in s
    ensures i < |s| && s[i] == c && c !in s[..i]
  {
    if s[0] == c then 0 else 1 + IndexOf(s[1..], c)
  }

  function Join(parts: seq<string>, sep: char): string {
    if parts == [] then ""
    else if |parts| == 1 then parts[0]
    else parts[0] + [sep] + Join(parts[1..], sep)
  }

  /** The first separator ends the first piece. */
  lemma SplitFirst(a: string, b: string, sep: char)
    requires sep !in a
    ensures Split(a + [sep] + b, sep) == [a] + Split(b, sep)
  {
    var s := a + [sep] + b;
    assert s[|a|] == sep && s[..|a|] == a && s[|a| + 1..] == b;
    assert forall i :: 0 <= i < |a| ==> s[i] == a[i];
    FirstIndex(s, sep, |a|);
  }

  lemma FirstIndex(s: string, c: char, i: nat)
    requires i < |s| && s[i] == c && c !in s[..i]
    ensures IndexOf(s, c) == i
  {
  }

  /** Pieces without separators survive a join and a split. */
  lemma {:induction false} SplitOfJoin(parts: seq<string>, sep: char)
    requires parts != []
    requires forall part :: part in parts ==> sep !in part
    ensures Split(Join(parts, sep), sep) == parts
  {
    if |parts| > 1 {
      SplitOfJoin(parts[1..], sep);
      SplitFirst(parts[0], Join(parts[1..], sep), sep);
      assert [parts[0]] + parts[1..] == parts;
    }
  }

  lemma {:induction false} JoinOfSplit(s: string, sep: char)
    ensures Join(Split(s, sep), sep) == s
    decreases |s|
  {
    if sep in s {
      var head, tail := CutAtFirst(s, sep);
      JoinOfSplit(tail, sep);
      assert Split(s, sep)[1..] == Split(tail, sep);
    }
  }

  /** A text as what is before and after its first separator. */
  lemma CutAtFirst(s: string, sep: char) returns (head: string, tail: string)
    requires sep in s
    ensures s == head + [sep] + tail && sep !in head && |tail| < |s|
    ensures Split(s, sep) == [head] + Split(tail, sep)
  {
    var i := IndexOf(s, sep);
    head, tail := s[..i], s[i + 1..];
  }

  /** Splitting distributes over a separator in the middle. */
  lemma {:induction false} SplitOfConcat(a: string, b: string, sep: char)
    ensures Split(a + [sep] + b, sep) == Split(a, sep) + Split(b, sep)
    decreases |a|
  {
    if sep !in a {
      SplitFirst(a, b, sep);
    } else {
      var head, tail := CutAtFirst(a, sep);
      SplitOfConcat(tail, b, sep);
      SplitStep(a, head, tail, b, sep);
    }
  }

  lemma SplitStep(a: string, head: string, tail: string, b: string, sep: char)
    requires a == head + [sep] + tail && sep !in head
    requires Split(tail + [sep] + b, sep) == Split(tail, sep) + Split(b, sep)
    ensures Split(a + [sep] + b, sep) == Split(a, sep) + Split(b, sep)
  {
    var rest := tail + [sep] + b;
    AssocAll(head + [sep], tail, [sep], b);
    Assoc(tail, [sep], b);
    SplitFirst(head, rest, sep);
    SplitFirst(head, tail, sep);
    Assoc([head], Split(tail, sep), Split(b, sep));
  }

  /** All pieces of all texts, in order. */
  function SplitAll(texts: seq<string>, sep: char): seq<string> {
    if texts == [] then [] else Split(texts[0], sep) + SplitAll(texts[1..], sep)
  }

  /** Joining texts that contain separators and splitting the result yields all their pieces. */
  lemma {:induction false} SplitOfJoinAll(texts: seq<string>, sep: char)
    requires texts != []
    ensures Split(Join(texts, sep), sep) == SplitAll(texts, sep)
  {
    if |texts| > 1 {
      SplitOfJoinAll(texts[1..], sep);
      SplitOfConcat(texts[0], Join(texts[1..], sep), sep);
    } else {
      assert SplitAll(texts[1..], sep) == [];
    }
  }
}
