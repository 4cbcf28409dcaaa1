/**
 Change detection of the configuration center: a published document is compared with the stored
 one after its empty sections are stripped.

 The stripping is specified twice: by the recursion of the program (Normalize) and by single
 deletions of one empty map entry anywhere in the document (Deletes). The second form is
 nondeterministic; the lemmas show that every order of deletions ends, and ends in Normalize.
 */
module NormalForm {
  import opened Sets

  /** A decoded JSON document; scalars are opaque. */
  datatype Json = Atom(text: string) | Arr(items: seq<Json>) | Obj(fields: map<string, Json>)

  predicate IsEmptyContainer(v: Json) {
    match v
    case Atom(_) => false
    case Arr(items) => items == []
    case Obj(fields) => fields == map[]
  }

  function Normalize(v: Json): Json {
    match v
    case Atom(_) => v
    case Arr(items) => Arr(seq(|items|, i requires 0 <= i < |items| => Normalize(items[i])))
    case Obj(fields) => Obj(map k | k in fields && !IsEmptyContainer(Normalize(fields[k])) :: Normalize(fields[k]))
  }

  /** w is v with exactly one map entry removed, at any depth, and that entry held an empty container. */
  ghost predicate Deletes(v: Json, w: Json) {
    match v
    case Atom(_) => false
    case Arr(items) =>
      && w.Arr? && |w.items| == |items|
      && exists i | 0 <= i < |items| :: w.items == items[i := w.items[i]] && Deletes(items[i], w.items[i])
    case Obj(fields) =>
      && w.Obj?
      && exists k | k in fields ::
        || (IsEmptyContainer(fields[k]) && w.fields == fields - {k})
        || (k in w.fields && w.fields == fields[k := w.fields[k]] && Deletes(fields[k], w.fields[k]))
  }

  /** The entry of the top-level map on which a deletion acts. */
  ghost function DeletedField(v: Json, w: Json): (k: string)
    requires v.Obj? && Deletes(v, w)
    ensures k in v.fields
    ensures k in w.fields ==> w.fields == v.fields[k := w.fields[k]] && Deletes(v.fields[k], w.fields[k])
    ensures k !in w.fields ==> IsEmptyContainer(v.fields[k]) && w.fields == v.fields - {k}
  {
    var k :| k in v.fields &&
      ((IsEmptyContainer(v.fields[k]) && w.fields == v.fields - {k}) ||
      (k in w.fields && w.fields == v.fields[k := w.fields[k]] && Deletes(v.fields[k], w.fields[k])));
    k
  }

  /** path is a run of single deletions. */
  ghost predicate Deletions(path: seq<Json>) {
    && path != []
    && forall i | 0 < i < |path| :: Deletes(path[i - 1], path[i])
  }

  ghost predicate Irreducible(v: Json) {
    forall w :: !Deletes(v, w)
  }

  /** v can be turned into w by deleting empty entries. */
  ghost predicate ReducesTo(v: Json, w: Json) {
    exists path :: Deletions(path) && path[0] == v && path[|path| - 1] == w
  }

  lemma EmptyIsNormal(v: Json)
    requires IsEmptyContainer(v)
    ensures IsEmptyContainer(Normalize(v))
  {
  }

  /** Normalize ignores a deletion. */
  lemma {:induction false} DeletionKeepsNormalForm(v: Json, w: Json)
    requires Deletes(v, w)
    ensures Normalize(w) == Normalize(v)
  {
    match v
    case Atom(_) =>
    case Arr(items) =>
      var i :| 0 <= i < |items| && w.items == items[i := w.items[i]] && Deletes(items[i], w.items[i]);
      DeletionKeepsNormalForm(items[i], w.items[i]);
      assert Normalize(w).items == Normalize(v).items;
    case Obj(fields) =>
      var k := DeletedField(v, w);
      if k in w.fields {
        DeletionKeepsNormalForm(fields[k], w.fields[k]);
      } else {
        EmptyIsNormal(fields[k]);
      }
      forall f
        ensures f in Normalize(w).fields <==> f in Normalize(v).fields
        ensures f in Normalize(v).fields ==> Normalize(w).fields[f] == Normalize(v).fields[f]
      {
        assert f != k ==> (f in w.fields <==> f in fields) && (f in fields ==> w.fields[f] == fields[f]);
      }
      assert Normalize(w).fields == Normalize(v).fields;
  }

  lemma {:induction false} IrreducibleIsNormal(v: Json)
    requires Irreducible(v)
    ensures Normalize(v) == v
  {
    match v
    case Atom(_) =>
    case Arr(items) =>
      forall i | 0 <= i < |items|
        ensures Normalize(items[i]) == items[i]
      {
        forall w ensures !Deletes(items[i], w) {
          var up := Arr(items[i := w]);
          assert up.items == items[i := up.items[i]];
          assert !Deletes(v, up);
        }
        IrreducibleIsNormal(items[i]);
      }
      assert Normalize(v).items == items;
    case Obj(fields) =>
      forall k | k in fields
        ensures Normalize(fields[k]) == fields[k] && !IsEmptyContainer(fields[k])
      {
        assert !Deletes(v, Obj(fields - {k}));
        forall w ensures !Deletes(fields[k], w) {
          var up := Obj(fields[k := w]);
          assert up.fields == fields[k := up.fields[k]];
          assert !Deletes(v, up);
        }
        IrreducibleIsNormal(fields[k]);
      }
      assert Normalize(v).fields == fields;
  }

  lemma {:induction false} NormalIsIrreducible(v: Json, w: Json)
    ensures !Deletes(Normalize(v), w)
  {
    match v
    case Atom(_) =>
    case Arr(items) =>
      if Deletes(Normalize(v), w) {
        var i :| 0 <= i < |items| && Deletes(Normalize(v).items[i], w.items[i]);
        NormalIsIrreducible(items[i], w.items[i]);
      }
    case Obj(fields) =>
      if Deletes(Normalize(v), w) {
        var k :| k in Normalize(v).fields && k in w.fields && Deletes(Normalize(v).fields[k], w.fields[k]);
        NormalIsIrreducible(fields[k], w.fields[k]);
      }
  }

  /** Normalizing twice is normalizing once. */
  lemma NormalizeIdempotent(v: Json)
    ensures Normalize(Normalize(v)) == Normalize(v)
  {
  }

  // --- New sections ---------------------------------------------------------------------------

  /** w is v with exactly one new map entry, at any depth, that holds x. */
  ghost predicate Adds(v: Json, w: Json, x: Json) {
    match v
    case Atom(_) => false
    case Arr(items) =>
      && w.Arr? && |w.items| == |items|
      && exists i | 0 <= i < |items| :: w.items == items[i := w.items[i]] && Adds(items[i], w.items[i], x)
    case Obj(fields) =>
      && w.Obj?
      && exists k | k in w.fields ::
        || (k !in fields && w.fields == fields[k := x])
        || (k in fields && w.fields == fields[k := w.fields[k]] && Adds(fields[k], w.fields[k], x))
  }

  /** The entry of the top-level map that is new or holds the new one. */
  ghost function AddedField(v: Json, w: Json, x: Json): (k: string)
    requires v.Obj? && Adds(v, w, x)
    ensures k in w.fields
    ensures k !in v.fields ==> w.fields == v.fields[k := x]
    ensures k in v.fields ==> w.fields == v.fields[k := w.fields[k]] && Adds(v.fields[k], w.fields[k], x)
  {
    var k :| k in w.fields &&
      ((k !in v.fields && w.fields == v.fields[k := x]) ||
      (k in v.fields && w.fields == v.fields[k := w.fields[k]] && Adds(v.fields[k], w.fields[k], x)));
    k
  }

  /** A new entry that holds an empty list or an empty map makes no difference. */
  lemma {:induction false} EmptySectionIsNoChange(v: Json, w: Json, x: Json)
    requires Adds(v, w, x) && (x == Arr([]) || x == Obj(map[]))
    ensures Normalize(v) == Normalize(w)
  {
    match v
    case Arr(items) =>
      var i :| 0 <= i < |items| && w.items == items[i := w.items[i]] && Adds(items[i], w.items[i], x);
      EmptySectionIsNoChange(items[i], w.items[i], x);
      assert Normalize(w).items == Normalize(v).items;
    case Obj(fields) =>
      var k := AddedField(v, w, x);
      if k in fields {
        EmptySectionIsNoChange(fields[k], w.fields[k], x);
      } else {
        assert Normalize(x) == x;
      }
      SameFields(v, w, k);
  }

  lemma SameFields(v: Json, w: Json, k: string)
    requires v.Obj? && w.Obj?
    requires forall f :: f != k ==> (f in w.fields <==> f in v.fields) && (f in v.fields ==> w.fields[f] == v.fields[f])
    requires k in w.fields
    requires if k in v.fields then Normalize(v.fields[k]) == Normalize(w.fields[k])
             else IsEmptyContainer(Normalize(w.fields[k]))
    ensures Normalize(v) == Normalize(w)
  {
    forall f
      ensures f in Normalize(w).fields <==> f in Normalize(v).fields
      ensures f in Normalize(v).fields ==> Normalize(w).fields[f] == Normalize(v).fields[f]
    {
      assert f != k ==> (f in w.fields <==> f in v.fields) && (f in v.fields ==> w.fields[f] == v.fields[f]);
    }
    assert Normalize(w).fields == Normalize(v).fields;
  }

  /** A new entry that holds a value does, and what holds it is not an empty section. */
  lemma {:induction false} ValueIsChange(v: Json, w: Json, text: string)
    requires Adds(v, w, Atom(text))
    ensures Normalize(v) != Normalize(w) && !IsEmptyContainer(Normalize(w))
  {
    match v
    case Arr(items) =>
      var i :| 0 <= i < |items| && w.items == items[i := w.items[i]] && Adds(items[i], w.items[i], Atom(text));
      ValueIsChange(items[i], w.items[i], text);
      assert Normalize(w).items[i] != Normalize(v).items[i];
    case Obj(fields) =>
      var k := AddedField(v, w, Atom(text));
      if k in fields {
        ValueIsChange(fields[k], w.fields[k], text);
      }
      assert k in Normalize(w).fields;
  }

  // --- Termination: the positions of map entries strictly shrink --------------------------------

  datatype Hop = Field(name: string) | Index(i: nat)

  /** The positions of all map entries of a document. */
  ghost function Entries(v: Json): set<seq<Hop>> {
    match v
    case Atom(_) => {}
    case Arr(items) =>
      set i, p | 0 <= i < |items| && p in Entries(items[i]) :: [Index(i)] + p
    case Obj(fields) =>
      (set k | k in fields :: [Field(k)]) + set k, p | k in fields && p in Entries(fields[k]) :: [Field(k)] + p
  }

  lemma EntryPositions(v: Json, h: Hop, p: seq<Hop>)
    requires v.Arr? || v.Obj?
    ensures [h] + p in Entries(v) <==>
      match h
      case Index(i) => v.Arr? && i < |v.items| && p in Entries(v.items[i])
      case Field(k) => v.Obj? && k in v.fields && (p == [] || p in Entries(v.fields[k]))
  {
    assert ([h] + p)[0] == h && ([h] + p)[1..] == p;
    if v.Obj? {
      assert forall k: string, q: seq<Hop> :: ([Field(k)] + q)[0] == Field(k) && ([Field(k)] + q)[1..] == q;
      if h.Field? && h.name in v.fields && p == [] {
        assert [h] + p == [Field(h.name)];
      }
    } else {
      assert forall i: nat, q: seq<Hop> :: ([Index(i)] + q)[0] == Index(i) && ([Index(i)] + q)[1..] == q;
    }
  }

  lemma EntryHasHead(v: Json, e: seq<Hop>)
    requires e in Entries(v)
    ensures e != [] && e == [e[0]] + e[1..]
  {
  }

  lemma {:induction false} DeletionShrinks(v: Json, w: Json)
    requires Deletes(v, w)
    ensures Entries(w) < Entries(v)
  {
    forall e | e in Entries(w)
      ensures e in Entries(v)
    {
      EntryHasHead(w, e);
      EntryPositions(w, e[0], e[1..]);
      EntryPositions(v, e[0], e[1..]);
      if v.Arr? {
        var i :| 0 <= i < |v.items| && w.items == v.items[i := w.items[i]] && Deletes(v.items[i], w.items[i]);
        DeletionShrinks(v.items[i], w.items[i]);
      } else {
        var k := DeletedField(v, w);
        if k in w.fields {
          DeletionShrinks(v.fields[k], w.fields[k]);
        }
      }
    }
    if v.Arr? {
      var i :| 0 <= i < |v.items| && w.items == v.items[i := w.items[i]] && Deletes(v.items[i], w.items[i]);
      DeletionShrinks(v.items[i], w.items[i]);
      var p :| p in Entries(v.items[i]) && p !in Entries(w.items[i]);
      EntryPositions(v, Index(i), p);
      EntryPositions(w, Index(i), p);
    } else {
      var k := DeletedField(v, w);
      if k in w.fields {
        DeletionShrinks(v.fields[k], w.fields[k]);
        var p :| p in Entries(v.fields[k]) && p !in Entries(w.fields[k]);
        EntryPositions(v, Field(k), p);
        EntryPositions(w, Field(k), p);
        if p == [] {
          EntryHasHead(v.fields[k], p);
        }
      } else {
        EntryPositions(v, Field(k), []);
        EntryPositions(w, Field(k), []);
      }
    }
  }

  // --- Unique normal form ---------------------------------------------------------------------

  /** Along any run of deletions the normal form stays, and the run is no longer than the entry count. */
  lemma {:induction false} RunKeepsNormalForm(path: seq<Json>)
    requires Deletions(path)
    ensures Normalize(path[|path| - 1]) == Normalize(path[0])
    ensures |path| - 1 + |Entries(path[|path| - 1])| <= |Entries(path[0])|
  {
    if |path| > 1 {
      var front := path[..|path| - 1];
      RunKeepsNormalForm(front);
      DeletionKeepsNormalForm(path[|path| - 2], path[|path| - 1]);
      DeletionShrinks(path[|path| - 2], path[|path| - 1]);
      SubsetSize(Entries(path[|path| - 1]), Entries(path[|path| - 2]));
    }
  }

  /** Some run of deletions reaches the value the program computes. */
  lemma {:induction false} ReachesNormalForm(v: Json) returns (path: seq<Json>)
    ensures Deletions(path) && path[0] == v && path[|path| - 1] == Normalize(v)
    decreases |Entries(v)|
  {
    if Irreducible(v) {
      IrreducibleIsNormal(v);
      path := [v];
    } else {
      var w :| Deletes(v, w);
      DeletionShrinks(v, w);
      SubsetSize(Entries(w), Entries(v));
      DeletionKeepsNormalForm(v, w);
      var rest := ReachesNormalForm(w);
      DeletionFirst(v, rest);
      path := [v] + rest;
    }
  }

  lemma DeletionFirst(v: Json, rest: seq<Json>)
    requires Deletions(rest) && Deletes(v, rest[0])
    ensures Deletions([v] + rest) && ([v] + rest)[|rest|] == rest[|rest| - 1]
  {
  }

  /**
   Main result: deletions in any order, pushed as far as they go, end in Normalize and nowhere else.
   The bound on the run says that every order of deletions does end.
   */
  lemma UniqueNormalForm(path: seq<Json>)
    requires Deletions(path)
    ensures |path| <= |Entries(path[0])| + 1
    ensures Irreducible(path[|path| - 1]) <==> path[|path| - 1] == Normalize(path[0])
  {
    RunKeepsNormalForm(path);
    forall w {
      NormalIsIrreducible(path[0], w);
    }
    if Irreducible(path[|path| - 1]) {
      IrreducibleIsNormal(path[|path| - 1]);
    }
  }

  /** Two documents normalize alike exactly when deleting empty entries can make them equal. */
  lemma SameNormalFormIffJoinable(a: Json, b: Json)
    ensures Normalize(a) == Normalize(b) <==> exists c :: ReducesTo(a, c) && ReducesTo(b, c)
  {
    if Normalize(a) == Normalize(b) {
      var pa := ReachesNormalForm(a);
      var pb := ReachesNormalForm(b);
      assert ReducesTo(a, Normalize(a)) && ReducesTo(b, Normalize(a));
    }
    if c :| ReducesTo(a, c) && ReducesTo(b, c) {
      var pa :| Deletions(pa) && pa[0] == a && pa[|pa| - 1] == c;
      var pb :| Deletions(pb) && pb[0] == b && pb[|pb| - 1] == c;
      RunKeepsNormalForm(pa);
      RunKeepsNormalForm(pb);
    }
  }
}
