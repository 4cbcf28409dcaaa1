/**
 Reading the top-level keys of a JSON body from a token stream, skipping each value by counting
 delimiters, against the grammar of RFC 8259, sections 4 and 5.

 The tokenizer itself is not modelled: a decoder is the sequence of tokens it will still deliver
 before the end of the body or the first malformed one, where every further read is an error.
 */
module JsonSkip {
  import opened Sequences

  datatype Token = OpenObject | CloseObject | OpenArray | CloseArray | Text(text: string) | Scalar

  datatype Value = Object(members: seq<Member>) | Array(elements: seq<Value>) | String(text: string) | Literal

  datatype Member = Member(key: string, value: Value)

  /** The tokens of a value; colons and commas are not tokens. */
  function Tokens(v: Value): seq<Token>
    decreases v, 1
  {
    match v
    case Object(members) => [OpenObject] + MemberTokens(members) + [CloseObject]
    case Array(elements) => [OpenArray] + ElementTokens(elements) + [CloseArray]
    case String(text) => [Text(text)]
    case Literal => [Scalar]
  }

  function MemberTokens(members: seq<Member>): seq<Token>
    decreases members, 0
  {
    if members == [] then []
    else [Text(members[0].key)] + Tokens(members[0].value) + MemberTokens(members[1..])
  }

  function ElementTokens(elements: seq<Value>): seq<Token>
    decreases elements, 0
  {
    if elements == [] then [] else Tokens(elements[0]) + ElementTokens(elements[1..])
  }

  function Keys(members: seq<Member>): seq<string> {
    seq(|members|, i requires 0 <= i < |members| => members[i].key)
  }

  predicate Opens(t: Token) {
    t.OpenObject? || t.OpenArray?
  }

  predicate Closes(t: Token) {
    t.CloseObject? || t.CloseArray?
  }

  /** How far the delimiter count runs from a depth on; |ts| + 1 when the tokens run out first. */
  function Depth(ts: seq<Token>, depth: nat): (used: nat)
    ensures used <= |ts| + 1
  {
    if depth == 0 then 0
    else if ts == [] then 1
    else 1 + Depth(ts[1..], if Opens(ts[0]) then depth + 1 else if Closes(ts[0]) then depth - 1 else depth)
  }

  /** The tokens that skipping one value uses up. */
  function Skipped(ts: seq<Token>): (used: nat)
    ensures used <= |ts| + 1
  {
    if ts == [] then 1
    else if Opens(ts[0]) then 1 + Depth(ts[1..], 1)
    else 1
  }

  class Decoder {
    var rest: seq<Token>

    constructor (tokens: seq<Token>)
      ensures rest == tokens
    {
      rest := tokens;
    }

    /** Another element is coming: not the end, and not a closing delimiter. */
    predicate More()
      reads this
    {
      rest != [] && !Closes(rest[0])
    }

    method Token() returns (ok: bool, t: Token)
      modifies this
      ensures ok <==> old(rest) != []
      ensures ok ==> t == old(rest)[0] && rest == old(rest)[1..]
      ensures !ok ==> rest == []
    {
      if rest == [] {
        return false, Scalar;
      }
      ok, t, rest := true, rest[0], rest[1..];
    }
  }

  method SkipValue(dec: Decoder) returns (ok: bool)
    modifies dec
    ensures ok <==> Skipped(old(dec.rest)) <= |old(dec.rest)|
    ensures ok ==> dec.rest == old(dec.rest)[Skipped(old(dec.rest))..]
    ensures !ok ==> dec.rest == []
  {
    ghost var all := dec.rest;
    var tok: Token;
    ok, tok := dec.Token();
    if !ok {
      return;
    }
    if Opens(tok) {
      var depth: nat := 1;
      while depth > 0
        invariant |dec.rest| < |all| && dec.rest == all[|all| - |dec.rest|..]
        invariant Skipped(all) == |all| - |dec.rest| + Depth(dec.rest, depth)
        decreases |dec.rest|
      {
        var t: Token;
        ok, t := dec.Token();
        if !ok {
          return;
        }
        if Opens(t) {
          depth := depth + 1;
        } else if Closes(t) {
          depth := depth - 1;
        }
      }
      ok := true;
    }
  }

  lemma AfterFirst(t: Token, ts: seq<Token>)
    ensures ([t] + ts)[1..] == ts
  {
  }

  /** Delimiters around balanced tokens balance. */
  lemma DepthThroughPair(begin: Token, inner: seq<Token>, end: Token, rest: seq<Token>, depth: nat)
    requires Opens(begin) && Closes(end)
    requires Depth(inner + ([end] + rest), depth + 1) == |inner| + Depth([end] + rest, depth + 1)
    ensures Depth(inner + ([end] + rest), depth + 1) == |inner| + 1 + Depth(rest, depth)
    ensures depth > 0 ==> Depth([begin] + inner + [end] + rest, depth) == |inner| + 2 + Depth(rest, depth)
  {
    AfterFirst(end, rest);
    AfterFirst(begin, inner + ([end] + rest));
    AssocAll([begin], inner, [end], rest);
  }

  /** Counting through the tokens of a value does not change the depth. */
  lemma {:induction false} DepthThroughValue(v: Value, rest: seq<Token>, depth: nat)
    requires depth > 0
    ensures Depth(Tokens(v) + rest, depth) == |Tokens(v)| + Depth(rest, depth)
    decreases v, 1
  {
    match v
    case Object(members) =>
      DepthThroughMembers(members, [CloseObject] + rest, depth + 1);
      DepthThroughPair(OpenObject, MemberTokens(members), CloseObject, rest, depth);
    case Array(elements) =>
      DepthThroughElements(elements, [CloseArray] + rest, depth + 1);
      DepthThroughPair(OpenArray, ElementTokens(elements), CloseArray, rest, depth);
    case String(text) =>
      DepthThroughPlain(Text(text), rest, depth);
    case Literal =>
      DepthThroughPlain(Scalar, rest, depth);
  }

  lemma DepthThroughPlain(t: Token, rest: seq<Token>, depth: nat)
    requires depth > 0 && !Opens(t) && !Closes(t)
    ensures Depth([t] + rest, depth) == 1 + Depth(rest, depth)
  {
  }

  lemma {:induction false} DepthThroughMembers(members: seq<Member>, rest: seq<Token>, depth: nat)
    requires depth > 0
    ensures Depth(MemberTokens(members) + rest, depth) == |MemberTokens(members)| + Depth(rest, depth)
    decreases members, 0
  {
    if members == [] {
      assert MemberTokens(members) + rest == rest;
    } else {
      var after := MemberTokens(members[1..]) + rest;
      DepthThroughMembers(members[1..], rest, depth);
      DepthThroughValue(members[0].value, after, depth);
      DepthThroughPlain(Text(members[0].key), Tokens(members[0].value) + after, depth);
      AssocAll([Text(members[0].key)], Tokens(members[0].value), MemberTokens(members[1..]), rest);
    }
  }

  lemma {:induction false} DepthThroughElements(elements: seq<Value>, rest: seq<Token>, depth: nat)
    requires depth > 0
    ensures Depth(ElementTokens(elements) + rest, depth) == |ElementTokens(elements)| + Depth(rest, depth)
    decreases elements, 0
  {
    if elements == [] {
      assert ElementTokens(elements) + rest == rest;
    } else {
      var after := ElementTokens(elements[1..]) + rest;
      DepthThroughElements(elements[1..], rest, depth);
      DepthThroughValue(elements[0], after, depth);
      assert ElementTokens(elements) + rest == Tokens(elements[0]) + after;
    }
  }

  /** Main result: for every value and whatever follows, skipping uses up exactly the value's tokens. */
  lemma SkipsExactlyOneValue(v: Value, rest: seq<Token>)
    ensures Skipped(Tokens(v) + rest) == |Tokens(v)|
  {
    match v
    case Object(members) =>
      DepthThroughMembers(members, [CloseObject] + rest, 1);
      SkipsPair(OpenObject, MemberTokens(members), CloseObject, rest);
    case Array(elements) =>
      DepthThroughElements(elements, [CloseArray] + rest, 1);
      SkipsPair(OpenArray, ElementTokens(elements), CloseArray, rest);
    case String(text) =>
    case Literal =>
  }

  lemma SkipsPair(begin: Token, inner: seq<Token>, end: Token, rest: seq<Token>)
    requires Opens(begin) && Closes(end)
    requires Depth(inner + ([end] + rest), 1) == |inner| + Depth([end] + rest, 1)
    ensures Skipped([begin] + inner + [end] + rest) == |inner| + 2
  {
    DepthThroughPair(begin, inner, end, rest, 0);
    AfterFirst(begin, inner + ([end] + rest));
    AssocAll([begin], inner, [end], rest);
  }

  // --- Top-level keys -------------------------------------------------------------------------

  /** The keys the reader finds from inside an object on, for any tokens at all. */
  function KeysFound(ts: seq<Token>): seq<string>
    decreases |ts|
  {
    if ts == [] || Closes(ts[0]) || !ts[0].Text? then []
    else
      var used := Skipped(ts[1..]);
      [ts[0].text] + if used > |ts| - 1 then [] else KeysFound(ts[1..][used..])
  }

  /** The keys of a body whose tokens are given; an empty, oversized or non-object body has none. */
  method JSONTopKeys(size: nat, maxLen: int, tokens: seq<Token>) returns (keys: seq<string>)
    ensures keys ==
      if size == 0 || size > maxLen || tokens == [] || !tokens[0].OpenObject? then [] else KeysFound(tokens[1..])
  {
    keys := [];
    if size == 0 || size > maxLen {
      return;
    }
    if tokens == [] || !tokens[0].OpenObject? {
      return;
    }
    var dec := new Decoder(tokens);
    var begun, first := dec.Token();
    while dec.More()
      invariant keys + KeysFound(dec.rest) == KeysFound(tokens[1..])
      decreases |dec.rest|
    {
      ghost var before := dec.rest;
      var ok, t := dec.Token();
      if !ok {
        return;
      }
      if !t.Text? {
        return;
      }
      keys := keys + [t.text];
      ghost var afterKey := dec.rest;
      var skipped := SkipValue(dec);
      if !skipped {
        return;
      }
    }
  }

  /** Main result: on a well-formed object the keys come out in order, whatever the values nest. */
  lemma {:induction false} TopKeysOfObject(members: seq<Member>, rest: seq<Token>)
    ensures KeysFound(MemberTokens(members) + ([CloseObject] + rest)) == Keys(members)
  {
    if members != [] {
      var after := MemberTokens(members[1..]) + ([CloseObject] + rest);
      AssocAll([Text(members[0].key)], Tokens(members[0].value), MemberTokens(members[1..]), [CloseObject] + rest);
      SkipsExactlyOneValue(members[0].value, after);
      KeysFoundStep(members[0].key, Tokens(members[0].value), after);
      TopKeysOfObject(members[1..], rest);
      KeysOfFirst(members);
    }
  }

  lemma KeysOfFirst(members: seq<Member>)
    requires members != []
    ensures Keys(members) == [members[0].key] + Keys(members[1..])
  {
  }

  lemma KeysFoundStep(key: string, value: seq<Token>, after: seq<Token>)
    requires Skipped(value + after) == |value|
    ensures KeysFound([Text(key)] + (value + after)) == [key] + KeysFound(after)
  {
  }

  lemma {:induction false} DepthOfPrefix(ts: seq<Token>, cut: nat, depth: nat)
    requires cut <= |ts|
    ensures Depth(ts[..cut], depth) == if Depth(ts, depth) <= cut then Depth(ts, depth) else cut + 1
    decreases cut
  {
    if depth > 0 && cut > 0 {
      DepthOfPrefix(ts[1..], cut - 1, if Opens(ts[0]) then depth + 1 else if Closes(ts[0]) then depth - 1 else depth);
      assert ts[..cut][1..] == ts[1..][..cut - 1];
    }
  }

  /** A body cut short at any token yields the keys seen so far, never a wrong one. */
  lemma {:induction false} TruncatedBodyKeepsPrefix(ts: seq<Token>, cut: nat)
    requires cut <= |ts|
    ensures KeysFound(ts[..cut]) <= KeysFound(ts)
    decreases |ts|
  {
    if cut > 0 && !Closes(ts[0]) && ts[0].Text? {
      var used := Skipped(ts[1..]);
      assert ts[..cut][1..] == ts[1..][..cut - 1];
      SkippedOfPrefix(ts[1..], cut - 1);
      if used <= cut - 1 {
        assert ts[1..][..cut - 1][used..] == ts[1..][used..][..cut - 1 - used];
        TruncatedBodyKeepsPrefix(ts[1..][used..], cut - 1 - used);
      }
    }
  }

  lemma SkippedOfPrefix(ts: seq<Token>, cut: nat)
    requires cut <= |ts|
    ensures Skipped(ts[..cut]) == if Skipped(ts) <= cut then Skipped(ts) else cut + 1
  {
    if cut > 0 && Opens(ts[0]) {
      DepthOfPrefix(ts[1..], cut - 1, 1);
      assert ts[..cut][1..] == ts[1..][..cut - 1];
    }
  }
}
