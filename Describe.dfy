/**
 * The `describe` tool's resolver (`describeGraphQLEntities`): a comma-separated request is
 * split, each name is trimmed and looked up in the map from entity name to rendered
 * description, and either every description comes back joined by a blank line or the
 * first missing name is reported with up to three names that do exist.
 * The map itself is built by the GraphQL client library and is an input here.
 */
module Describe {
  import opened Wrappers
  import opened GoStrings

  /** Entity name (query, mutation or type) to its rendered description block. */
  type EntityIndex = map<string, string>

  /** The error returned for a missing entity: its trimmed name and some names that exist. */
  datatype NotFound = NotFound(entity: string, examples: seq<string>)

  const BlockSeparator: string := "\n\n"
  const MaxExamples: nat := 3

  /** The error text shown to the caller; it quotes the missing name literally. */
  function Message(e: NotFound): (m: string)
    ensures Contains(m, e.entity)
    ensures Contains(m, Join(e.examples, ", "))
  {
    var pre, mid := "entity '", "' not found in schema. Example entities in the schema: ";
    var j := Join(e.examples, ", ");
    var m := pre + e.entity + mid + j;
    assert (pre + e.entity)[|pre|..] == e.entity;
    assert m[|pre|..|pre| + |e.entity|] == e.entity;
    assert OccursAt(m, e.entity, |pre|);
    assert m[|m| - |j|..] == j;
    assert OccursAt(m, j, |m| - |j|);
    m
  }

  /** Each piece trimmed. */
  function TrimAll(parts: seq<string>): seq<string>
  {
    seq(|parts|, i requires 0 <= i < |parts| => TrimSpace(parts[i]))
  }

  lemma TrimAllAppend(p: seq<string>, q: seq<string>)
    ensures TrimAll(p + q) == TrimAll(p) + TrimAll(q)
  {
    var l, r := TrimAll(p + q), TrimAll(p) + TrimAll(q);
    assert |l| == |r|;
    forall i | 0 <= i < |l| ensures l[i] == r[i] {
      if i < |p| {
        assert (p + q)[i] == p[i];
      } else {
        assert (p + q)[i] == q[i - |p|];
      }
    }
  }

  /** The names a request asks for, in order: its comma-separated pieces, each trimmed. */
  function Tokens(entities: string): (ts: seq<string>)
    ensures |ts| >= 1
    ensures forall i :: 0 <= i < |ts| ==> ',' !in ts[i]
  {
    var parts := Split(entities, ',');
    var ts := TrimAll(parts);
    assert forall i | 0 <= i < |ts| :: ',' !in ts[i] by {
      forall i | 0 <= i < |ts| ensures ',' !in ts[i] {
        TrimSpaceKeepsOut(parts[i], ',');
      }
    }
    ts
  }

  /** The position of the first name missing from `index`, or `|ts|` when none is. */
  function FirstMissing(index: EntityIndex, ts: seq<string>): (k: nat)
    ensures k <= |ts|
    ensures forall j :: 0 <= j < k ==> ts[j] in index
    ensures k < |ts| ==> ts[k] !in index
  {
    if ts == [] || ts[0] !in index then 0 else 1 + FirstMissing(index, ts[1..])
  }

  /** The descriptions of names that are all present, in request order. */
  function Descriptions(index: EntityIndex, ts: seq<string>): seq<string>
    requires forall j :: 0 <= j < |ts| ==> ts[j] in index
  {
    seq(|ts|, j requires 0 <= j < |ts| => index[ts[j]])
  }

  lemma DescriptionsSnoc(index: EntityIndex, ts: seq<string>, i: nat)
    requires i < |ts| && forall j :: 0 <= j <= i ==> ts[j] in index
    ensures Descriptions(index, ts[..i + 1]) == Descriptions(index, ts[..i]) + [index[ts[i]]]
  {
  }

  /** The text of a successful describe call. */
  function ResolvedText(index: EntityIndex, ts: seq<string>): (r: string)
    requires forall j :: 0 <= j < |ts| ==> ts[j] in index
    ensures |ts| == 1 ==> r == index[ts[0]]
    ensures forall j :: 0 <= j < |ts| ==> Contains(r, index[ts[j]])
  {
    var ds := Descriptions(index, ts);
    assert forall j | 0 <= j < |ts| :: Contains(Join(ds, BlockSeparator), index[ts[j]]) by {
      forall j | 0 <= j < |ts| ensures Contains(Join(ds, BlockSeparator), index[ts[j]]) {
        JoinContainsPart(ds, BlockSeparator, j);
      }
    }
    Join(ds, BlockSeparator)
  }

  /** What the example list of an error promises: distinct existing names, as many as fit in three. */
  predicate IsExampleList(index: EntityIndex, examples: seq<string>)
  {
    && |examples| == (if |index| < MaxExamples then |index| else MaxExamples)
    && (forall i :: 0 <= i < |examples| ==> examples[i] in index)
    && (forall i, j :: 0 <= i < j < |examples| ==> examples[i] != examples[j])
  }

  /**
   * Collects example names by walking the map's keys in an order the model leaves open
   * (Go's map iteration order is unspecified) and stopping after the third.
   */
  method SampleKeys(index: EntityIndex) returns (example: seq<string>)
    ensures IsExampleList(index, example)
  {
    example := [];
    var rest := index.Keys;
    while rest != {}
      invariant rest <= index.Keys
      invariant forall i :: 0 <= i < |example| ==> example[i] in index && example[i] !in rest
      invariant forall i, j :: 0 <= i < j < |example| ==> example[i] != example[j]
      invariant |example| + |rest| == |index|
      invariant |example| < MaxExamples
      decreases rest
    {
      var k :| k in rest;
      example := example + [k];
      rest := rest - {k};
      if |example| >= MaxExamples {
        break;
      }
    }
  }

  /**
   * Resolves a comma-separated request against `index`. All or nothing: either every
   * name is found and the text is their descriptions in request order joined by a blank
   * line, or the text is empty and the error names the first missing (trimmed) name.
   */
  method Describe(index: EntityIndex, entities: string) returns (text: string, err: Option<NotFound>)
    ensures err.None? <==> FirstMissing(index, Tokens(entities)) == |Tokens(entities)|
    ensures err.None? ==> text == ResolvedText(index, Tokens(entities))
    ensures err.Some? ==> text == ""
    ensures err.Some? ==> err.value.entity == Tokens(entities)[FirstMissing(index, Tokens(entities))]
    ensures err.Some? ==> IsExampleList(index, err.value.examples)
  {
    var entitiesList := Split(entities, ',');
    ghost var ts := Tokens(entities);
    assert |ts| == |entitiesList|;
    var descriptions: seq<string> := [];
    for i := 0 to |entitiesList|
      invariant forall j :: 0 <= j < i ==> ts[j] in index
      invariant descriptions == Descriptions(index, ts[..i])
    {
      var entity := TrimSpace(entitiesList[i]);
      assert entity == ts[i];
      if entity in index {
        DescriptionsSnoc(index, ts, i);
        descriptions := descriptions + [index[entity]];
      } else {
        var example := SampleKeys(index);
        return "", Some(NotFound(entity, example));
      }
    }
    assert ts[..|ts|] == ts;
    text := Join(descriptions, BlockSeparator);
    err := None;
  }

  // ---- Properties of the request language ----

  /** A comma splits a request into the names of its two sides. */
  lemma TokensAround(a: string, b: string)
    ensures Tokens(a + "," + b) == Tokens(a) + Tokens(b)
  {
    var pa, pb := Split(a, ','), Split(b, ',');
    SplitAround(a, b, ',');
    assert Split(a + "," + b, ',') == pa + pb;
    TrimAllAppend(pa, pb);
  }

  /** A name without commas asks for exactly its trimmed self, however it is padded. */
  lemma TokensPadded(w1: string, name: string, w2: string)
    requires AllSpace(w1) && AllSpace(w2) && ',' !in name
    ensures Tokens(w1 + name + w2) == Tokens(name) == [TrimSpace(name)]
  {
    assert ',' !in w1 + name + w2 by {
      forall i | 0 <= i < |w1 + name + w2| ensures (w1 + name + w2)[i] != ',' {
        if i < |w1| { assert IsSpace(w1[i]); }
        else if i >= |w1| + |name| { assert IsSpace(w2[i - |w1| - |name|]); }
      }
    }
    SplitNoSep(w1 + name + w2, ',');
    SplitNoSep(name, ',');
    TrimSpacePadding(w1, name, w2);
  }

  /** An empty request, or one of bare commas, asks for the empty name once per piece. */
  lemma EmptyNamesRequested()
    ensures Tokens("") == [""]
    ensures Tokens(",,") == ["", "", ""]
  {
    TokensAround("", ",");
    TokensAround("", "");
    assert "" + "," + "," == ",,";
    assert "" + "," + "" == ",";
  }

  /** The empty name is never found unless the index has it. */
  lemma EmptyNameIsAMiss(index: EntityIndex)
    requires "" !in index
    ensures FirstMissing(index, Tokens("")) == 0
    ensures FirstMissing(index, Tokens(",,")) == 0
  {
    EmptyNamesRequested();
  }

  /** Against an empty index every request fails, and the example list is empty. */
  lemma EmptyIndexAlwaysFails(entities: string, examples: seq<string>)
    ensures FirstMissing(map[], Tokens(entities)) == 0 < |Tokens(entities)|
    ensures IsExampleList(map[], examples) <==> examples == []
  {
  }

  lemma DescriptionsAppend(index: EntityIndex, p: seq<string>, q: seq<string>)
    requires forall j :: 0 <= j < |p| ==> p[j] in index
    requires forall j :: 0 <= j < |q| ==> q[j] in index
    ensures forall j :: 0 <= j < |p + q| ==> (p + q)[j] in index
    ensures Descriptions(index, p + q) == Descriptions(index, p) + Descriptions(index, q)
  {
  }

  /** Asking for `a,b` where both succeed is describing `a`, a blank line, then `b`. */
  lemma ResolvedTextAround(index: EntityIndex, a: string, b: string)
    requires FirstMissing(index, Tokens(a)) == |Tokens(a)|
    requires FirstMissing(index, Tokens(b)) == |Tokens(b)|
    ensures FirstMissing(index, Tokens(a + "," + b)) == |Tokens(a + "," + b)|
    ensures ResolvedText(index, Tokens(a + "," + b))
         == ResolvedText(index, Tokens(a)) + BlockSeparator + ResolvedText(index, Tokens(b))
  {
    var ta, tb := Tokens(a), Tokens(b);
    TokensAround(a, b);
    DescriptionsAppend(index, ta, tb);
    var da, db := Descriptions(index, ta), Descriptions(index, tb);
    assert |da| >= 1 && |db| >= 1;
    JoinAppend(da, db, BlockSeparator);
  }

  /** A name asked for twice is described twice. */
  lemma DuplicateNameDescribedTwice(index: EntityIndex, name: string)
    requires ',' !in name && TrimSpace(name) in index
    ensures Tokens(name + "," + name) == [TrimSpace(name), TrimSpace(name)]
    ensures ResolvedText(index, Tokens(name + "," + name))
         == index[TrimSpace(name)] + BlockSeparator + index[TrimSpace(name)]
  {
    var t := Tokens(name);
    assert t == [TrimSpace(name)] by {
      SplitNoSep(name, ',');
    }
    assert FirstMissing(index, t) == 1;
    assert ResolvedText(index, t) == index[TrimSpace(name)];
    TokensAround(name, name);
    assert Tokens(name + "," + name) == t + t;
    ResolvedTextAround(index, name, name);
  }

  /** A miss is reported after the found prefix only: names after it are never looked up. */
  lemma MissStopsAtFirst(index: EntityIndex, a: string, b: string)
    requires FirstMissing(index, Tokens(a)) < |Tokens(a)|
    ensures FirstMissing(index, Tokens(a + "," + b)) == FirstMissing(index, Tokens(a))
  {
    TokensAround(a, b);
    var ta := Tokens(a);
    var k := FirstMissing(index, ta);
    assert (ta + Tokens(b))[k] == ta[k];
  }

  /** Every example name appears literally in the error text. */
  lemma MessageQuotesExamples(e: NotFound, i: nat)
    requires i < |e.examples|
    ensures Contains(Message(e), e.examples[i])
  {
    var prefix := "entity '" + e.entity + "' not found in schema. Example entities in the schema: ";
    JoinContainsPart(e.examples, ", ", i);
    ContainsInSuffix(prefix, Join(e.examples, ", "), e.examples[i]);
  }
}
