/** What the parsers accept, as a language: the theorem the grammar lemmas add up to. */
module Language {
  import opened Bytes
  import opened Events
  import opened Numbers
  import opened Grammar
  import opened RecursiveParser
  import opened IterativeParser
  import opened Simulation
  import opened GrammarAccepted

  /** The text is white space, then the text of a legal tree, then `rest`, which does not go on with a number. */
  ghost predicate StartsWithTree(env: Env, before: Text, c: Tree, rest: Text) {
    && AllSpace(before) && Legal(env, c) && env.text == before + (TreeText(c) + rest)
    && (c.Number? ==> MayFollow(c.n, Peek(rest, 0)))
  }

  ghost predicate Accepted(env: Env, before: Text, c: Tree, rest: Text) {
    StartsWithTree(env, before, c, rest) && (env.stopWhenDone || AllSpace(rest))
  }

  /** Every JSON text is accepted, with the events of its tree. */
  lemma EveryTreeAccepted(env: Env, before: Text, c: Tree, rest: Text)
    requires AcceptsAll(env) && Accepted(env, before, c, rest)
    ensures Legal(env, c) && Parse(env).result.NoError? && Parse(env).log == TreeEvents(env, c)
  {
    hide ParseValue, TreeText, TreeEvents, Legal, SkipSpace;
    var t := env.text;
    AtWhole(t, before, TreeText(c), rest);
    TreeStarts(env, c);
    AtPeek(t, |before|, TreeText(c), 0);
    GapComplete(env, START, before);
    var r := Run(|before|, [], NoError);
    ValueComplete(env, r, c);
    var r1 := ParseValue(env, r);
    assert [] + TreeEvents(env, c) == TreeEvents(env, c);
    if !env.stopWhenDone {
      GapComplete(env, r1, rest);
    }
  }

  lemma AtWhole(t: Text, a: Text, b: Text, c: Text)
    requires t == a + (b + c)
    ensures At(t, 0, a) && At(t, |a|, b) && At(t, |a| + |b|, c) && |a| + |b| + |c| == |t|
    ensures Peek(t, |a| + |b|) == Peek(c, 0)
  {
    AtSplit(t, 0, a, b + c);
    AtSplit(t, |a|, b, c);
  }

  /** Every accepted text is white space, a legal tree, and nothing that the parser had to look at. */
  lemma EveryAcceptedIsTree(env: Env) returns (before: Text, c: Tree, rest: Text)
    requires NUL !in env.text && Parse(env).result.NoError?
    ensures Accepted(env, before, c, rest) && Parse(env).log == TreeEvents(env, c)
  {
    hide ParseValue, TreeText, TreeEvents, Legal, SkipSpace;
    var t := env.text;
    var r := Skip(env, START);
    var r1 := ParseValue(env, r);
    c := ValueSound(env, r);
    before, rest := t[..r.pos], t[r1.pos..];
    assert [] + TreeEvents(env, c) == TreeEvents(env, c);
    assert t[0..r.pos] == before;
    assert t == before + (t[r.pos..r1.pos] + rest);
    assert Peek(rest, 0) == Peek(t, r1.pos);
    if !env.stopWhenDone {
      var r2 := Skip(env, r1);
      assert r2.pos == |t|;
      assert t[r1.pos..|t|] == rest;
    }
  }

  ghost predicate InLanguage(env: Env) {
    exists before, c, rest :: Accepted(env, before, c, rest)
  }

  /** All three drivers accept exactly the language of the grammar, and send exactly the events of the tree. */
  lemma DriversRecogniseTheGrammar(env: Env)
    requires AcceptsAll(env) && NUL !in env.text
    ensures Parse(env).result.NoError? <==> InLanguage(env)
    ensures IterativeParse(env).result.NoError? <==> InLanguage(env)
    ensures ParseByTokens(env).result.NoError? <==> InLanguage(env)
    ensures forall before, c, rest | Accepted(env, before, c, rest) ::
              IterativeParse(env).log == ParseByTokens(env).log == Parse(env).log == TreeEvents(env, c)
  {
    hide Parse, IterativeParse, ParseByTokens, Accepted, TreeEvents;
    ParsersAgree(env);
    TokenParserAgrees(env);
    if Parse(env).result.NoError? {
      var before, c, rest := EveryAcceptedIsTree(env);
    }
    forall before, c, rest | Accepted(env, before, c, rest)
      ensures Legal(env, c) && Parse(env).result.NoError? && Parse(env).log == TreeEvents(env, c)
    {
      EveryTreeAccepted(env, before, c, rest);
    }
  }
}
