/** The text generator of markov.py (`make_text`): a random walk over a chain,
    with every call to `random.choice` answered from a script of draws. */
module Generate {
  import Text
  import opened Chains

  /** How a walk can fail. The first three are the exceptions the code can
      raise; the last one is the script of draws running dry. */
  datatype Failure =
    | EmptyChoice   // IndexError: `choice` on an empty sequence
    | MissingKey    // KeyError: the shifted context is not a key
    | NotText       // TypeError: `' '.join` meets the sentinel
    | OutOfDraws    // the scripted chooser has no draw left

  datatype Result<T> = Ok(value: T) | Err(failure: Failure)

  /** `random.choice(xs)` when the random source yields `d`. */
  function Pick<T>(xs: seq<T>, d: nat): (x: T)
    requires |xs| > 0
    ensures x in xs
  {
    xs[d % |xs|]
  }

  /** Drawing `d` from the list of key `k` is possible and yields `x`. */
  predicate Draws(c: Chain, k: Key, d: nat, x: Word) {
    k in c.table && |c.table[k]| > 0 && Pick(c.table[k], d) == x
  }

  /** The words `ws` are how `make_text`'s list `words` can stand when the
      random source yields `script[0]`, `script[1]`, ... : draw 0 picked the
      starting key and draw j-1 picked word j from the context of the two
      words before it; no word after the first two is the sentinel. */
  predicate Walked(c: Chain, script: seq<nat>, ws: seq<Word>) {
    2 <= |ws| <= |script|
    && |c.order| > 0
    && Pick(c.order, script[0]) == (ws[0], ws[1])
    && forall j :: 2 <= j < |ws| ==> ws[j] != End && Draws(c, (ws[j - 2], ws[j - 1]), script[j - 1], ws[j])
  }

  /** The complete walk: `ws` as above, and the next draw picks the sentinel,
      which ends the loop. */
  predicate IsWalk(c: Chain, script: seq<nat>, ws: seq<Word>) {
    Walked(c, script, ws) && Draws(c, (ws[|ws| - 2], ws[|ws| - 1]), script[|ws| - 1], End)
  }

  predicate AllTokens(ws: seq<Word>) {
    forall j :: 0 <= j < |ws| ==> ws[j].Tok?
  }

  function Texts(ws: seq<Word>): (ts: seq<string>)
    requires AllTokens(ws)
    ensures |ts| == |ws| && forall j :: 0 <= j < |ws| ==> ts[j] == ws[j].s
  {
    seq(|ws|, j requires 0 <= j < |ws| => ws[j].s)
  }

  /** `make_text(chains)`. The ghost `walk` is the Python list `words` at the
      end of the loop. */
  method MakeText(c: Chain, script: seq<nat>) returns (r: Result<string>, ghost walk: seq<Word>)
    requires forall k :: k in c.order ==> k in c.table
    ensures r.Ok? ==> IsWalk(c, script, walk) && AllTokens(walk) && r.value == Text.Join(Texts(walk))
    ensures r == Err(NotText) ==> IsWalk(c, script, walk) && !AllTokens(walk)
    ensures r.Err? && r.failure != NotText ==> forall w :: !IsWalk(c, script, w)
    ensures |c.order| == 0 ==> r == Err(EmptyChoice)
    ensures r == Err(EmptyChoice) ==> |c.order| == 0 || !c.NonEmptyLists()
    ensures r == Err(MissingKey) ==> !c.Closed()
    ensures r == Err(NotText) ==> !c.TokenKeys()
  {
    walk := [];
    if |c.order| == 0 {
      return Err(EmptyChoice), walk;
    }
    if |script| == 0 {
      return Err(OutOfDraws), walk;
    }
    var key := Pick(c.order, script[0]);
    assert key in c.table;
    var words := [key.0, key.1];
    forall w | IsWalk(c, script, w) ensures w[..2] == words && |c.table[key]| > 0 {
      WalkAt(c, script, w, 2);
    }
    if |c.table[key]| == 0 {
      return Err(EmptyChoice), walk;
    }
    if |script| < 2 {
      return Err(OutOfDraws), walk;
    }
    var newWord := Pick(c.table[key], script[1]);
    var next := 2;
    while newWord != End
      invariant 2 <= |words| == next <= |script|
      invariant key == (words[|words| - 2], words[|words| - 1])
      invariant Draws(c, key, script[|words| - 1], newWord)
      invariant Walked(c, script, words)
      invariant forall w :: IsWalk(c, script, w) ==> |w| >= |words| && w[..|words|] == words
      decreases |script| - next
    {
      ghost var prev := key;
      forall w | IsWalk(c, script, w) ensures |w| > |words| && w[..|words| + 1] == words + [newWord] {
        WalkGrows(c, script, w, words, newWord);
      }
      key := (key.1, newWord);
      ghost var before := words;
      words := words + [newWord];
      forall w | IsWalk(c, script, w) ensures |words| <= |w| <= |script| && key in c.table && |c.table[key]| > 0 {
        WalkAt(c, script, w, |words|);
      }
      if key !in c.table {
        assert prev in c.table && newWord in c.table[prev] && newWord != End && (prev.1, newWord) !in c.table;
        return Err(MissingKey), walk;
      }
      if |c.table[key]| == 0 {
        return Err(EmptyChoice), walk;
      }
      if next >= |script| {
        return Err(OutOfDraws), walk;
      }
      WalkedGrows(c, script, before, newWord);
      newWord := Pick(c.table[key], script[next]);
      next := next + 1;
    }
    walk := words;
    if words[0] == End || words[1] == End {
      assert Pick(c.order, script[0]) in c.table;
      return Err(NotText), walk;
    }
    r := Ok(Text.Join(Texts(words)));
  }

  /** Every context a walk forms, up to and including its last, is a key
      with a non-empty list. */
  lemma WalkAt(c: Chain, script: seq<nat>, w: seq<Word>, n: nat)
    requires IsWalk(c, script, w)
    requires 2 <= n <= |w|
    ensures (w[n - 2], w[n - 1]) in c.table && |c.table[(w[n - 2], w[n - 1])]| > 0
  {
    if n < |w| {
      assert w[n] != End && Draws(c, (w[n - 2], w[n - 1]), script[n - 1], w[n]);
    }
  }

  lemma WalkedGrows(c: Chain, script: seq<nat>, ws: seq<Word>, x: Word)
    requires Walked(c, script, ws)
    requires Draws(c, (ws[|ws| - 2], ws[|ws| - 1]), script[|ws| - 1], x)
    requires x != End && |ws| < |script|
    ensures Walked(c, script, ws + [x])
  {
    var w := ws + [x];
    forall j | 2 <= j < |w| ensures w[j] != End && Draws(c, (w[j - 2], w[j - 1]), script[j - 1], w[j]) {
      if j < |ws| {
        assert w[j - 2] == ws[j - 2] && w[j - 1] == ws[j - 1] && w[j] == ws[j];
      }
    }
  }

  /** A walk that agrees with `words` and has not stopped where `words` drew a
      non-sentinel goes on with that word. */
  lemma WalkGrows(c: Chain, script: seq<nat>, w: seq<Word>, words: seq<Word>, x: Word)
    requires IsWalk(c, script, w)
    requires 2 <= |words| <= |w| && w[..|words|] == words
    requires Draws(c, (words[|words| - 2], words[|words| - 1]), script[|words| - 1], x)
    requires x != End
    ensures |w| > |words| && w[..|words| + 1] == words + [x]
  {
    var n := |words|;
    assert w[n - 2] == words[n - 2] && w[n - 1] == words[n - 1];
    assert w[n] != End && Draws(c, (w[n - 2], w[n - 1]), script[n - 1], w[n]);
    assert w[..n + 1] == w[..n] + [w[n]];
  }

  lemma StepAt(c: Chain, script: seq<nat>, w: seq<Word>, j: nat)
    requires IsWalk(c, script, w) && 2 <= j
    ensures j < |w| ==> w[j] != End && Draws(c, (w[j - 2], w[j - 1]), script[j - 1], w[j])
  {
  }

  lemma {:induction false} WalksAgree(c: Chain, script: seq<nat>, w1: seq<Word>, w2: seq<Word>, n: nat)
    requires IsWalk(c, script, w1) && IsWalk(c, script, w2)
    requires 2 <= n <= |w1| && n <= |w2|
    ensures w1[..n] == w2[..n]
    decreases n
  {
    if n > 2 {
      WalksAgree(c, script, w1, w2, n - 1);
      StepAt(c, script, w1, n - 1);
      StepAt(c, script, w2, n - 1);
      assert w1[..n] == w1[..n - 1] + [w1[n - 1]];
      assert w2[..n] == w2[..n - 1] + [w2[n - 1]];
    }
  }

  lemma ShorterWalkEqual(c: Chain, script: seq<nat>, w1: seq<Word>, w2: seq<Word>)
    requires IsWalk(c, script, w1) && IsWalk(c, script, w2)
    requires |w1| <= |w2|
    ensures w1 == w2
  {
    var n := |w1|;
    WalksAgree(c, script, w1, w2, n);
    assert w1[n - 2] == w2[n - 2] && w1[n - 1] == w2[n - 1];
    StepAt(c, script, w2, n);
    assert w2[..n] == w1;
  }

  /** The script determines the walk: there is at most one. */
  lemma WalkUnique(c: Chain, script: seq<nat>, w1: seq<Word>, w2: seq<Word>)
    requires IsWalk(c, script, w1) && IsWalk(c, script, w2)
    ensures w1 == w2
  {
    if |w1| <= |w2| {
      ShorterWalkEqual(c, script, w1, w2);
    } else {
      ShorterWalkEqual(c, script, w2, w1);
    }
  }

  /** A walk over the chain of some tokens consists of those tokens: the
      sentinel is never part of it. */
  lemma WalkOverTokens(ts: seq<string>, script: seq<nat>, w: seq<Word>)
    requires IsWalk(ChainOf(ts), script, w)
    ensures AllTokens(w) && forall j :: 0 <= j < |w| ==> w[j].s in ts
  {
    var c := ChainOf(ts);
    ChainOfWellFormed(ts);
    ChainOfVocabulary(ts);
    var start := Pick(c.order, script[0]);
    assert start in c.table;
    forall j | 0 <= j < |w| ensures w[j].Tok? && w[j].s in ts {
      if j >= 2 {
        StepAt(c, script, w, j);
        assert w[j] in c.table[(w[j - 2], w[j - 1])];
      }
    }
  }

  /** If the first draw from the starting key picks the sentinel, the text is
      the starting key alone. */
  lemma ShortestWalk(c: Chain, script: seq<nat>)
    requires |c.order| > 0 && 2 <= |script|
    requires Pick(c.order, script[0]) in c.table
    requires Draws(c, Pick(c.order, script[0]), script[1], End)
    ensures IsWalk(c, script, [Pick(c.order, script[0]).0, Pick(c.order, script[0]).1])
  {
  }

  /** The fixture walk: start at `(hi, there)`, draw `juanita`, then the
      sentinel. */
  lemma FixtureWalk()
    ensures IsWalk(ChainOf(FixtureTokens), [0, 1, 0], [Tok("hi"), Tok("there"), Tok("juanita")])
  {
    Fixture();
  }

  /** The module-level script: build the chain of `text`, then walk it. */
  method Markov(text: string, script: seq<nat>) returns (r: Result<string>, ghost walk: seq<Word>)
    ensures |Text.Split(text)| < 2 ==> r == Err(EmptyChoice)
    ensures |Text.Split(text)| >= 2 ==> r.Ok? || r == Err(OutOfDraws)
    ensures r.Ok? ==> IsWalk(ChainOf(Text.Split(text)), script, walk) && AllTokens(walk)
    ensures r.Ok? ==> AllTokens(walk) && r.value == Text.Join(Texts(walk))
    ensures r.Ok? ==> AllTokens(walk) && Text.Split(r.value) == Texts(walk)
    ensures r == Err(OutOfDraws) ==> forall w :: !IsWalk(ChainOf(Text.Split(text)), script, w)
  {
    var chains := MakeChains(text);
    ghost var ts := Text.Split(text);
    Text.SplitWords(text);
    ChainOfWellFormed(ts);
    if |ts| < 2 {
      ShortInputEmpty(ts);
    }
    r, walk := MakeText(chains, script);
    if r.Ok? {
      WalkOverTokens(ts, script, walk);
      var words := Texts(walk);
      forall j | 0 <= j < |words| ensures Text.IsWord(words[j]) {
        assert words[j] in ts;
      }
      Text.SplitJoin(words);
    }
  }
}
