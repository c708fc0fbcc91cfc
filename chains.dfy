/** The chain builder of markov.py (`make_chains`): a second-order Markov
    chain mapping each pair of consecutive words to the words that follow it. */
module Chains {
  import Text

  /** A word of the text, or the `None` sentinel appended after the last one. */
  datatype Word = Tok(s: string) | End

  /** A context: two consecutive words. */
  type Key = (Word, Word)

  /** The dictionary `make_chains` returns. `order` is the dictionary's key
      list in insertion order (what `list(chains.keys())` yields); `table`
      maps each key to its successor list. */
  datatype Chain = Chain(order: seq<Key>, table: map<Key, seq<Word>>) {

    /** `order` lists every key of `table` exactly once. */
    predicate Valid() {
      (forall p, q :: 0 <= p < q < |order| ==> order[p] != order[q])
      && (set k | k in order) == table.Keys
    }

    /** No successor list is empty. */
    predicate NonEmptyLists() {
      forall k :: k in table ==> |table[k]| > 0
    }

    /** The sentinel is never part of a key. */
    predicate TokenKeys() {
      forall k :: k in table ==> k.0 != End && k.1 != End
    }

    /** Shifting a key by any of its non-sentinel successors gives a key. */
    predicate Closed() {
      forall k, x :: k in table && x in table[k] && x != End ==> (k.1, x) in table
    }

    /** Everything a walk over this chain needs to never fail a lookup. */
    predicate WellFormed() {
      Valid() && NonEmptyLists() && TokenKeys() && Closed()
    }
  }

  /** The words of the tokens, as `split()` returns them. */
  function Tokens(ts: seq<string>): seq<Word> {
    seq(|ts|, i requires 0 <= i < |ts| => Tok(ts[i]))
  }

  /** The word list after `words.append(None)`. */
  function Words(ts: seq<string>): seq<Word> {
    Tokens(ts) + [End]
  }

  /** Number of positions the builder visits: `len(range(len(words) - 2))`. */
  function Steps(ws: seq<Word>): nat {
    if |ws| < 2 then 0 else |ws| - 2
  }

  /** The bigram of tokens at position i. */
  function Pair(ts: seq<string>, i: nat): Key
    requires i + 1 < |ts|
  {
    (Tok(ts[i]), Tok(ts[i + 1]))
  }

  function Bigram(ws: seq<Word>, i: nat): Key
    requires i + 1 < |ws|
  {
    (ws[i], ws[i + 1])
  }

  /** The contexts at positions 0 .. m-1. */
  function Contexts(ws: seq<Word>, m: nat): set<Key>
    requires m <= Steps(ws)
  {
    if m == 0 then {} else Contexts(ws, m - 1) + {Bigram(ws, m - 1)}
  }

  /** The word after every occurrence of `k` at positions 0 .. m-1, in
      increasing position, duplicates kept. */
  function Successors(ws: seq<Word>, k: Key, m: nat): seq<Word>
    requires m <= Steps(ws)
  {
    if m == 0 then []
    else Successors(ws, k, m - 1) + (if Bigram(ws, m - 1) == k then [ws[m + 1]] else [])
  }

  /** The contexts at positions 0 .. m-1, each listed once, in order of first
      occurrence. */
  function FirstSeen(ws: seq<Word>, m: nat): seq<Key>
    requires m <= Steps(ws)
  {
    if m == 0 then []
    else if Bigram(ws, m - 1) in Contexts(ws, m - 1) then FirstSeen(ws, m - 1)
    else FirstSeen(ws, m - 1) + [Bigram(ws, m - 1)]
  }

  /** The chain of a token sequence, as a reference definition. */
  function ChainOf(ts: seq<string>): Chain {
    var ws := Words(ts);
    var m := Steps(ws);
    Chain(FirstSeen(ws, m), map k | k in Contexts(ws, m) :: Successors(ws, k, m))
  }

  /** `make_chains(text_string)`. */
  method MakeChains(text: string) returns (c: Chain)
    ensures c == ChainOf(Text.Split(text))
    ensures c.WellFormed()
  {
    var tokens := Text.Split(text);
    var words := Tokens(tokens);
    words := words + [End];
    var order: seq<Key> := [];
    var table: map<Key, seq<Word>> := map[];
    var i := 0;
    while i < |words| - 2
      invariant 0 <= i <= Steps(words)
      invariant Builds(words, i, table)
      invariant order == FirstSeen(words, i)
    {
      var key := (words[i], words[i + 1]);
      var value := words[i + 2];
      BuildStep(words, i, table);
      ghost var next := table[key := (if key in table then table[key] else []) + [value]];
      ghost var nextOrder := if key in table then order else order + [key];
      assert Builds(words, i + 1, next) && FirstSeen(words, i + 1) == nextOrder;
      if key !in table {
        table := table[key := []];
        order := order + [key];
      }
      table := table[key := table[key] + [value]];
      assert table == next && order == nextOrder;
      assert Builds(words, i + 1, table);
      i := i + 1;
    }
    assert words == Words(tokens) && i == Steps(words);
    c := Chain(order, table);
    BuiltChainOf(tokens, c);
  }

  /** After the last iteration the dictionary is the chain of the tokens. */
  lemma BuiltChainOf(ts: seq<string>, c: Chain)
    requires Builds(Words(ts), Steps(Words(ts)), c.table)
    requires c.order == FirstSeen(Words(ts), Steps(Words(ts)))
    ensures c == ChainOf(ts) && c.WellFormed()
  {
    ChainOfWellFormed(ts);
  }

  /** `table` is the dictionary after the first m iterations. */
  ghost predicate Builds(ws: seq<Word>, m: nat, table: map<Key, seq<Word>>)
    requires m <= Steps(ws)
  {
    table.Keys == Contexts(ws, m) && forall k :: k in table ==> table[k] == Successors(ws, k, m)
  }

  /** One iteration of the builder's loop: look the context up, start an
      empty list if it is new, append the successor. */
  lemma BuildStep(ws: seq<Word>, i: nat, table: map<Key, seq<Word>>)
    requires i < Steps(ws)
    requires Builds(ws, i, table)
    ensures var key := Bigram(ws, i);
      Builds(ws, i + 1, table[key := (if key in table then table[key] else []) + [ws[i + 2]]])
  {
    var key := Bigram(ws, i);
    SuccessorsNonEmpty(ws, key, i);
  }

  // ---------------------------------------------------------------------
  // Properties of the reference definition

  lemma {:induction false} ContextsAre(ws: seq<Word>, m: nat)
    requires m <= Steps(ws)
    ensures Contexts(ws, m) == set i | 0 <= i < m :: Bigram(ws, i)
    decreases m
  {
    if m > 0 {
      ContextsAre(ws, m - 1);
    }
  }

  lemma {:induction false} SuccessorsNonEmpty(ws: seq<Word>, k: Key, m: nat)
    requires m <= Steps(ws)
    ensures k in Contexts(ws, m) <==> |Successors(ws, k, m)| > 0
    decreases m
  {
    if m > 0 {
      SuccessorsNonEmpty(ws, k, m - 1);
    }
  }

  lemma {:induction false} SuccessorsAre(ws: seq<Word>, k: Key, m: nat, x: Word)
    requires m <= Steps(ws)
    ensures x in Successors(ws, k, m) <==> exists i :: 0 <= i < m && Bigram(ws, i) == k && ws[i + 2] == x
    decreases m
  {
    if m > 0 {
      SuccessorsAre(ws, k, m - 1, x);
      if Bigram(ws, m - 1) == k && ws[m + 1] == x {
        assert Bigram(ws, m - 1) == k && ws[m - 1 + 2] == x;
      }
    }
  }

  lemma {:induction false} FirstSeenLists(ws: seq<Word>, m: nat)
    requires m <= Steps(ws)
    ensures var o := FirstSeen(ws, m);
      (forall p, q :: 0 <= p < q < |o| ==> o[p] != o[q]) && (set k | k in o) == Contexts(ws, m)
    decreases m
  {
    if m > 0 {
      FirstSeenLists(ws, m - 1);
    }
  }

  /** The sentinel follows a context only at the last position, so it turns up
      once, under the last real bigram, and nowhere else. */
  lemma {:induction false} SentinelCount(ts: seq<string>, k: Key, m: nat)
    requires m <= Steps(Words(ts))
    ensures multiset(Successors(Words(ts), k, m))[End]
      == if m > 0 && m == |ts| - 1 && Bigram(Words(ts), m - 1) == k then 1 else 0
    decreases m
  {
    if m > 0 {
      var ws := Words(ts);
      SentinelCount(ts, k, m - 1);
      var tail := if Bigram(ws, m - 1) == k then [ws[m + 1]] else [];
      assert Successors(ws, k, m) == Successors(ws, k, m - 1) + tail;
      assert multiset(Successors(ws, k, m)) == multiset(Successors(ws, k, m - 1)) + multiset(tail);
      assert ws[m + 1] == End <==> m + 1 == |ts|;
    }
  }

  // ---------------------------------------------------------------------
  // Properties of the chain of a token sequence

  /** With fewer than two tokens there is no context: the chain is empty. */
  lemma ShortInputEmpty(ts: seq<string>)
    requires |ts| < 2
    ensures ChainOf(ts) == Chain([], map[])
  {
  }

  /** The keys are exactly the bigrams of the tokens, the last one included. */
  lemma KeysOf(ts: seq<string>)
    ensures ChainOf(ts).table.Keys == set i | 0 <= i < |ts| - 1 :: Pair(ts, i)
  {
    var ws := Words(ts);
    ContextsAre(ws, Steps(ws));
    assert forall i :: 0 <= i < |ts| - 1 ==> Bigram(ws, i) == Pair(ts, i);
  }

  /** Each key maps to a non-empty list holding exactly the words that follow
      the key's occurrences; the last bigram's list holds the sentinel. */
  lemma SuccessorsOf(ts: seq<string>, k: Key, x: Word)
    requires k in ChainOf(ts).table
    ensures |ChainOf(ts).table[k]| > 0
    ensures x in ChainOf(ts).table[k] <==>
      exists i :: 0 <= i < |ts| - 1 && Pair(ts, i) == k && Words(ts)[i + 2] == x
  {
    var ws := Words(ts);
    var m := Steps(ws);
    SuccessorsNonEmpty(ws, k, m);
    SuccessorsAre(ws, k, m, x);
    assert forall i :: 0 <= i < m ==> Bigram(ws, i) == Pair(ts, i);
  }

  /** The sentinel is in exactly one list, that of the final bigram, once. */
  lemma SentinelOnlyLast(ts: seq<string>, k: Key)
    requires |ts| >= 2
    requires k in ChainOf(ts).table
    ensures End in ChainOf(ts).table[k] <==> k == (Tok(ts[|ts| - 2]), Tok(ts[|ts| - 1]))
    ensures multiset(ChainOf(ts).table[k])[End] == if k == (Tok(ts[|ts| - 2]), Tok(ts[|ts| - 1])) then 1 else 0
  {
    SentinelCount(ts, k, |ts| - 1);
  }

  /** Every context a walk forms from a key and a non-sentinel successor is a
      key: the lookup on the shifted context never fails. */
  lemma ChainOfClosed(ts: seq<string>)
    ensures ChainOf(ts).Closed()
  {
    var c := ChainOf(ts);
    var ws := Words(ts);
    var m := Steps(ws);
    ContextsAre(ws, m);
    forall k, x | k in c.table && x in c.table[k] && x != End
      ensures (k.1, x) in c.table
    {
      SuccessorsAre(ws, k, m, x);
      var i :| 0 <= i < m && Bigram(ws, i) == k && ws[i + 2] == x;
      assert Bigram(ws, i + 1) == (k.1, x);
    }
  }

  /** The chain of any token sequence satisfies every well-formedness
      condition a walk relies on. */
  lemma ChainOfWellFormed(ts: seq<string>)
    ensures ChainOf(ts).WellFormed()
    ensures |ts| >= 2 ==> |ChainOf(ts).order| > 0
  {
    var c := ChainOf(ts);
    var ws := Words(ts);
    var m := Steps(ws);
    FirstSeenLists(ws, m);
    KeysOf(ts);
    forall k | k in c.table ensures |c.table[k]| > 0 {
      SuccessorsNonEmpty(ws, k, m);
    }
    ChainOfClosed(ts);
    if |ts| >= 2 {
      ContextsAre(ws, m);
      assert Bigram(ws, 0) in c.table;
    }
  }

  /** Every word of the chain, in a key or a list, is a token of the input
      or the sentinel. */
  lemma ChainOfVocabulary(ts: seq<string>)
    ensures forall k :: k in ChainOf(ts).table ==> k.0.Tok? && k.0.s in ts && k.1.Tok? && k.1.s in ts
    ensures forall k, x :: k in ChainOf(ts).table && x in ChainOf(ts).table[k] && x != End ==> x.Tok? && x.s in ts
  {
    var c := ChainOf(ts);
    var ws := Words(ts);
    var m := Steps(ws);
    KeysOf(ts);
    forall k, x | k in c.table && x in c.table[k] && x != End
      ensures x.s in ts
    {
      SuccessorsAre(ws, k, m, x);
      var i :| 0 <= i < m && Bigram(ws, i) == k && ws[i + 2] == x;
      assert x == Tok(ts[i + 2]);
    }
  }

  const FixtureTokens := ["hi", "there", "mary", "hi", "there", "juanita"]

  /** The doctest's input string splits into the fixture tokens. */
  lemma FixtureText()
    ensures Text.Split("hi there mary hi there juanita") == FixtureTokens
  {
    FixtureJoin();
    FixtureWords();
    Text.SplitJoin(FixtureTokens);
  }

  lemma FixtureJoin()
    ensures Text.Join(FixtureTokens) == "hi there mary hi there juanita"
  {
    JoinSix("hi", "there", "mary", "hi", "there", "juanita");
  }

  /** `' '.join` of six tokens, unfolded one token at a time. */
  lemma JoinSix(a: string, b: string, c: string, d: string, e: string, f: string)
    ensures Text.Join([a, b, c, d, e, f]) == a + " " + b + " " + c + " " + d + " " + e + " " + f
  {
    Text.JoinCons(e, [f]);
    assert [e] + [f] == [e, f];
    Text.JoinCons(d, [e, f]);
    assert [d] + [e, f] == [d, e, f];
    Text.JoinCons(c, [d, e, f]);
    assert [c] + [d, e, f] == [c, d, e, f];
    Text.JoinCons(b, [c, d, e, f]);
    assert [b] + [c, d, e, f] == [b, c, d, e, f];
    Text.JoinCons(a, [b, c, d, e, f]);
    assert [a] + [b, c, d, e, f] == [a, b, c, d, e, f];
  }

  lemma FixtureWords()
    ensures forall i :: 0 <= i < |FixtureTokens| ==> Text.IsWord(FixtureTokens[i])
  {
    var t := FixtureTokens;
    assert Text.IsWord(t[0]) && Text.IsWord(t[1]) && Text.IsWord(t[2]);
    assert Text.IsWord(t[3]) && Text.IsWord(t[4]) && Text.IsWord(t[5]);
  }

  lemma FixtureKeys()
    ensures var ws := Words(FixtureTokens);
      Steps(ws) == 5
      && Contexts(ws, 5) == {(Tok("hi"), Tok("there")), (Tok("there"), Tok("mary")),
                             (Tok("mary"), Tok("hi")), (Tok("there"), Tok("juanita"))}
      && FirstSeen(ws, 5) == [(Tok("hi"), Tok("there")), (Tok("there"), Tok("mary")),
                              (Tok("mary"), Tok("hi")), (Tok("there"), Tok("juanita"))]
  {
    var ws := Words(FixtureTokens);
    var hi, there, mary, juanita := Tok("hi"), Tok("there"), Tok("mary"), Tok("juanita");
    assert ws == [hi, there, mary, hi, there, juanita, End];
    var k1, k2, k3, k4 := (hi, there), (there, mary), (mary, hi), (there, juanita);
    assert Bigram(ws, 0) == k1 && Bigram(ws, 1) == k2 && Bigram(ws, 2) == k3;
    assert Bigram(ws, 3) == k1 && Bigram(ws, 4) == k4;
    assert Contexts(ws, 1) == {k1};
    assert Contexts(ws, 2) == {k1, k2};
    assert Contexts(ws, 3) == {k1, k2, k3};
    assert Contexts(ws, 4) == {k1, k2, k3};
    assert FirstSeen(ws, 1) == [k1];
    assert FirstSeen(ws, 2) == [k1, k2];
    assert FirstSeen(ws, 3) == [k1, k2, k3];
    assert FirstSeen(ws, 4) == [k1, k2, k3];
  }

  lemma FixtureSuccessors(k: Key)
    ensures var ws := Words(FixtureTokens);
      Steps(ws) == 5
      && Successors(ws, k, 5)
        == (if k == (Tok("hi"), Tok("there")) then [Tok("mary")] else [])
        + (if k == (Tok("there"), Tok("mary")) then [Tok("hi")] else [])
        + (if k == (Tok("mary"), Tok("hi")) then [Tok("there")] else [])
        + (if k == (Tok("hi"), Tok("there")) then [Tok("juanita")] else [])
        + (if k == (Tok("there"), Tok("juanita")) then [End] else [])
  {
    var ws := Words(FixtureTokens);
    var hi, there, mary, juanita := Tok("hi"), Tok("there"), Tok("mary"), Tok("juanita");
    assert ws == [hi, there, mary, hi, there, juanita, End];
    assert Successors(ws, k, 1) == (if k == (hi, there) then [mary] else []);
    assert Successors(ws, k, 2) == Successors(ws, k, 1) + (if k == (there, mary) then [hi] else []);
    assert Successors(ws, k, 3) == Successors(ws, k, 2) + (if k == (mary, hi) then [there] else []);
    assert Successors(ws, k, 4) == Successors(ws, k, 3) + (if k == (hi, there) then [juanita] else []);
    assert Successors(ws, k, 5) == Successors(ws, k, 4) + (if k == (there, juanita) then [End] else []);
  }

  /** The regression fixture: the last bigram `(there, juanita)` is a key,
      mapped to the sentinel alone. */
  lemma Fixture()
    ensures ChainOf(FixtureTokens) == Chain(
      [(Tok("hi"), Tok("there")), (Tok("there"), Tok("mary")),
       (Tok("mary"), Tok("hi")), (Tok("there"), Tok("juanita"))],
      map[(Tok("hi"), Tok("there")) := [Tok("mary"), Tok("juanita")],
          (Tok("there"), Tok("mary")) := [Tok("hi")],
          (Tok("mary"), Tok("hi")) := [Tok("there")],
          (Tok("there"), Tok("juanita")) := [End]])
  {
    var hi, there, mary, juanita := Tok("hi"), Tok("there"), Tok("mary"), Tok("juanita");
    var k1, k2, k3, k4 := (hi, there), (there, mary), (mary, hi), (there, juanita);
    FixtureKeys();
    FixtureSuccessors(k1);
    FixtureSuccessors(k2);
    FixtureSuccessors(k3);
    FixtureSuccessors(k4);
    var t := ChainOf(FixtureTokens).table;
    assert t.Keys == {k1, k2, k3, k4};
    assert t[k1] == [mary, juanita] && t[k2] == [hi] && t[k3] == [there] && t[k4] == [End];
    assert t == map[k1 := [mary, juanita], k2 := [hi], k3 := [there], k4 := [End]];
  }
}
