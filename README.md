# Second-order Markov text generator, modelled in Dafny

`markov.py` builds a second-order Markov chain from a text and generates new
text by walking it at random. `make_chains` splits the text on whitespace,
appends the `None` sentinel, and maps every pair of consecutive words (a
context) to the list of words that follow it, in order of occurrence and with
duplicates kept. `make_text` picks a random key, then keeps drawing a
successor of the current context, appending it and shifting the context by
one word, until it draws the sentinel. Finally it joins the words with single
spaces.

The model has three modules:

- `Text` (`text.dfy`): `str.split()` over ASCII whitespace and `' '.join`,
  with the round trip between them.
- `Chains` (`chains.dfy`): the `Word` datatype, where `End` is the sentinel,
  and the `Chain` datatype for the Python dictionary. `Chain.order` is the
  dictionary's key list in insertion order; `Chain.table` maps each key to
  its successor list. `MakeChains` is the builder's loop. It is proved equal
  to the reference definition `ChainOf`, and the builder's invariants are
  lemmas about `ChainOf`.
- `Generate` (`generate.dfy`): `MakeText`, the generator's `while` loop. Every
  call to `random.choice` is answered by a script of draws; draw `d` on a
  list `xs` selects `xs[d % |xs|]`, an index into the list with its
  duplicates. The predicate `IsWalk(c, script, ws)` states declaratively which
  word list a script produces. `Markov` is the module-level composition of
  the two steps.

The chain is a value, so nothing the generator does can change it. Walking a
chain twice leaves that chain exactly as it was.

Where the code and its docstring disagree, the model follows the code. The
loop `for i in range(len(words) - 2)` runs over the sentinel-extended list,
so the last real bigram IS a key, mapped to `[None]`. The doctest at
markov.py:43-44 says so. The doctest at markov.py:33-36 lists the keys
without `('there', 'juanita')`, which contradicts the code.
`Chains.FixtureText` proves that the doctest's input string splits into the
six fixture tokens, and `Chains.Fixture` proves the chain of those tokens, so
together they cover the doctest call `make_chains('hi there mary hi there
juanita')` as the code computes it.

The code has no dedicated error types. An empty chain makes the first
`choice` raise `IndexError` (`EmptyChoice`). A missing context raises
`KeyError` (`MissingKey`). A sentinel inside a starting key makes the join
raise `TypeError` (`NotText`). The model returns these as `Err` values.
`OutOfDraws` is a failure of the model only: the script has no draw left, and
that is what bounds the loop.

## Model

| member | source | states |
|---|---|---|
| `Text.Split` | markov.py:49 | `text_string.split()`: the maximal runs of non-whitespace characters, in order; leading, trailing and repeated whitespace give no empty token |
| `Text.Join` | markov.py:91 | `' '.join(words)`: the tokens separated by single spaces, `""` for no tokens |
| `Text.JoinCons` | markov.py:91 | joining a token in front of a non-empty list puts exactly one space between it and the join of the rest |
| `Text.SplitWords` | markov.py:49 | every token of `text.split()` is non-empty and free of whitespace |
| `Text.SplitKeepsText` | markov.py:49 | splitting drops exactly the whitespace: the tokens, run together, are the non-whitespace characters of the text in order |
| `Text.SplitJoin` | markov.py:91 | joining tokens with single spaces and splitting again gives the same tokens back |
| `Chains.MakeChains` | markov.py:22-64 | the dictionary the loop builds is `ChainOf` of the split text: its keys in first-occurrence order, each mapped to the word after every occurrence, in increasing position, duplicates kept; it is also well-formed: keys listed once each, no empty list, no sentinel in a key, closed under shifting |
| `Chains.BuildStep` | markov.py:53-61 | one iteration (look up the key, create an empty list if it is new, append the successor) extends the dictionary of the first i positions to that of the first i+1 |
| `Chains.BuiltChainOf` | markov.py:47-64 | after all `len(words) - 2` iterations the dictionary and its key order are the chain of the tokens |
| `Chains.ContextsAre` | markov.py:53-55 | the contexts after m iterations are exactly the bigrams at positions below m |
| `Chains.SuccessorsNonEmpty` | markov.py:58-61 | a context has a non-empty successor list exactly when it occurs |
| `Chains.SuccessorsAre` | markov.py:55-61 | `x` is a successor of `k` exactly when some occurrence of `k` is followed by `x` |
| `Chains.FirstSeenLists` | markov.py:58-59 | the key order lists every context once and nothing else |
| `Chains.SentinelCount` | markov.py:51-56 | the sentinel occurs once in the list of the last real bigram and nowhere else |
| `Chains.ShortInputEmpty` | markov.py:49-53 | zero or one token gives the empty chain |
| `Chains.KeysOf` | markov.py:53-55 | the keys are exactly the token bigrams `(w[i], w[i+1])` for `0 <= i <= n-2`, the last one included |
| `Chains.SuccessorsOf` | markov.py:55-61 | every key's list is non-empty and holds exactly the words that follow the key's occurrences |
| `Chains.SentinelOnlyLast` | markov.py:51-56 | the sentinel is in the list of a key iff the key is the final bigram, and occurs there exactly once |
| `Chains.ChainOfClosed` | markov.py:84-88 | for every key `k` and non-sentinel successor `x`, `(k.1, x)` is a key, so the lookup in the loop cannot fail |
| `Chains.ChainOfWellFormed` | markov.py:53-61 | the chain of any tokens is well-formed, and two or more tokens give at least one key |
| `Chains.ChainOfVocabulary` | markov.py:53-56 | every word in a key or a successor list is a token of the input, or the sentinel |
| `Chains.FixtureText` | markov.py:31 | the doctest's input `'hi there mary hi there juanita'` splits into `hi, there, mary, hi, there, juanita` |
| `Chains.FixtureKeys` | markov.py:35-44 | the fixture's keys, in insertion order, are `(hi,there)`, `(there,mary)`, `(mary,hi)`, `(there,juanita)` |
| `Chains.FixtureSuccessors` | markov.py:40-44 | the fixture's successor lists, element by element |
| `Chains.Fixture` | markov.py:31-44 | the fixture chain is `{(hi,there): [mary, juanita], (there,mary): [hi], (mary,hi): [there], (there,juanita): [None]}` |
| `Generate.Pick` | markov.py:79 | a draw selects an element of the list it is made from |
| `Generate.MakeText` | markov.py:71-91 | success means the words are the walk the script determines, contain no sentinel, and the result is their single-space join; `NotText` means the walk exists but its starting key holds the sentinel; any other failure means no such walk exists; an empty chain gives `EmptyChoice`; `EmptyChoice` implies an empty chain or an empty list; `MissingKey` implies the chain is not closed |
| `Generate.WalkAt` | markov.py:84-88 | every context a walk forms, up to its last, is a key with a non-empty list |
| `Generate.WalkGrows` | markov.py:82-88 | a walk that agrees with the words so far, where a non-sentinel was drawn, continues with exactly that word |
| `Generate.WalkedGrows` | markov.py:82-86 | appending a drawn non-sentinel word keeps the list a correct walk prefix |
| `Generate.WalksAgree` | markov.py:75-88 | two walks under the same script agree on every common prefix |
| `Generate.ShorterWalkEqual` | markov.py:82-88 | a walk cannot run past the point where another walk under the same script drew the sentinel |
| `Generate.WalkUnique` | markov.py:75-88 | the script determines the walk: any two walks for it are equal |
| `Generate.WalkOverTokens` | markov.py:77-91 | a walk over the chain of some tokens consists of real tokens of the input, never the sentinel |
| `Generate.ShortestWalk` | markov.py:77-82 | if the first successor drawn is the sentinel, the output is the starting key alone |
| `Generate.FixtureWalk` | markov.py:75-88 | on the fixture, draws 0, 1, 0 produce `hi there juanita` |
| `Generate.Markov` | markov.py:100-103 | fewer than two tokens fail with `EmptyChoice`; otherwise the only possible failure is running out of draws; on success the output is the single-space join of the walk's words, and it splits back into those words |

## Left out

- `open_and_read_file` (markov.py:6-17): file input. The text is a parameter of `MakeChains` and `Markov`.
- The hard-coded input path, the file read and the `print` of the result (markov.py:94-97, 105).
- `random.choice` itself: each call is answered by the next entry of an explicit script, taken modulo the length of the list. Uniformity, randomness and termination with probability 1 are not modelled. Results are stated relative to the script, and a script that runs out ends the walk with `OutOfDraws`.
- `Text.Split`: models `str.split()` over the ASCII whitespace characters only (space, tab through carriage return, and U+001C to U+001F). Unicode whitespace outside ASCII is not treated as a separator.
- `Generate.MakeText`: requires only that every key in the key order is a key of the table, which every Python dictionary satisfies. It does not model a dictionary whose key list and table disagree.
