# Order-2 Markov text generator, modelled in Dafny

This project models the Rust port of Kernighan & Pike's chapter-3 Markov
program (`markov/src/main.rs`). The program reads a corpus and splits it
into whitespace-delimited words. It builds a table from every two-word
prefix to the words that followed that prefix, in corpus order and with
duplicates kept. It then writes the first two words, and walks the table
from there: each step picks a random follower of the current prefix,
writes it and shifts the prefix. The walk stops when the prefix has no
entry, or after `NWORDS - NPREFIX` steps.

The modules follow the program's pieces:

- `Prefixes` (`prefix.dfy`): words as byte sequences, the `Prefix` key and
  its rolling base-31 hash. `Prefix.Hash` is the source's two loops over
  the bytes of `a` and then `b`, proved equal to `HashBytes(a + b)`.
  `HashBytes` is proved equal to the plain polynomial reduced modulo 2^32.
- `Tokenizer` (`tokenizer.dfy`): `split_whitespace` as a function over
  bytes, with lemmas that no content is lost and that it splits cleanly at
  whitespace.
- `ChainBuilder` (`builder.dfy`): the build loop as the method `Build`,
  proved to return exactly `ChainOf(words)`. `ChainOf` maps each prefix
  that occurs to `Followers(words, p)`, the words that followed it in
  order. Lemmas cover which keys appear, what the entries hold, the order
  of each entry, non-empty entries and the total entry length.
- `ChainGenerator` (`generator.dfy`): the generate loop, with its early
  `break`, as the method `Generate`. It is proved to produce
  `Lines(Generated(table, first, roll))`. `Generated` is the walk as a
  function of a step-by-step `Walk` state, and lemmas give its trace and
  stopping properties.
- `Markov` (`markov.dfy`): the whole program as the method `Run`, with
  end-to-end lemmas. Every three consecutive output words occur in the
  corpus in that order. A two-word corpus gives exactly those two words.
  The output text tokenizes back to the generated words. A lemma also
  works through the table of "the quick fox the quick brown the quick fox".

The random generator is a parameter `roll: nat -> nat`. `roll(i)` is the
raw value drawn at generation step `i`, and the index used is
`roll(i) % len`, as in the source. The short-document failure
(`expect(SHORT_DOC_ERR)`) is modelled as an `Err` result carrying the same
message.

The maximum output length follows the code: the two seed words plus at
most `NWORDS - NPREFIX` generated words, so at most `NWORDS` words in all.
`NWORDS` is not the number of words generated after the seed; the seed
words count toward it.

## Model

| member | source | states |
|---|---|---|
| `Prefixes.Prefix.Hash` | markov/src/main.rs:29-40 | the hash loops over the bytes of `a` and then of `b` compute `HashBytes(a + b)`, so the hash depends only on the concatenation |
| `Prefixes.HashIsPolynomial` | markov/src/main.rs:31-38 | the wrapping rolling hash equals the polynomial sum of `s[i] * 31^(n-1-i)` reduced modulo 2^32 |
| `Prefixes.PolySnoc` | markov/src/main.rs:34-37 | one more byte multiplies the reference polynomial by 31 and adds the byte |
| `Prefixes.HashCollision` | markov/src/main.rs:23-40 | the keys ("ab","c") and ("a","bc") are unequal, yet the bytes their `Prefix.Hash` loops run over, `p.a + p.b`, hash equal, so the table must compare keys by structural equality |
| `Tokenizer.SplitWhitespace` | markov/src/main.rs:57 | every word produced is non-empty and free of whitespace |
| `Tokenizer.SplitKeepsContent` | markov/src/main.rs:57 | the words laid end to end are the corpus with its whitespace deleted, so no content is lost or reordered |
| `Tokenizer.SplitAppend` | markov/src/main.rs:57 | splitting distributes over concatenation at a point that follows whitespace |
| `Tokenizer.SplitBlank` | markov/src/main.rs:57 | an all-whitespace text yields no words |
| `Tokenizer.SplitToken` | markov/src/main.rs:57 | a whole run of non-whitespace bytes is one word, never cut into pieces; with `SplitAppend`, `SplitBlank` and `SplitTokenLine` this fixes the split of every text |
| `Tokenizer.SplitTokenLine` | markov/src/main.rs:57 | a token followed by one whitespace byte yields exactly that token |
| `ChainBuilder.Build` | markov/src/main.rs:57-69 | fails with SHORT_DOC_ERR exactly when there are fewer than 2 words; otherwise the seed is (w[0], w[1]) and the table is `ChainOf(words)`; the loop keeps `prefix == (w[k-2], w[k-1])` |
| `ChainBuilder.ChainOfSnoc` | markov/src/main.rs:65-68 | one more word appends that word to the entry of the prefix before it, creating the entry if missing, and leaves every other entry unchanged |
| `ChainBuilder.FollowersAbsent` | markov/src/main.rs:65-66 | a prefix that never occurs has no followers, hence no entry |
| `ChainBuilder.FollowersMembers` | markov/src/main.rs:64-69 | x is in the entry of p iff some position i has (w[i], w[i+1]) == p and w[i+2] == x |
| `ChainBuilder.FollowersFront` | markov/src/main.rs:65-66 | read from the front, an entry lists the followers in corpus order |
| `ChainBuilder.ChainOfNonEmpty` | markov/src/main.rs:65-66 | every entry of the built table is non-empty |
| `ChainBuilder.TotalLengthPick` | markov/src/main.rs:66 | the sum of entry lengths can be taken starting from any key |
| `ChainBuilder.TotalLengthAppend` | markov/src/main.rs:66 | one push adds one to the sum of entry lengths |
| `ChainBuilder.ChainOfTotalLength` | markov/src/main.rs:64-69 | the entries of the table built from n >= 2 words hold n - 2 words in all |
| `ChainGenerator.Pick` | markov/src/main.rs:84-85 | the index `rng % suf.len()` is in range for a non-empty entry, so the chosen word is one of the prefix's recorded followers |
| `ChainGenerator.Generate` | markov/src/main.rs:75-93 | the output buffer is the seed words and then each walked word, one per line: `Lines(Generated(table, first, roll))` |
| `ChainGenerator.StoppedStays` | markov/src/main.rs:90-91 | after the walk breaks at a missing prefix, later steps change nothing |
| `ChainGenerator.WalkInvariant` | markov/src/main.rs:80-92 | after k steps the output starts with the seed, the prefix is its last two words, each step adds one word until the walk stops, and it stops only at a prefix without an entry |
| `ChainGenerator.GeneratedTrace` | markov/src/main.rs:82-89 | output has 2..NWORDS words, begins with first.a then first.b, and each word at i >= 2 is in `table[(out[i-2], out[i-1])]`, at index `roll(i-2) % len` |
| `ChainGenerator.GeneratedStops` | markov/src/main.rs:82-92 | fewer than NWORDS words means the last two words form a prefix with no entry |
| `ChainGenerator.GeneratedFromEmpty` | markov/src/main.rs:83-91 | with an empty table the walk writes only the two seed words |
| `Markov.Run` | markov/src/main.rs:55-93 | the program fails with SHORT_DOC_ERR iff the corpus has fewer than 2 words, and otherwise writes the generated words of the corpus's chain, one per line |
| `Markov.OutputFollowsCorpus` | markov/src/main.rs:64-89 | the output begins with the corpus's first two words, has at most NWORDS words, and every three consecutive output words occur consecutively in the corpus |
| `Markov.OutputWordsFromCorpus` | markov/src/main.rs:80-89 | every output word is a corpus word |
| `Markov.TwoWordCorpus` | markov/src/main.rs:57-91 | a two-word corpus builds an empty table and its output is exactly those two words |
| `Markov.LinesRetokenize` | markov/src/main.rs:80-87 | text written one token per line tokenizes back to the same tokens |
| `Markov.OutputRetokenizes` | markov/src/main.rs:57-87 | the written text tokenizes back to the generated words |
| `Markov.QuickFoxPrefixes` | markov/src/main.rs:64-69 | for each k from 2 to 9, the table of the first k words of the example corpus is the expected partial table |
| `Markov.QuickFoxTable` | markov/src/main.rs:64-69 | for "the quick fox the quick brown the quick fox" the table is (the,quick)→[fox,brown,fox], (quick,fox)→[the], (fox,the)→[quick], (quick,brown)→[the], (brown,the)→[quick] |

## Left out

- Reading standard input and `String::leak` (markov/src/main.rs:48-49) are I/O and lifetime plumbing. The corpus is a parameter, and the read failure (`STDIN_READ_ERROR`) is not modelled.
- `thread_rng()` and `rng.gen::<usize>()` are a foreign random source. They are the parameter `roll`, which may return any natural, not just one below 2^64. Only `roll(i) % len` is used, which is always in range because entries are non-empty.
- The capacity hints `APPROX_NUM_PREFIXES` and `APPROX_OUTPUT_SIZE` are performance only. The final `print!` is output I/O; the model returns the buffer.
- The `HashMap` buckets and `Hasher::write_u32` belong to the library. The table is a Dafny `map`, and `Prefix.Hash` is modelled but not used by the map.
- Prefixes.Prefix.Hash: models the release-build wrap-around of `MULTIPLIER * h + p` (arithmetic modulo 2^32). A debug build panics on overflow, and that panic is not modelled.
- Tokenizer.SplitWhitespace: treats only the ASCII whitespace bytes (tab, line feed, vertical tab, form feed, carriage return, space) as separators. Unicode whitespace outside ASCII, such as U+0085 and U+00A0, is not treated as whitespace, and the UTF-8 validity of the input is not modelled.
- The tokenizer is lazy in the source, while the model splits the whole corpus up front. Words are copied byte sequences rather than slices into one buffer. Neither difference is observable in the output.
