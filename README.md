# Word-level tokenizer, modelled in Dafny

This project models the tokenizer built by `createTokenizer` in
`src/utils/tokenizer.ts`. It is a word-level vocabulary with four parts:

- `tokenize` lower-cases a text, turns every character that is neither a
  word character nor white space into a space, splits on white space and
  drops the empty pieces.
- `learnVocab` counts the words of a training corpus. It ranks them by
  descending count and offers the top ones to the vocabulary, which gives
  every new word the next free id.
- `encode` maps the tokens of a text to ids and wraps them in the start and
  end ids.
- `decode` maps ids back to words, drops unknown ids and special tokens, and
  joins what is left with single spaces.

The tokenizer object is the class `WordTokenizer.Tokenizer`. Its fields are
the ones the closure updates in place: `vocab`, `reverseVocab`, the frequency
table `tokenCount` and `nextId`. A `Map` keeps its keys in insertion order,
so the frequency table is held as a `map` of counts plus a `countOrder`
sequence of keys.

The loops of the constructor and of `learnVocab` are methods with loop
invariants. Each is proved against a specification function on values:

| function | module | what it defines |
|---|---|---|
| `Registered` | `Vocabulary` | registering the special tokens |
| `Tally` | `Counting` | the counting loop's counts |
| `FirstSeen` | `Counting` | the order in which keys enter the frequency table |
| `AddWords` | `Vocabulary` | adding the ranked words |

The properties of the tokenizer are then proved about those functions. The
ghost predicate `Valid` is the invariant the tokenizer keeps:

- `vocab` and `reverseVocab` are inverse.
- The ids in use are exactly `0 .. nextId - 1`.
- The special tokens hold ids `0, 1, 2, ...` in order.
- Every other entry is a word `tokenize` can produce.

This tokenizer differs from many word tokenizers, and the model keeps those
differences:

- Punctuation is dropped, not kept as tokens.
- A second `learnVocab` call adds to the vocabulary and never removes
  entries.
- `decode` drops unknown ids instead of showing `<unk>`.
- `decode` joins with plain single spaces.
- `encode` always adds the start and end ids.
- `maxVocab` is not checked at construction. When `nextId` already exceeds
  `maxVocab || 1000`, the end passed to `slice` is negative, and JavaScript
  then keeps all but the last few ranked words. So the vocabulary can grow
  past the cap. The model reproduces this. The cap is proved for a tokenizer
  that starts within it (`LearnedCap`), and `LearnPastCap` proves the
  overshoot for one that does not.

## Model

| member | source | states |
|---|---|---|
| Text.IsWordChar | src/utils/tokenizer.ts:26 | Definition of `\w` in a regular expression without the `u` flag: `[A-Za-z0-9_]`. |
| Text.IsSpace | src/utils/tokenizer.ts:26-27 | Definition of JavaScript `\s`: tab, line feed, U+000B, U+000C, carriage return, space, U+00A0, U+1680, U+2000 to U+200A, U+2028, U+2029, U+202F, U+205F, U+3000 and U+FEFF. |
| Text.ToLower | src/utils/tokenizer.ts:25 | Lower-casing keeps a character a word character, or white space, exactly when it was one; a word character comes out as a token character `[a-z0-9_]`. |
| Text.SplitOnSpace | src/utils/tokenizer.ts:27 | The split always yields at least one piece; no piece holds white space; every character of a piece comes from the input. |
| Text.NonEmpty | src/utils/tokenizer.ts:28 | The filter keeps only non-empty pieces, each one of the input pieces. Exactness is in `NonEmptyExact` and order in `NonEmptyConcat`. |
| Text.NonEmptyExact | src/utils/tokenizer.ts:28 | A piece is kept if and only if it is a non-empty input piece. |
| Text.NonEmptyConcat | src/utils/tokenizer.ts:28 | The filter of a concatenation is the filter of each part in turn, so the kept pieces keep their order. |
| Text.LowerCase | src/utils/tokenizer.ts:25 | Definition: `ToLower` on every character. Its meaning is in `LowerCaseAscii`. |
| Text.LowerCaseAscii | src/utils/tokenizer.ts:25 | Lower-casing keeps the length. Each upper-case ASCII letter becomes the lower-case letter at the same place in the alphabet, and every other character is unchanged. |
| Text.ReplaceNonWord | src/utils/tokenizer.ts:26 | Definition: a character that is neither `\w` nor `\s` becomes a space. Its effect is in `TokenizeAtSeparator` and `TokensAreWords`. |
| Text.Normalise | src/utils/tokenizer.ts:25-26 | Definition: lower-casing, then replacing. `NormalisedChars` says what is left. |
| Text.NormalisedChars | src/utils/tokenizer.ts:25-26 | After normalisation every character is white space or one of `[a-z0-9_]`. |
| Text.Tokenize | src/utils/tokenizer.ts:24-29 | Definition: the whole pipeline. Its properties are in `TokensAreWords`, `TokenizeRun`, `TokenizeAtSeparator` and `TokenizeJoin`. |
| Text.Join | src/utils/tokenizer.ts:75 | Definition of `join(' ')`. `TokenizeJoin` proves it is undone by `tokenize`. |
| Text.SplitAtSpace | src/utils/tokenizer.ts:27 | A white-space character cuts the split into the splits of the two sides. |
| Text.SplitWord | src/utils/tokenizer.ts:27 | A string without white space splits into itself alone. |
| Text.TokensAreWords | src/utils/tokenizer.ts:24-29 | Every token is non-empty and made only of `[a-z0-9_]`. |
| Text.TokensAvoid | src/utils/tokenizer.ts:24-29 | No token contains a character outside `[a-z0-9_]`, such as `<`, `>`, punctuation or upper case. |
| Text.TokenizeAtSeparator | src/utils/tokenizer.ts:25-28 | Any character outside `[A-Za-z0-9_]` separates: the tokens of `a + [c] + b` are the tokens of `a` followed by those of `b`. |
| Text.TokenizeWord | src/utils/tokenizer.ts:24-29 | A token tokenizes to itself alone. |
| Text.TokenizeRun | src/utils/tokenizer.ts:24-29 | A non-empty run of `[A-Za-z0-9_]` is exactly one token, the run lower-cased. Together with `TokenizeAtSeparator`, the tokens are the maximal runs of word characters, lower-cased, in order. |
| Text.TokenizeJoin | src/utils/tokenizer.ts:24-29 | Joining tokens with single spaces and tokenizing gives the same tokens back. |
| Text.TokenizeIdempotent | src/utils/tokenizer.ts:24-29 | Tokenizing the space-joined tokens of a text gives the same tokens. |
| Counting.Corpus | src/utils/tokenizer.ts:35-37 | Definition: the tokens of every text, in training order. Its words are tokens (`CorpusWords`). |
| Counting.Tally | src/utils/tokenizer.ts:35-40 | Definition: the counts after the counting loop. `TallyCounts` proves each is the word's number of occurrences. |
| Counting.FirstSeen | src/utils/tokenizer.ts:38 | Definition: the key order of the frequency `Map`. `FirstSeenKeys` and `FirstSeenOrder` give its meaning. |
| Counting.SumCounts | src/utils/tokenizer.ts:82 | Definition of the `reduce` over the table's values. `SumTally` proves the total is the number of words. |
| Counting.Entries | src/utils/tokenizer.ts:43 | The entries list holds one (word, count) pair per key, in insertion order, with the key's count. |
| Counting.CorpusWords | src/utils/tokenizer.ts:35-37 | Every word counted is a token. |
| Counting.CountStep | src/utils/tokenizer.ts:38 | Counting one more word adds one to its count, or sets a new word's count to 1. A new word joins the end of the key order, and a known word leaves the order unchanged. |
| Counting.FirstSeenKeys | src/utils/tokenizer.ts:38 | The frequency table's key order lists exactly the words seen, each once. |
| Counting.TallyCounts | src/utils/tokenizer.ts:35-40 | The frequency table has exactly the words seen as keys, each with its number of occurrences. |
| Counting.FirstSeenOrder | src/utils/tokenizer.ts:38 | Keys are ordered by their first occurrence in the corpus. |
| Counting.SumTally | src/utils/tokenizer.ts:82 | The counts of the frequency table add up to the number of words trained on. |
| Ranking.InsertByCount | src/utils/tokenizer.ts:44 | Inserting an entry into the ranking adds exactly that entry. |
| Ranking.RankByCount | src/utils/tokenizer.ts:44 | The sort is a permutation of the entries. |
| Ranking.RankByCountSorted | src/utils/tokenizer.ts:44 | The sorted entries have non-increasing counts, and each word appears at most once if the input had that property. |
| Ranking.RankByCountStable | src/utils/tokenizer.ts:44 | The sort is stable: entries with equal counts keep their relative order. |
| Ranking.Slice | src/utils/tokenizer.ts:45 | `slice(0, end)` yields a prefix. Its length is `end` clamped to the length for a non-negative end, and `length + end` clamped at 0 for a negative end. |
| Vocabulary.Assign | src/utils/tokenizer.ts:19-21 | Definition of one `vocab.set`, `reverseVocab.set`, `nextId++` step. `AssignKeeps` and `AssignAppends` give its effect. |
| Vocabulary.Registered | src/utils/tokenizer.ts:18-22 | Definition: every special token assigned in turn. `RegisteredShape` and `RegisteredValid` give its effect. |
| Vocabulary.AddNew | src/utils/tokenizer.ts:48-52 | Definition: assign the word only if it is absent. Its effect is in `AddWordsKeeps` and `AddWordsAppends`. |
| Vocabulary.AddWords | src/utils/tokenizer.ts:47-53 | Definition: every candidate offered in turn. `AddWordsKeeps`, `AddWordsAppends` and `AddWordsValid` give its effect. |
| Vocabulary.UnseenAll | src/utils/tokenizer.ts:48 | When no offered word is known, every offered word is unseen, in order. |
| Vocabulary.Unseen | src/utils/tokenizer.ts:48 | The words not yet in the vocabulary are exactly the offered words that are not keys. |
| Vocabulary.SpecialIds | src/utils/tokenizer.ts:18-22 | Under the invariant the i-th special token has id i, and only the first (`UNK`) has id 0. |
| Vocabulary.AssignKeeps | src/utils/tokenizer.ts:19-21 | Assigning the next id to an absent word keeps the maps inverse and the ids contiguous, and changes no existing entry. |
| Vocabulary.RegisteredShape | src/utils/tokenizer.ts:18-22 | Registration gives the i-th special token's slot id i, ends with `nextId` equal to the number of special tokens, and has exactly the special tokens as keys, even with duplicates. |
| Vocabulary.RegisteredValid | src/utils/tokenizer.ts:18-22 | With distinct special tokens, registration establishes the invariant. |
| Vocabulary.AddWordsKeeps | src/utils/tokenizer.ts:47-53 | Adding words never changes or removes an entry. The keys become the old keys plus the offered words, and `nextId` grows by at most one per offered word. |
| Vocabulary.AddWordsAppends | src/utils/tokenizer.ts:47-53 | With distinct offered words, the new words get ids `nextId, nextId+1, ...` in offered order, in both maps, and `nextId` grows by their number. |
| Vocabulary.AssignAppends | src/utils/tokenizer.ts:49-51 | Assigning the next id to a new word extends a run of consecutive ids by that word. |
| Vocabulary.AddWordsValid | src/utils/tokenizer.ts:47-53 | Adding tokens keeps the invariant. |
| WordTokenizer.Tokenizer.constructor | src/utils/tokenizer.ts:3-22 | Construction registers the merged special tokens in order on an empty vocabulary, with an empty frequency table. With distinct special tokens the invariant holds. |
| WordTokenizer.Tokenizer.LearnVocab | src/utils/tokenizer.ts:31-56 | The frequency table is replaced by the tally of the new corpus, in first-seen order, and returned. The vocabulary becomes the old one with the words of the ranked, sliced frequency table added in order. The invariant is kept, and the cap is kept if it held before. |
| WordTokenizer.Tokenizer.CountWords | src/utils/tokenizer.ts:32-40 | After clearing, the frequency table is the tally and key order of the corpus's words. |
| WordTokenizer.Tokenizer.CountTokens | src/utils/tokenizer.ts:36-39 | Counting the words of one text extends the tally and key order by exactly those words. |
| WordTokenizer.Tokenizer.CountWord | src/utils/tokenizer.ts:38 | Counting one word adds one to its count, which starts from 0 when the word is absent. It keeps the frequency table equal to the tally of the words seen so far. |
| WordTokenizer.Tokenizer.AddCandidates | src/utils/tokenizer.ts:47-53 | The loop leaves the vocabulary equal to the specification of adding the sorted words in order. |
| WordTokenizer.Tokenizer.Encode | src/utils/tokenizer.ts:58-69 | There is one id per token plus two. Under the invariant the first id is 2 (`START`) and the last is 3 (`END`). Each token maps to its id, and an unknown token maps to 0, the `UNK` id. |
| WordTokenizer.Tokenizer.Kept | src/utils/tokenizer.ts:72-74 | Decoding shows only non-empty words that are not special tokens. Exactness is in `KeptExact` and order in `KeptConcat`. |
| WordTokenizer.KeptExact | src/utils/tokenizer.ts:72-74 | A word is kept if and only if some id of the input is in `reverseVocab`, names a non-empty, non-special word, and that word is it. |
| WordTokenizer.KeptConcat | src/utils/tokenizer.ts:72-74 | Decoding a concatenation keeps the words of each part in turn, so kept words stay in id order. |
| WordTokenizer.Tokenizer.Shown | src/utils/tokenizer.ts:73-74 | Definition of the filter's test: the id is known, and its word is non-empty and not special. |
| WordTokenizer.Tokenizer.IdOf | src/utils/tokenizer.ts:61 | Definition of the fallback chain. `LookupUnderInvariant` proves it gives the word's id or 0. |
| WordTokenizer.Tokenizer.IdOrZero | src/utils/tokenizer.ts:65-67 | Definition of `vocab.get(token)` with the fallback to 0. `LookupUnderInvariant` gives the start and end ids. |
| WordTokenizer.Tokenizer.KnownWords | src/utils/tokenizer.ts:60-74 | Definition: the tokens that are in the vocabulary and not special. `EncodeDecode` proves these are what survives encoding and decoding. |
| WordTokenizer.SpecialTokens.Values | src/utils/tokenizer.ts:9-18 | `Object.values` of the merged record: `UNK`, `PAD`, `START` and `END` in that order, then the values of any extra keys. The constructor registers in this order, and `decode` filters against these values. |
| WordTokenizer.Cap | src/utils/tokenizer.ts:45 | Definition of `options.maxVocab` with 1000 as the default. It is used by `LearnVocab`, `LearnedCap` and `LearnPastCap`. |
| WordTokenizer.Candidates | src/utils/tokenizer.ts:43-45 | Definition of `sortedWords`. `CandidateWords` and `CandidateCounts` give its meaning. |
| WordTokenizer.Offered | src/utils/tokenizer.ts:43-47 | Definition: the words of `sortedWords` in order. |
| WordTokenizer.Keys | src/utils/tokenizer.ts:47 | The words of the entries, one per entry, in order. |
| WordTokenizer.Tokenizer.Decode | src/utils/tokenizer.ts:71-76 | Under the invariant, tokenizing the decoded text gives back exactly the words decoding kept. |
| WordTokenizer.Tokenizer.GetStats | src/utils/tokenizer.ts:78-83 | The special count is the number of special tokens, and regular words are the size minus that. The total is the number of words trained on. Under the invariant the size is `nextId` and the regular count is not negative. |
| WordTokenizer.KeptAreWords | src/utils/tokenizer.ts:72-74 | Under the invariant every decoded word is in the vocabulary and is a token. |
| WordTokenizer.CandidateWords | src/utils/tokenizer.ts:43-45 | The words offered to the vocabulary are training words, each offered once. |
| WordTokenizer.CandidateCounts | src/utils/tokenizer.ts:43-45 | Each candidate carries its word's number of occurrences in the corpus. Candidates come in descending order of count, and the sort keeps ties in first-seen order. |
| WordTokenizer.LearnedValid | src/utils/tokenizer.ts:31-53 | Training on any corpus keeps the invariant. |
| WordTokenizer.LearnPastCap | src/utils/tokenizer.ts:43-53 | If `nextId` is already past the cap and the training words are all new and outnumber the overshoot, the negative `slice` end still lets words in. `nextId` then grows to its old value plus the distinct words minus the overshoot, beyond the cap. |
| WordTokenizer.LearnedCap | src/utils/tokenizer.ts:45-53 | When `nextId` is within the cap (`maxVocab`, or 1000 when it is absent), training leaves it within the cap. |
| WordTokenizer.LookupUnderInvariant | src/utils/tokenizer.ts:60-67 | Under the invariant, the `START` and `END` lookups give 2 and 3. The lookup with its fallbacks to the `UNK` id and to 0 gives the word's id when it is known and 0 otherwise. |
| WordTokenizer.LearnedIds | src/utils/tokenizer.ts:43-53 | Training gives the candidates not yet known the ids `nextId, nextId+1, ...` in ranking order. `nextId` grows by their number. |
| WordTokenizer.DefaultRegistration | src/utils/tokenizer.ts:9-22 | The default options give `<unk>`, `<pad>`, `<start>`, `<end>` the ids 0 to 3 and `nextId` 4, with the invariant. |
| WordTokenizer.DefaultSpecialsAreNotTokens | src/utils/tokenizer.ts:9-13 | No token ever equals a default special token. |
| WordTokenizer.EncodeShape | src/utils/tokenizer.ts:64-68 | Under the invariant an encoding is `2`, the token ids, then `3`. |
| WordTokenizer.KeptSpecialId | src/utils/tokenizer.ts:74 | Under the invariant the ids of the four named special tokens decode to nothing. |
| WordTokenizer.KeptEncoded | src/utils/tokenizer.ts:60-74 | Decoding the token ids of an encoding keeps exactly the tokens that are in the vocabulary and not special. |
| WordTokenizer.EncodeDecode | src/utils/tokenizer.ts:58-76 | Decoding an encoding gives the known, non-special tokens of the text joined by single spaces. |
| WordTokenizer.RoundTrip | src/utils/tokenizer.ts:58-76 | If every token is known and not special, decoding the encoding gives the tokens joined by spaces, and that text tokenizes to the same tokens. |
| WordTokenizer.DecodeEncodeDecode | src/utils/tokenizer.ts:58-76 | Encoding decoded text and decoding again gives the same text. |

## Left out

- Lower-casing covers ASCII letters only. `toLowerCase` also maps a few non-ASCII characters onto ASCII letters (the Kelvin sign, `İ`), and those would then survive as word characters. All other non-ASCII characters are not `\w`, so they act as separators either way: non-ASCII white space is kept by the replacement, the rest become spaces, and both split words.
- JavaScript strings are UTF-16 code units; the model's strings are sequences of Dafny characters (scalar values).
- The accessors `getVocab`, `getReverseVocab` and `getTokenCount` hand out the live maps, and the returned object also exposes the live `specialTokens` record, which `encode`, `decode` and `getStats` read. The model reads the fields directly, and its `specialTokens` is a constant, so changes a caller makes through any of these references are not modelled.
- `learnVocab` returns the live frequency `Map`; the model returns its value at the time of return.
- The options merge `{ UNK, PAD, START, END, ...options.specialTokens }` is taken as its result, a `SpecialTokens` record. Overriding a named key keeps its position, and new keys come after the four named ones. Integer-like keys, which `Object.values` would order first, are not modelled.
- `maxVocab` is an integer, and 0 stands for both an absent option and 0, as `||` treats them alike. Non-integer and `NaN` values are not modelled.
- Ids passed to `decode` are integers; non-integer numbers are not modelled.
- WordTokenizer.Tokenizer.Encode: the start, end and per-token ids are stated only under the invariant. Without it, `vocab.get(w) || vocab.get(UNK) || 0` may depend on duplicate special tokens.
- WordTokenizer.Tokenizer.Decode: the round trip is stated only under the invariant.
- The React components, `App.tsx` and the types file are not part of this model; they only call the tokenizer and render its results.
