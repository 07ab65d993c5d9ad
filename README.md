# Simplified Lesk word sense disambiguation, modelled in Dafny

This project models the core of `WordSenseDisambiguation`, a Java
implementation of the Simplified Lesk algorithm. The algorithm is given a
word and a context sentence. It looks the word up in a dictionary, which
returns the word's senses grouped by part of speech. Each sense has a gloss.
The algorithm tokenizes the sentence and every gloss, and scores each sense
by the number of distinct context tokens the gloss shares with the sentence,
excluding a fixed stoplist. The answer is the first sense, in dictionary
order, whose score is positive and highest. The instance form also records a
trace of every (gloss, overlap) pair, grouped by part of speech, together
with the position of the best sense.

There are three modules:

- `Tokenizer` (`tokenizer.dfy`) models Java's `String.split` for the two
  delimiter classes in use: `[\s\.]+` for the sentence and
  `[\(\)\;\"\?\!\.\s]+` for a gloss. The model keeps Java's own edge cases:
  - `""` splits into `[""]`;
  - an input made only of delimiters splits into `[]`;
  - trailing empty pieces are dropped;
  - an input that starts with a delimiter gets a leading empty token `""`.
- `Overlap` (`overlap.dfy`) models the stoplist and `computeOverlap`: the
  context's token set, minus the stoplist, intersected with the gloss's
  token set.
- `Lesk` (`lesk.dfy`) models the algorithm itself:
  - `Disambiguate` is the private five-argument `simplifiedLesk`, written
    as a `while` loop over the parts of speech;
  - `ExamineSenses` is its inner `for` loop over the senses of one part of
    speech;
  - `SimplifiedLesk` is the public static entry point;
  - the class `WordSenseDisambiguation` is the instance entry point, which
    keeps the trace and the best position in fields.

The methods are proved against a specification table, `ScoreTable`, which
holds the score of sense j of part of speech q. Over that table:

- `IsFirstBest(t, p, i)` says that (p, i) has a positive score, that no
  sense scores more, and that every earlier sense scores strictly less;
- `AllZero(t)` says that no sense scores at all;
- `Records` says what the recorded trace holds.

The dictionary is not modelled. The answer it gives for the word is an
input value, `Lookup`:

- `Found(indexWords)` holds the index words, with the parts of speech in
  the order the dictionary iterates them and each part's senses in
  dictionary order;
- `DictionaryError` stands for the `JWNLException` the source catches.

The core returns a three-way `Outcome`: `LookupFailed`, `NoSense` or
`Best(sense)`. The public entry points collapse the first two into `None`,
as the source returns `null` for both.

Java's `String.split` keeps a leading empty token when the text starts with
a delimiter, so `""` can be counted as an overlap; the model keeps this:

- `Tokenizer.Split` characterises exactly when the leading `""` appears;
- `Overlap.EmptyTokenOverlaps` shows that it can score, because `""` is not
  in the stoplist. For example, the gloss `(finance)` scores one against
  the sentence ` deposits`.

## Model

| member | source | states |
|---|---|---|
| Tokenizer.Runs | src/problem3/WordSenseDisambiguation.java:81 | a text that starts with a non-delimiter has a first token that starts with that character |
| Tokenizer.Split | src/problem3/WordSenseDisambiguation.java:81 | Java's split on a delimiter class: no token holds a delimiter; every token after the first is non-empty; the first token is `""` iff the text is empty or starts with a delimiter and holds a non-delimiter; the result is `[]` iff the text is non-empty and all delimiters |
| Tokenizer.RunsAreWords | src/problem3/WordSenseDisambiguation.java:94 | every maximal run between delimiters is non-empty and holds no delimiter |
| Tokenizer.RunsEmpty | src/problem3/WordSenseDisambiguation.java:94 | a text has no runs if and only if it is made of delimiters only |
| Tokenizer.SplitAt | src/problem3/WordSenseDisambiguation.java:81 | a delimiter cuts: once the text before a delimiter holds a word, splitting `a + [d] + b` gives the tokens of `a` followed by the runs of `b` |
| Tokenizer.SplitWord | src/problem3/WordSenseDisambiguation.java:81 | a word followed only by delimiters splits into that one word, with the trailing empty pieces dropped |
| Tokenizer.SplitLeadingRun | src/problem3/WordSenseDisambiguation.java:94 | any number of leading delimiters give one empty token, followed by the runs of the rest when the rest holds a word; with SplitAt and SplitWord this fixes the tokens of every text |
| Tokenizer.RunsKeepContent | src/problem3/WordSenseDisambiguation.java:94 | the runs, concatenated, are the text with its delimiters removed |
| Tokenizer.SplitKeepsContent | src/problem3/WordSenseDisambiguation.java:81 | splitting loses only delimiter characters: the tokens, concatenated, give the text without its delimiters |
| Tokenizer.RunsOfWord | src/problem3/WordSenseDisambiguation.java:94 | a non-empty delimiter-free text is a single token |
| Tokenizer.RunsSplitAt | src/problem3/WordSenseDisambiguation.java:94 | a delimiter separates: the runs of `a + [d] + b` are the runs of `a` followed by the runs of `b` |
| Tokenizer.SplitLeadingDelimiter | src/problem3/WordSenseDisambiguation.java:94 | a delimiter, one word and then only delimiters split into `["", word]` |
| Tokenizer.SplitExamples | src/problem3/WordSenseDisambiguation.java:81 | concrete splits: `"a a b"`, `" a"`, `"a "`, `"  "` and `""` on whitespace |
| Tokenizer.ContextTokens | src/problem3/WordSenseDisambiguation.java:81 | the sentence's tokens hold no whitespace or `.`; every token after the first is non-empty; the first is `""` iff the sentence is empty or starts with such a delimiter and holds another character; none iff the sentence is non-empty and made of delimiters only |
| Tokenizer.GlossTokens | src/problem3/WordSenseDisambiguation.java:94 | the gloss's tokens hold no whitespace or any of `();"?!.`; every token after the first is non-empty; the first is `""` iff the gloss is empty or starts with such a delimiter and holds another character; none iff the gloss is non-empty and made of delimiters only |
| Overlap.ComputeOverlap | src/problem3/WordSenseDisambiguation.java:126-134 | the overlap is a subset of the context's tokens and of the signature's tokens |
| Overlap.OverlapMembers | src/problem3/WordSenseDisambiguation.java:126-134 | a token is in the overlap iff it occurs in the context and in the signature and is not a stopword |
| Overlap.OverlapBound | src/problem3/WordSenseDisambiguation.java:126-134 | the overlap size is at most the number of distinct context tokens and at most the number of distinct signature tokens |
| Overlap.StopwordNeverOverlaps | src/problem3/WordSenseDisambiguation.java:22 | no word of the stoplist is ever in an overlap |
| Overlap.OverlapIgnoresRepetitionAndOrder | src/problem3/WordSenseDisambiguation.java:127-129 | the overlap depends only on which tokens occur, not on their order or repetition |
| Overlap.OverlapIgnoresPermutation | src/problem3/WordSenseDisambiguation.java:128 | reordering the signature's tokens leaves the overlap unchanged |
| Overlap.EmptyTokenOverlaps | src/problem3/WordSenseDisambiguation.java:94-95 | a gloss and a sentence that both start with a delimiter and hold a word share the empty token `""` in their overlap |
| Overlap.GlossExample | src/problem3/WordSenseDisambiguation.java:94 | the gloss `(finance)` tokenizes to `["", "finance"]` |
| Overlap.ContextExample | src/problem3/WordSenseDisambiguation.java:81 | the sentence ` deposits` tokenizes to `["", "deposits"]` |
| Overlap.LeadingEmptyOnlyOverlap | src/problem3/WordSenseDisambiguation.java:126-134 | `["", w1]` and `["", w2]` with different non-empty words overlap in `{""}` only |
| Overlap.EmptyTokenExample | src/problem3/WordSenseDisambiguation.java:94-96 | the gloss `(finance)` and the sentence ` deposits` have overlap `{""}`, a score of one |
| Lesk.ScoreTable | src/problem3/WordSenseDisambiguation.java:83-96 | the table has one row per part of speech; its entry [q][j] is `Score`, the size of `SenseOverlap`: the gloss of sense j of part of speech q split and overlapped with the context as at lines 94-96 |
| Lesk.SelectStep | src/problem3/WordSenseDisambiguation.java:102-104 | examining a sense with a strictly higher score makes it the selection; otherwise the selection is unchanged and stays the first best so far |
| Lesk.NextPos | src/problem3/WordSenseDisambiguation.java:83-92 | finishing a part of speech is starting the next one with the same selection |
| Lesk.SelectionComplete | src/problem3/WordSenseDisambiguation.java:80-104 | after every sense is examined, nothing was selected iff every score is zero, and a selection is the first best sense |
| Lesk.RecordSenseStep | src/problem3/WordSenseDisambiguation.java:98-99 | appending (gloss, overlap) of sense i extends the record of senses 0..i-1 to 0..i |
| Lesk.RecordPosStep | src/problem3/WordSenseDisambiguation.java:88-89 | appending the entry of part of speech p extends the record of the entries before p |
| Lesk.ExamineSenses | src/problem3/WordSenseDisambiguation.java:92-112 | after the senses of part of speech p: the selection is the first best among every sense up to p; when recording, the (gloss, overlap) of each sense is recorded in order |
| Lesk.Disambiguate | src/problem3/WordSenseDisambiguation.java:72-118 | a dictionary failure gives no sense, an empty trace and indices 0; otherwise no sense iff every score is zero; a chosen sense is the first best and sits at (bestPos, bestSense); when recording, the trace has one entry per part of speech, in order, with each sense's gloss and overlap |
| Lesk.SimplifiedLesk | src/problem3/WordSenseDisambiguation.java:58-60 | `null` iff the dictionary fails or every score is zero; otherwise the first sense of highest positive score |
| Lesk.FirstBestUnique | src/problem3/WordSenseDisambiguation.java:102 | at most one sense is the first best, so the answer is determined by the input |
| Lesk.LaterTieNeverChosen | src/problem3/WordSenseDisambiguation.java:102 | of two senses with equal score, the later one is never the answer |
| Lesk.ZeroScoreNeverChosen | src/problem3/WordSenseDisambiguation.java:102 | a sense with no overlap is never the answer |
| Lesk.TracePointsAtBest | src/problem3/WordSenseDisambiguation.java:98-108 | the trace entry at the best position holds the best sense's gloss and an overlap whose size is positive and the largest in the trace |
| Lesk.UnknownWordHasNoSense | src/problem3/WordSenseDisambiguation.java:83 | running the algorithm for a word with no parts of speech gives no sense and an empty trace |
| Lesk.WordSenseDisambiguation.constructor | src/problem3/WordSenseDisambiguation.java:36-39 | the object keeps the word and the sentence and has no trace yet |
| Lesk.WordSenseDisambiguation.SimplifiedLesk | src/problem3/WordSenseDisambiguation.java:45-50 | the trace is stored and records every part of speech and sense; the result is `null` iff the dictionary fails or no sense scores; a result is the first best sense and the stored indices point at it |

## Left out

- The extJWNL dictionary: `Dictionary.getDefaultResourceInstance`, `lookupAllIndexWords`, `getValidPOSSet`, `getIndexWord` and `getSenses` are calls into a library that is not part of this model. Their combined answer is the input `Lookup`.
- The `JWNLException` handler prints a stack trace. The printing is I/O and is not modelled. A dictionary failure is modelled only as happening before the loop starts, because in the source only the dictionary set-up and the lookup throw it.
- The order of the array returned by `computeOverlap` is whatever order the `HashSet` iterates in. The model keeps the overlap as a set, and the score is its size.
- Lesk.Disambiguate: the source writes the best indices only when a trace is being kept. The model computes them in both modes; the static entry point ignores them.
- Lesk.ExamineSenses: the source appends the part-of-speech entry before its senses are added to it. The model builds the sense list first and then appends the entry. Nothing reads the trace in between, so the final trace is the same.
- Part-of-speech names are the constructors of `Pos` instead of the strings returned by `POS.name()`.
- Java's 32-bit `int` for scores and indices is modelled as unbounded `nat`. A score is at most the number of tokens in a sentence, which stays far below 2^31.
- The `word` passed to the private method is used only for the dictionary lookup, so the model passes the lookup's answer instead.
- `displayResult` and `Main.java` are output formatting and are not part of this model.
