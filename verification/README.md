# Character-level Markov language model

This project models `LanguageModel.java`, an order-k character language model, and proves
properties of the model. Training slides a window of `windowLength` characters over a corpus.
For each window it counts which characters follow it, in a per-window list of `CharData`
entries: a character, its count, its probability `p` and its cumulative probability `cp`.
Finalising a list sets `p = count / total` and makes `cp` the running sum of `p` in list
order. Generation starts from a seed text. It repeatedly looks up the trailing window and
appends a character, chosen by inverse-CDF selection: the first entry whose `cp` exceeds a
uniform draw in [0, 1). Generation stops after the requested number of characters, or as
soon as the trailing window was never seen in training.

The modules follow the program's structure:

- `CharDataList` (`chardata.dfy`) is the per-window list: lookup, count and the `update`
  step. A character seen for the first time goes to the front of the list; a known one has
  its count incremented.
- `Distribution` (`distribution.dfy`) covers `calculateProbabilities` and `getRandomChar`.
  The random draw is a parameter.
- `Training` (`training.dfy`) covers `train`. The corpus is a string rather than a file. The
  method `CountCorpus` mirrors the two loops of the source. The function `Build` is its
  reference definition. The ghost `Occurrences` counts corpus positions directly.
- `Generation` (`generation.dfy`) covers `generate`. The random source is a sequence of
  draws, one per generated character.

Probabilities are exact rationals (`real`). The source computes them with `double`.

## Model

| member | source | states |
|---|---|---|
| CharDataList.IndexOf | LanguageModel.java:58-61 | the position of the first entry for the character, or -1 exactly when the list has no entry for it |
| CharDataList.Update | LanguageModel.java:58-61 | the list grows by one entry exactly when the character was not yet in it |
| CharDataList.UpdateCounts | LanguageModel.java:58-61 | update counts exactly one more occurrence of the character and leaves every other character's count unchanged |
| CharDataList.UpdateChars | LanguageModel.java:58-61 | after update the list holds the new character plus exactly the characters it held before |
| CharDataList.UpdateKeepsOrder | LanguageModel.java:58-60 | existing entries keep their order; a new character can only appear at the beginning |
| CharDataList.UpdateTotal | LanguageModel.java:58-61 | update raises the total count of the list by exactly one |
| CharDataList.UpdateWellFormed | LanguageModel.java:51-61 | starting from a fresh or well-formed list, update leaves it non-empty, with one entry per character and every count positive |
| Distribution.CalculateProbabilities | LanguageModel.java:76-91 | keeps each entry's character and count, sets p to count over the list's total, and sets cp to p plus the previous entry's cp (p alone for the first entry) |
| Distribution.FinalizedCounts | LanguageModel.java:84-90 | finalising keeps the list well formed and every character's count, and a character has an entry exactly when its count is positive |
| Distribution.CdfIsNormalizedPrefixSum | LanguageModel.java:78-90 | cp of entry i equals the counts of entries 0..i divided by the total |
| Distribution.LastCdfIsOne | LanguageModel.java:78-90 | the last cp of a finalised non-empty list is exactly 1 |
| Distribution.ProbabilityBounds | LanguageModel.java:78-86 | every p lies in [0, 1], and is positive exactly when its count is |
| Distribution.CdfMonotone | LanguageModel.java:84-90 | cp never decreases along the list |
| Distribution.CdfStrictlyIncreasing | LanguageModel.java:84-90 | with all counts positive, cp strictly increases along the list |
| Distribution.ProbabilitiesSumToOne | LanguageModel.java:78-90 | the probabilities of a finalised non-empty list add up to exactly 1 |
| Distribution.SumPIsCdf | LanguageModel.java:84-90 | along any list whose cp is the running sum of p, cp of entry i is the sum of p over entries 0..i |
| Distribution.GetRandomChar | LanguageModel.java:94-105 | returns the character of the first entry whose cp exceeds the draw, and a space when no entry's cp does |
| Distribution.SelectionIsInterval | LanguageModel.java:97-103 | over a non-decreasing cp, a draw below the last cp selects a character exactly when it falls in that character's half-open interval [previous cp, cp) |
| Distribution.SampleIsInverseCdf | LanguageModel.java:94-105 | on a finalised list, a draw in [0, 1) selects a character exactly when the draw lies in its cp interval, so each entry is chosen with probability p |
| Distribution.SampleNeverFallsBack | LanguageModel.java:96-104 | on a finalised non-empty list, a draw in [0, 1) never yields the space fallback; it yields a character counted in the list |
| Distribution.SingleEntryAlwaysSampled | LanguageModel.java:94-105 | a finalised list with one entry of positive count returns that entry's character for every draw in [0, 1) |
| Training.FirstWindow | LanguageModel.java:40-45 | the first loop reads min(windowLength, corpus length) characters, and the window is exactly that prefix of the corpus |
| Training.BuildStep | LanguageModel.java:50-61 | recording the character at position i under the window before it turns the table of the positions before i into the table including i |
| Training.SlideWindow | LanguageModel.java:63-65 | appending the next character and dropping the first turns the window at one position into the window at the next |
| Training.CountCorpus | LanguageModel.java:36-66 | the two loops of training (filling the first window, then counting each further character under the window before it) compute the reference table `Build` over the whole corpus |
| Training.Finalize | LanguageModel.java:68-71 | keeps every window of the table and replaces each list by its finalised distribution |
| Training.Train | LanguageModel.java:35-72 | the trained model is the counted table with every list finalised; every key has exactly windowLength characters; a corpus no longer than the window gives an empty map |
| Training.BuildWellFormed | LanguageModel.java:47-66 | every list training creates is non-empty, has one entry per character and has only positive counts |
| Training.BuildKeys | LanguageModel.java:41-66 | a window is a key of the table exactly when it occurs in the corpus followed by at least one character |
| Training.RecordKeys | LanguageModel.java:51-61 | one training step adds its window to the keys of the table and no other key |
| Training.RecordCount | LanguageModel.java:51-61 | one training step counts one more occurrence of its character under its window and changes no other count |
| Training.FollowedBeforeStep | LanguageModel.java:47-65 | allowing one more corpus position adds exactly the window at that position to the windows followed by a character |
| Training.CountsKeyLength | LanguageModel.java:41-65 | every window the counting pass records has exactly windowLength characters |
| Training.BuildCounts | LanguageModel.java:47-66 | the count of a character under a window is the number of corpus positions where that window is followed by that character |
| Training.BuildTotal | LanguageModel.java:47-66 | the counts of all windows add up to the number of characters after the first window |
| Training.TrainedKeys | LanguageModel.java:35-72 | the trained model has a list for a window exactly when the window is followed by some character in the corpus |
| Training.TrainedCounts | LanguageModel.java:35-72 | each trained list is well formed, its counts are the corpus occurrence counts, and a character has an entry exactly when it follows the window |
| Training.CountsTotal | LanguageModel.java:41-66 | all counts together equal the corpus length minus windowLength, or 0 when the corpus is no longer than the window |
| Training.AabExample | LanguageModel.java:47-66 | on corpus "aab" with window length 1, window "a" maps to the list ['b' x1, 'a' x1]: the character seen later is in front |
| Generation.SampledFromExtend | LanguageModel.java:120-128 | appending a character sampled from the trailing window keeps every earlier generated character sampled as before |
| Generation.Generate | LanguageModel.java:114-130 | returns the seed unchanged when it is shorter than the window, when textLength is not positive, or when the seed's trailing window is unknown; otherwise extends the seed by at most textLength characters, each sampled with its draw from the list of the window just before it, and stops early only at an unknown window |
| Generation.SampledCharFollowsCorpus | LanguageModel.java:94-105 | a window that some character follows in the corpus has a list in the trained model, and with a draw in [0, 1) the character sampled from that list follows the window at least once in the corpus |
| Generation.GeneratedCharFollowsCorpus | LanguageModel.java:120-128 | a character generated after a window with a draw in [0, 1) follows that window at least once in the corpus |
| Generation.GeneratedFollowsCorpus | LanguageModel.java:114-130 | with draws in [0, 1), every character generated by a trained model follows, somewhere in the corpus, the window it was generated after |
| Training.FinalizeSingleWindow | LanguageModel.java:68-71 | finalising a table with one window finalises exactly that window's list |
| Training.TrainedSingleWindow | LanguageModel.java:35-72 | when the counting pass sees a single window, the model holds exactly that window with its list finalised, and the list is well formed |
| Distribution.AabDistribution | LanguageModel.java:76-91 | the list ['b' x1, 'a' x1] finalises to p = 1/2 for both, with cp 1/2 and 1 |
| Training.AabModelExample | LanguageModel.java:35-91 | the model trained on "aab" with window length 1 maps "a" to ['b' with p 1/2, cp 1/2; 'a' with p 1/2, cp 1] and nothing else |
| Generation.AabSamplingExample | LanguageModel.java:94-105 | after "a" in that model, a draw below 1/2 picks 'b' and any other draw in [0, 1) picks 'a' |

The `List` and `CharData` classes the source relies on are not part of this model. Their
behaviour is taken from the comment on the `update` call (`LanguageModel.java:58-60`): a
new character is added at the beginning of the list. An implementation that appended new
characters at the end would give each character a different cumulative interval but the same
probability.

## Left out

- Reading the corpus from a file (`In`): the corpus is passed as a string.
- The constructors and `java.util.Random` (seeded or not): each draw of `nextDouble` is an
  explicit parameter, one per generated character. `Generation.Generate` therefore requires
  at least `textLength` draws.
- `toString` and `main`: output formatting and command-line handling only.
- Floating point: probabilities are exact reals. With `double` rounding, the last `cp` can
  fall just below 1, and a draw above it gets the space fallback. Over exact reals the
  fallback is unreachable for draws in [0, 1); `Distribution.SampleNeverFallsBack` proves
  this.
- Java `int` overflow of counts and of `windowTotal` (a corpus of more than 2^31
  characters) is not modelled; counts are unbounded naturals.
- A negative `windowLength` is excluded by typing it `nat`. In the source it would train
  like window length 0 and make `generate` throw on `substring` whenever textLength > 0.
- Characters are modelled as Unicode scalar values (Dafny `char`). The source works on
  UTF-16 code units, so it splits a character outside the Basic Multilingual Plane into two
  surrogate halves, each counted and windowed on its own; that splitting is not modelled.
- Retraining: a second call of `train` on the same object adds to the counts of the first
  (`LanguageModel.java:51-56`, `70-71`). `Training.Train` always starts from an empty map,
  so it models one training pass on a fresh model.
- Distribution.CalculateProbabilities: requires a positive total for a non-empty list. The
  source would compute NaN for a list whose counts are all zero, and training never creates
  one (`Training.BuildWellFormed`).
- Determinism for a fixed seed: the model's operations are pure functions, so equal
  inputs and draws give equal outputs by construction.
- Training.Record, Training.Build, Training.Trained and CharDataList.Total carry no contract
  of their own. They are reference definitions: `Training.CountCorpus` is proved equal to
  `Build` and `Training.Train` to `Trained`, and `Total` is the `windowTotal` sum at
  `LanguageModel.java:78-81`. Their properties are stated by the `Build…`, `Trained…` and
  `Total…` lemmas.
