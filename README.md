# Word generator: a Dafny model of its decision logic

The word generator (`app.py`) is a small Streamlit page. It loads a table of German
words and keeps the lemmas tagged as nouns (`Substantiv`). It draws the requested
number of them without replacement. For each one it asks the `duden` dictionary for
a definition, which it shows as hover text. This project models the program's own
decisions as pure Dafny functions, in module `WordGenerator` (`app.dfy`). The
dictionary's answers and the random generator's output become parameters:

- **Noun filter** (`load_data`): `Substantives` keeps the `lemma` of every row whose
  `pos` is exactly `"Substantiv"`, in row order.
- **Sampling** (`get_random_words`): the random generator's output is a sequence
  `draws` with one value per candidate position. `Draw` takes each value modulo the
  number of positions that remain, picks that position and removes it from the pool.
  The contract is relational. Every result has exactly `n` words and is a
  sub-multiset of the candidates. Every such sub-multiset, in every order, is the
  result of some draws (`GetRandomWordsReaches`). Nothing is said about probabilities.
  The two errors pandas raises are modelled: negative `n`, and `n` larger than the
  population.
- **Definition resolution** (`get_word_definition`): `Resolve` takes the exact
  lookup's answer (`Option<Entry>`) and the search results (`seq<Entry>`). An
  `Entry` has a meaning summary and an integer frequency. The model allows two
  shapes of summary: one text (`Text`) or one text per sense (`Senses`).
- **Display** (line 86): `ReplaceNewlines` turns every `'\n'` into one space.
  `Display` applies it to a textual meaning. `Definition` is resolution followed by
  display.

`wrappers.dfy` holds the `Option` and `Result` types. Python exceptions that the
modelled code raises itself become `Failure` values:

- `NoFirstItem`: `list(...)[0]` of an empty list of senses.
- `NotText`: `.replace` on a summary that is a list of senses, not a text.
- `NegativeSize` and `InsufficientCandidates`: the two sampling errors.

Points where the code's behaviour needs care:

- `words.sample(n)` draws rows of a pandas Series. A lemma that occurs in several
  rows can be drawn more than once, so the model states sub-multiset inclusion, not
  distinctness.
- `sort_values` defaults to quicksort, which is not stable, so the code fixes no
  order among equal frequencies. `Resolve` promises only "some entry of maximal
  frequency". `MostFrequentIndex` picks the first such entry, and that is a
  refinement, not a promise. `MostFrequentHasMaxFrequency` shows that every
  tie-break gives an entry with the same, maximal frequency.
- Only the caller (line 86) normalises, so `Resolve` returns the summary unchanged
  and `Definition` normalises it.
- With several search results, line 49 takes `list(summary)[0]`. For a text summary
  that is its first character (see "## Findings"). `Resolve` takes the intended
  reading there: the whole text, or the first sense of a list. `Items` models
  Python's `list(...)` of a summary. `FirstItemAsWritten` keeps the code as written
  beside the corrected `FirstMeaning`. On an empty text the code raises
  `IndexError`, whereas the intended reading gives the empty text.

## Model

| member | source | states |
|---|---|---|
| `WordGenerator.Substantives` | app.py:12 | the filter keeps no more lemmas than there are rows |
| `WordGenerator.SubstantivesAppend` | app.py:12 | filtering is row by row: the filter of a concatenation is the concatenation of the filters, so row order is kept |
| `WordGenerator.SubstantivesMembership` | app.py:12 | a word is kept if and only if some row tagged exactly `Substantiv` has it as its lemma |
| `WordGenerator.SubstantivesLength` | app.py:12 | exactly one lemma is kept per noun row |
| `WordGenerator.RemoveAt` | app.py:20 | removing the drawn position shortens the pool by one and removes exactly that one occurrence |
| `WordGenerator.Draw` | app.py:20 | drawing without replacement gives one word per draw, and the words drawn form a sub-multiset of the pool |
| `WordGenerator.GetRandomWords` | app.py:16-20 | fails exactly when `n < 0` (`NegativeSize`) or `n` exceeds the population (`InsufficientCandidates`); otherwise returns exactly `n` words forming a sub-multiset of the candidates |
| `WordGenerator.DrawReaches` | app.py:20 | every choice of distinct positions, in any order, is produced by some draws |
| `WordGenerator.GetRandomWordsReaches` | app.py:16-20 | every sequence that is a sub-multiset of the candidates is a possible sample of its size |
| `WordGenerator.RemainingSubMultiset` | app.py:20 | after one pick, the remaining picks are still available in the remaining pool |
| `WordGenerator.MostFrequentIndex` | app.py:41-48 | the chosen id is within bounds and its frequency is at least that of every result |
| `WordGenerator.MaxFrequencyIsMaximum` | app.py:44-47 | the reference maximum of the frequency column is attained and bounds every frequency |
| `WordGenerator.MostFrequentHasMaxFrequency` | app.py:47-48 | however ties are ordered, the head of the descending sort has the maximal frequency |
| `WordGenerator.Characters` | app.py:49 | `list(s)` of a text has one item per character, each the one-character string of that character |
| `WordGenerator.ConcatCharacters` | app.py:49 | joining the items of `list(s)` gives `s` back |
| `WordGenerator.Items` | app.py:49 | `list(summary)`: for a text, one one-character item per character, joining back to the text; for a list of senses, the senses themselves |
| `WordGenerator.FirstItemAsWritten` | app.py:49 | `list(summary)[0]` as written: for a text, its one-character prefix, and `IndexError` for an empty text; for a list of senses, the first sense, and `IndexError` for an empty list |
| `WordGenerator.FirstMeaning` | app.py:49 | the intended first meaning: on a list of senses it agrees with `list(...)[0]`; on a text it is the whole text that the items of `list(...)` join back to |
| `WordGenerator.FirstItemAsWrittenCutsText` | app.py:49 | the code as written and the first meaning agree if and only if the summary is a list of senses or a one-character text |
| `WordGenerator.HausIsCutToH` | app.py:41-49 | no exact hit, results with frequencies 1 and 2 and texts "a" and "Haus": the model resolves to "Haus", while line 49 as written gives "H" |
| `WordGenerator.Resolve` | app.py:23-49 | an exact hit's summary is returned unchanged whatever the search found; no hit and no results give `"Keine Definition gefunden."`; one result gives its summary unchanged; several give the intended first meaning (the corrected reading of line 49, see "## Findings") of some most frequent result, or `NoFirstItem` when that result's summary is an empty list of senses |
| `WordGenerator.ReplaceNewlines` | app.py:86 | the length is unchanged, every newline becomes a space and every other character stays at its position |
| `WordGenerator.ReplaceNewlinesRemovesAll` | app.py:86 | no newline is left after the replacement |
| `WordGenerator.ReplaceNewlinesIdempotent` | app.py:86 | replacing twice is the same as replacing once |
| `WordGenerator.ReplaceNewlinesKeepsPlainText` | app.py:86 | a text without newlines is unchanged |
| `WordGenerator.NotFoundIsPlain` | app.py:35 | the sentinel is displayed exactly as returned |
| `WordGenerator.Display` | app.py:86 | a textual meaning is shown normalised; a list of senses raises `NotText` |
| `WordGenerator.Definition` | app.py:86 | a displayed definition never contains a newline; an exact textual hit is shown normalised, and an exact hit with a list of senses raises `NotText`; no hit and no results show the sentinel; one result is displayed as its summary; several show the normalised first meaning of some most frequent result, or raise `NoFirstItem` when it is an empty list of senses |
| `WordGenerator.DefinitionPicksMoreFrequent` | app.py:41-49 | two search results with frequencies 3 and 7 and summaries "A" and "B" give "B" |

## Findings

| source | as written | input that shows it | evidently intended | confidence | as-written member | corrected member |
|---|---|---|---|---|---|---|
| app.py:49 | `list(word_obj[i].meaning_overview)[0]` takes the first item of the summary; when the summary is one text, that item is its first character | no exact hit, two search results, the more frequent one with summary `Text("Haus")`: the result is `"H"` | the first meaning: the whole text, or the first sense of a list | medium: depends on which summaries the dictionary returns for search hits; not executed | `WordGenerator.FirstItemAsWritten`, `WordGenerator.HausIsCutToH` | `WordGenerator.FirstMeaning`, used by `WordGenerator.Resolve` |

## Left out

- `duden.get` and `duden.search` (app.py:28, 33) are network calls into a foreign library. Their answers are the parameters `exact` and `results`. Their own errors, retries and exceptions are not modelled.
- `duden.get` and `duden.search`: which summary shape the dictionary returns in which case is not modelled. Both shapes are allowed everywhere.
- Reading `nouns.csv` (app.py:11) is I/O. The table is the parameter `rows`.
- Missing cells: pandas reads them as `NaN`. Tags and lemmas are plain strings, so a row with a missing tag, or a missing lemma that is kept as `NaN`, is not modelled.
- Missing (`None`/`NaN`) frequencies, which the sort places last, are not modelled. Frequencies are plain integers.
- `GetRandomWords`: the uniform distribution of `words.sample` is not stated. The contract is relational, and the generator's output is the parameter `draws`.
- `Resolve`: does not promise which of several equally frequent entries is chosen, because the quicksort used by `sort_values` is not stable. `MostFrequentIndex` picks the first as a refinement.
- `main` (app.py:52-92) is Streamlit UI: page setup, the number form with its bounds 1 to 25, `st.stop`, session-state and resource caching, the loop over the sampled words, and the unescaped HTML `<span title=...>` rendering.
- `Resolve`: with several results, whose most frequent one has an empty text, it returns that empty text under the corrected reading of line 49. The code as written raises `IndexError` there, and `FirstItemAsWritten` models that.
- `Overview`: any other value of `meaning_overview` is not modelled, for instance `None`, or senses that are themselves lists. On those the code raises at line 49 (`list(None)`) or line 86 (`.replace` on a list or on `None`).
