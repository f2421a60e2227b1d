# Latin text post-processing: abbreviation expansion and normalisation

This project is a Dafny model of the text post-processing core of `src/postprocessing.py`.
That core runs two passes over a corpus of transcribed PAGE-XML pages of medieval Latin.

- **Expansion** (`expand_pagexml`).
  - Every candidate word of a page that holds one of the configured special characters is an abbreviation.
  - The abbreviation is resolved by the domain dictionary, then by the general dictionary, then by the ordered expansion rules.
  - It is substituted into the raw page text wherever one of the listed frame pairs surrounds it: before the word a space, `>` or a cleaned character, after it a space, `<` or a cleaned character.
  - It is recorded in an abbreviation log that is kept across all pages.
- **Normalisation** (`normalize_pagexml`).
  - Every candidate word is looked up, lower-cased, in the lexicon; the first matching row supplies a superlemma (`name@TAG`) and a lemma.
  - Stopword superlemmas are skipped, and so are rows whose name and lemma end differently.
  - Root forms are cut from both, by word class: verbs by `or`/`sco`/one character, adverbs kept whole, pronouns one or two characters, everything else by the suffix list.
  - The roots are capitalised when the word is.
  - The lemma root is replaced by the superlemma root inside the word.
  - For verbs, the verb-ending table is then applied.
  - The result is substituted into the page as in the expansion pass.

The candidate words of a page (`get_unique_words`) are found as follows. Each line's text is cleaned of the configured characters and split on single spaces, keeping empty fragments. The fragments are de-duplicated, and words carrying U+033F are dropped.

The modules follow the program's structure:

- `Wrappers`: the `Option` and `Result` values returned by lookups, tag parsing and the page passes.
- `Text`: Python's `str.replace` (leftmost, non-overlapping; the empty pattern inserts everywhere), `split(" ")`, slicing, `endswith`, and ASCII casing.
- `Config`: the configuration tables, passed as a value.
- `Extraction`: the candidate words of a page.
- `Substitution`: the framed replacement shared by both passes.
- `Expansion`: the expansion pass.
- `Lexicon`: the lexicon rows and their first-match lookup.
- `Normalization`: root derivation, one word, one page, a run.

Most methods with a loop are proved equal to a specification function, and the properties are proved about those functions. Three are not:

- `Extraction.GetUniqueWords` is proved to meet the relation `UniqueWordsOf`, because the order of `list(set(...))` is not fixed.
- `Expansion.ExpandRun` is proved page by page: each output is the one-page expansion over a word list meeting `UniqueWordsOf`. Its log is characterised directly as the abbreviations met on any page, each mapped to its resolution.
- `Normalization.NormalizeRun` is proved page by page: each output is the one-page normalisation over a word list meeting `UniqueWordsOf`. The run stops at the first page whose pass fails and reports that fault.

## Quirks of the code that the model keeps

- **Empty fragments.** `split(" ")` at src/postprocessing.py:41 keeps empty fragments, e.g. from two adjacent spaces, so `""` can be a candidate word.
- **Suffix list.** The suffix loop at src/postprocessing.py:181-184 has no `break`. Every ending in the list is tried in turn against the already shortened superlemma, so `deus` becomes `d` (`Normalization.DeusRoot`).
- **Pronouns.** The `er` test at src/postprocessing.py:170 looks at the tagged superlemma. For `name@PRO` with a single `@` that string ends in `RO`, so exactly one character goes (`Normalization.PronounRoots`). Two characters go only when a second `@` is followed by a tail ending in `er` (`Normalization.PronounRootsTailEr`).
- **Verbs ending in `or`.** The cut at src/postprocessing.py:158-165 takes two characters after `or`, so `amor@V` gives `am` (`Normalization.VerbRoots`, `Normalization.AmorRoot`).
- **Verb-ending table.** The loop at src/postprocessing.py:200-201 applies `replace` to the whole normalised word, so an ending pattern is rewritten wherever it occurs, not only at the end (`Normalization.VerbEndingsWholeWord`).
- **Framing.** A word is replaced only where one of the seven frame pairs at src/postprocessing.py:84-92 surrounds it. The start and end of the page text are not frames, and neither is `>word<`.

## Model

| member | source | states |
|---|---|---|
| Text.Replace | src/postprocessing.py:39 | `str.replace`: scanning left to right, each occurrence of a non-empty pattern is replaced and scanning resumes after it, so occurrences never overlap; the empty pattern inserts the replacement before every character and at the end |
| Text.ReplaceEach | src/postprocessing.py:80-81 | the replacements of an ordered table, each applied to the result of the one before |
| Text.ReplaceUnchangedIff | src/postprocessing.py:195 | for a non-empty pattern, `replace` leaves a string unchanged exactly when the pattern equals its replacement or does not occur |
| Text.ReplaceSame | src/postprocessing.py:195 | replacing any pattern, even the empty one, by itself is the identity |
| Text.ReplaceAbsent | src/postprocessing.py:81 | a non-empty pattern that does not occur changes nothing |
| Text.ReplaceKeepsCount | src/postprocessing.py:85-92 | a character that pattern and replacement hold equally often keeps its count in the result |
| Text.ReplaceLength | src/postprocessing.py:195 | a replacement at least as long as the (non-empty) pattern never shortens the text, and one no longer than it never lengthens the text |
| Text.ReplaceChanges | src/postprocessing.py:195 | a non-empty pattern that occurs, replaced by a different string, changes the input |
| Text.ReplaceInOrder | src/postprocessing.py:80-81 | the loop over an ordered (pattern, replacement) table applies each entry to the result of the previous one |
| Text.ReplaceEachConcat | src/postprocessing.py:84-92 | applying a concatenated table is applying the first part and then the second |
| Text.ReplaceEachAbsent | src/postprocessing.py:77-81 | a word in which no rule pattern occurs comes out of the rule loop unchanged |
| Text.ReplaceEachSame | src/postprocessing.py:84-92 | a table whose entries replace patterns by themselves is the identity |
| Text.ReplaceEachKeepsCount | src/postprocessing.py:200-201 | a character held equally often by every pattern and its replacement keeps its count through the table |
| Text.Split | src/postprocessing.py:41 | `split(" ")`: the fragments between single spaces, in order, with an empty fragment for each pair of adjacent spaces and for a space at either end; there is always at least one fragment |
| Text.JoinSplit | src/postprocessing.py:41 | joining the fragments of `split(" ")` with single spaces gives back the line: splitting loses nothing |
| Text.SplitFragments | src/postprocessing.py:41 | no fragment contains a space, and every fragment character comes from the line |
| Text.SplitNoSpace | src/postprocessing.py:40-46 | a line without a space splits into itself alone, so the `else` branch agrees with `split` |
| Text.SplitJoin | src/postprocessing.py:41 | splitting space-free fragments joined by single spaces gives the fragments back, empty ones included |
| Text.Strip | src/postprocessing.py:38-39 | the line with every occurrence of every cleaned character removed |
| Text.StripMembers | src/postprocessing.py:38-39 | a character survives cleaning exactly when it was in the line and is not a cleaned character |
| Text.StripMore | src/postprocessing.py:38-39 | removing one more character after cleaning is cleaning with that character added to the list |
| Text.ReplaceCharIsStrip | src/postprocessing.py:39 | replacing a single character by the empty string removes exactly that character |
| Text.EndsWith | src/postprocessing.py:158-182 | `str.endswith`: the suffix is no longer than the string and equals its last characters, as in the tests at :158, :160, :170 and :182 |
| Text.Last | src/postprocessing.py:145 | `s[-1:]`: the last character as a one-character string, and the empty string for an empty input |
| Text.DropLast | src/postprocessing.py:164-165 | `s[:-n]` is a prefix of `s`, of length `|s| - n`, and empty when `|s| <= n` or when `n = 0` |
| Text.IsUpper | src/postprocessing.py:190 | `isupper()` on one character, restricted to ASCII: the letters `A` to `Z` |
| Text.ToLower | src/postprocessing.py:136 | lower-casing turns each upper-case letter into the lower-case letter at the same place in the alphabet and leaves every other character as it is |
| Text.ToUpper | src/postprocessing.py:191-192 | upper-casing turns each lower-case letter into the upper-case letter at the same place in the alphabet and leaves every other character as it is |
| Text.Lower | src/postprocessing.py:136 | `s.lower()` on ASCII letters: each character lower-cased in place, every other character unchanged, the length kept; it is the lexicon key |
| Text.CaseRoundTrip | src/postprocessing.py:136 | lower-casing an upper-case letter and upper-casing it again gives it back, and conversely |
| Text.Capitalize | src/postprocessing.py:191-192 | `capitalize()`: the first character upper-cased and every other one lower-cased |
| Text.CapitalizeKeeps | src/postprocessing.py:191-192 | capitalising keeps every non-letter character: it occurs in the result exactly when it occurred before |
| Extraction.Fragments | src/postprocessing.py:32-46 | the fragments of every cleaned line, line by line and in order, before de-duplication; a line without a space is its own single fragment |
| Extraction.UniqueWordsOf | src/postprocessing.py:47-50 | the relation `list(set(...))` and the U+033F filter meet: the list has no repetition and holds exactly the fragments of the lines that lack U+033F, in no fixed order |
| Extraction.CleanLine | src/postprocessing.py:38-39 | the cleaning loop removes every occurrence of every cleaned character and nothing else |
| Extraction.FragmentsAreClean | src/postprocessing.py:37-46 | no collected fragment holds a space or a cleaned character |
| Extraction.FragmentsCount | src/postprocessing.py:40-46 | every line contributes at least one fragment, even a line that is empty after cleaning |
| Extraction.CollectFragments | src/postprocessing.py:32-46 | the collecting loop gathers, line by line and in order, every fragment of every cleaned line, repetitions and empty fragments kept |
| Extraction.GetUniqueWords | src/postprocessing.py:22-52 | the result lists each fragment of the page's lines that lacks U+033F exactly once, and no other word; no word holds a space, a cleaned character or U+033F |
| Substitution.Frames | src/postprocessing.py:84-92 | the frames in the order they are tried: for each cleaned character, space before and character after, `>` before and character after, character before and space after, character before and `<` after; then space on both sides, space before and `<` after, `>` before and space after |
| Substitution.Substituted | src/postprocessing.py:84-92 | the page text after the word, surrounded by each frame in turn, has been replaced by the replacement in the same frame |
| Substitution.Substitute | src/postprocessing.py:84-92 | the four replaces per cleaned character and the three space frames are the ordered table of framed patterns, each replaced by the same frame around the replacement |
| Substitution.CleanFramesDelimiters | src/postprocessing.py:84-88 | every frame built from a cleaned character has a one-character delimiter on each side |
| Substitution.SubstituteSameWord | src/postprocessing.py:84-92 | substituting a word by itself leaves the page unchanged |
| Substitution.SubstituteUnframed | src/postprocessing.py:84-92 | a word that occurs in none of the frames leaves the page unchanged, whatever its replacement |
| Substitution.SubstituteKeepsCount | src/postprocessing.py:208-216 | a character held equally often by word and replacement keeps its count in the page |
| Substitution.ReplaceMarkupFree | src/postprocessing.py:85-92 | a replace whose text, pattern and replacement hold no `<` or `>` gives a text without them |
| Substitution.ReplaceEachMarkupFree | src/postprocessing.py:200-201 | a table of markup-free entries applied to markup-free text gives markup-free text |
| Substitution.SubstituteKeepsMarkup | src/postprocessing.py:84-92 | when neither the word nor its replacement holds `<` or `>`, the page keeps its number of `<` and `>` |
| Expansion.IsAbbreviation | src/postprocessing.py:67 | a word is an abbreviation when one of its characters is a configured special character |
| Expansion.Resolve | src/postprocessing.py:69-81 | the expansion of an abbreviation: its domain dictionary entry, else its general dictionary entry, else the word with the expansion rules applied in order |
| Expansion.ExpandedText | src/postprocessing.py:65-92 | the page text after each abbreviation among the words, in order, has been substituted by its resolution; other words leave it alone |
| Expansion.ResolutionOrder | src/postprocessing.py:69-81 | the domain dictionary wins, then the general dictionary, then the rules; a word with no rule pattern in it resolves to itself |
| Expansion.ResolveAbbreviation | src/postprocessing.py:69-81 | the method's resolution is the three-tier resolution |
| Expansion.Resolutions | src/postprocessing.py:94-96 | the entries `abbreviation_dict.update` adds for a page: every abbreviation among the words, mapped to its resolution |
| Expansion.LogStep | src/postprocessing.py:95-96 | handling one abbreviation updates the log with that word's resolution; a plain word leaves the log alone |
| Expansion.ExpandPage | src/postprocessing.py:65-96 | the per-word loop yields the page after each abbreviation in turn is substituted by its resolution, and the log extended by exactly those resolutions |
| Expansion.PlainWordIgnored | src/postprocessing.py:67 | a word without a special character changes neither the page nor the log |
| Expansion.ExpansionKeepsMarkup | src/postprocessing.py:84-92 | with markup-free abbreviations and expansions, the expansion pass keeps the page's counts of `<` and `>` |
| Expansion.ExpandRun | src/postprocessing.py:54-105 | one output per page, each the expansion of that page over its unique words; the log holds exactly the abbreviations, without U+033F, met on any page, each mapped to its resolution |
| Lexicon.FirstMatch | src/postprocessing.py:136-140 | no index exactly when no row has the key as word form; otherwise the index of a matching row before which no row matches |
| Lexicon.Lookup | src/postprocessing.py:136-140 | no row exactly when no row has the key as word form; otherwise a row of the lexicon with that word form |
| Lexicon.LookupIgnoresLaterRows | src/postprocessing.py:138-140 | once a key is found, appending rows never changes which row superlemma and lemma are read from |
| Normalization.Stopwords | src/postprocessing.py:143 | the three superlemmas skipped as stopwords: `alea@NN`, `a@AP`, `hilla@NN` |
| Normalization.Endings | src/postprocessing.py:180 | the suffix list in source order, `us` listed twice: `um`, `us`, `u`, `e`, `os`, `a`, `us`, `is`, `es`, `as` |
| Normalization.Untagged | src/postprocessing.py:145 | `split("@")[0]` is a prefix without `@`, strictly shorter exactly when the superlemma holds an `@` |
| Normalization.Tag | src/postprocessing.py:153 | `split("@")[1]` exists exactly when the superlemma holds an `@`; otherwise the source raises |
| Normalization.SplitTagged | src/postprocessing.py:145-157 | a superlemma `name@tag` with a single `@` splits back into `name` and `tag` |
| Normalization.TaggedPrefix | src/postprocessing.py:145-157 | whatever follows the first `@`, `split(\"@\")[0]` is the part before it and `split(\"@\")[1]` runs up to the next `@` |
| Normalization.ClassOf | src/postprocessing.py:156-178 | the word class the tag selects: `V` verb, `ADV` adverb, `PRO` pronoun, any other tag the suffix-list branch |
| Normalization.VerbCut | src/postprocessing.py:158-163 | the number of characters a verb loses: 2 after `or`, else 3 after `sco`, else 1 |
| Normalization.Stripped | src/postprocessing.py:181-184 | the suffix loop without `break`: each listed ending in turn, when it ends the already shortened superlemma, is cut from superlemma and lemma alike |
| Normalization.Roots | src/postprocessing.py:156-184 | the class-dispatched cut of superlemma and lemma: verbs by `VerbCut` of the name, adverbs not at all, pronouns by 2 when the whole tagged superlemma ends in `er` and by 1 otherwise, other classes by the suffix loop |
| Normalization.StripEndings | src/postprocessing.py:178-184 | the suffix loop cuts each listed ending in turn that ends the already shortened superlemma, and cuts the lemma by as many characters |
| Normalization.StrippedShape | src/postprocessing.py:181-184 | both roots are prefixes; the lemma loses as many characters as the superlemma, or all it has |
| Normalization.DeriveRoots | src/postprocessing.py:153-184 | the roots are the ones the word class chooses |
| Normalization.RootsArePrefixes | src/postprocessing.py:156-184 | for every class, the superlemma root is a prefix of the untagged superlemma and the lemma root a prefix of the lemma |
| Normalization.VerbRoots | src/postprocessing.py:156-165 | for every verb `name@V`, name and lemma lose 2 characters after `or`, 3 after `sco` and 1 otherwise, the count chosen on the name alone |
| Normalization.AmorRoot | src/postprocessing.py:158-165 | `amor@V` gives the root `am`, and any lemma loses two characters |
| Normalization.CrescoRoot | src/postprocessing.py:160-165 | `cresco@V` gives the root `cre`, and any lemma loses three characters |
| Normalization.LaudoRoot | src/postprocessing.py:162-165 | `laudo@V` gives the root `laud`, and any lemma loses one character |
| Normalization.AdverbRoots | src/postprocessing.py:166-168 | an adverb keeps its untagged name and its lemma whole |
| Normalization.PronounRoots | src/postprocessing.py:169-176 | a pronoun `name@PRO` loses exactly one character from name and lemma, because the `er` test sees the tag |
| Normalization.PronounRootsTailEr | src/postprocessing.py:169-176 | a superlemma `name@PRO@tail` with `tail` ending in `er` has the tag `PRO` and loses two characters from name and lemma |
| Normalization.FinalARoot | src/postprocessing.py:178-184 | a word `stem + "a"` whose stem ends in none of the endings listed after `a` (`us`, `is`, `es`, `as`) loses its `a` and nothing more, and any lemma loses one character |
| Normalization.RosaRoot | src/postprocessing.py:178-184 | `rosa` loses its final `a` and nothing more, and any lemma loses one character |
| Normalization.DeusRoot | src/postprocessing.py:178-184 | `deus` loses `us` and then `e`, and any lemma is cut by two and then one: every ending is tried, not only the first match |
| Normalization.Recased | src/postprocessing.py:189-192 | when the word starts with an upper-case letter, both roots capitalised; otherwise the roots unchanged |
| Normalization.Normalize | src/postprocessing.py:134-201 | one word: skipped when the lower-cased word has no row, the superlemma is a stopword or name and lemma end differently; a fault when the superlemma has no `@` or the word is empty; otherwise the word with its recased lemma root replaced by its recased superlemma root, and for verbs the verb-ending table applied |
| Normalization.NormalizeWord | src/postprocessing.py:134-201 | one word is skipped (no row, stopword, inconsistent row), normalised by the lemma-root replacement and, for verbs, the verb endings, or raises (no `@`, empty word) |
| Normalization.NoSubstitutionCases | src/postprocessing.py:136-147 | a word is skipped exactly when it has no row, its superlemma is a stopword, or the untagged superlemma and the lemma end differently |
| Normalization.CapitalisedWord | src/postprocessing.py:189-195 | a capitalised word that starts with its capitalised lemma root comes out capitalised |
| Normalization.CapitalisedExample | src/postprocessing.py:189-195 | `Rosa` with roots `flor`/`ros` becomes `Flora` |
| Normalization.FloraRoots | src/postprocessing.py:178-184 | under the superlemma `flora@NN` the suffix-list branch cuts the name to `flor` and any lemma by one character |
| Normalization.NormalizeOther | src/postprocessing.py:134-195 | a word whose row passes every check and whose tag is of the default class becomes the word with its recased lemma root replaced by its recased superlemma root |
| Normalization.RosaRecased | src/postprocessing.py:178-195 | for the row (`rosa`, `flora@NN`, `rosa`) the roots `flor`/`ros`, capitalised for `Rosa`, turn `Rosa` into `Flora` |
| Normalization.NormalizeRosa | src/postprocessing.py:134-201 | end to end, with the single lexicon row (`rosa`, `flora@NN`, `rosa`) and no verb endings, the word `Rosa` is normalised to `Flora` |
| Normalization.VerbEndingsWholeWord | src/postprocessing.py:198-201 | the verb-ending table rewrites every occurrence in the word: the entry (`nt`, `unt`) turns `intrant` into `iuntraunt` |
| Normalization.NormalizedText | src/postprocessing.py:133-216 | the page text after each normalised word, in order, has been substituted; skipped words leave it alone, and the first word that raises makes the page fail with that fault |
| Normalization.NormalizePage | src/postprocessing.py:133-216 | the per-word loop yields the page after each normalised word is substituted in turn, or the fault of the first word that raises |
| Normalization.SkippedWordsKeepPage | src/postprocessing.py:142-147 | a page all of whose words are skipped comes out unchanged |
| Normalization.NormalisedMarkupFree | src/postprocessing.py:152-201 | from markup-free words, lexicon rows and verb endings only markup-free normalised words come out |
| Normalization.NormalizationKeepsMarkup | src/postprocessing.py:207-216 | under the same conditions, a pass that completes keeps the page's counts of `<` and `>` |
| Normalization.NormalizeRun | src/postprocessing.py:122-220 | pages are normalised in order over their unique words; the run either covers every page or stops at the first page whose pass raises, reporting that fault |

## Left out

- File handling is not modelled. That covers `load_pagexml`, reading and writing page files, the output paths and the JSON dump of the abbreviation log. They are I/O; a run takes the pages' texts and line texts as values and returns the new texts and the log.
- PAGE-XML parsing (`lxml`, the `TextRegion`/`TextLine`/`Unicode` XPath queries) is not modelled; a page is given as its raw text and the texts of its lines, in document order.
- `load_data` and pandas are not modelled; the lexicon is a sequence of rows of strings. Missing (NaN) cells, which would make the source raise or misbehave, are not represented.
- `print` calls are left out: they are output only. So is `dict_normalization`, which is built but never used.
- `main`, `src/collation.py` and the `config` module's concrete tables are not part of this model. The tables are a parameter (`Config.Tables`).
- Casing is ASCII only. Python's Unicode `lower`, `isupper` and `capitalize` (for example on `Æ` or titlecase letters) are not modelled.
- Cleaned and special characters are single characters. Multi-character entries in those configuration lists are not modelled.
- The order of `list(set(...))` depends on string hashing, which the source does not fix. `Extraction.GetUniqueWords` keeps the first occurrences in order. Its contract, and the runs built on it, promise only that the list holds each candidate word exactly once. The page passes are stated for whatever listing is used.
- An empty `<Unicode/>` element has no text (`None`), so the cleaning loop at src/postprocessing.py:39 (or the test at :40 when nothing is cleaned) raises and the run stops. A line here is always a string, so the model cannot represent that crash; an empty line contributes `""` instead.
- Exceptions are modelled as values. In the source, an exception aborts the whole program; the model reports the fault and stops at that page. Exceptions outside the modelled ones (I/O, a NaN lemma) are not represented.
- Normalization.NormalizeWord: the local `ending` computed before the verb-ending loop is never used by the source, so it is not modelled.
