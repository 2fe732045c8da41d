# Inverted index for Wikipedia articles, modelled in Dafny

`inverted_index.py` has three parts:
- `load_document` reads a dataset of articles. Each line is an integer id, whitespace, and the article text.
- `build_inverted_index` turns the articles into a mapping from every whitespace-separated word to the set of ids of the articles containing it.
- `InvertedIndex.query` intersects those sets for a list of words.

This project models the pure part of each:

- `Text` (`text.dfy`) covers the Python string operations the program relies on:
  - `str.split()` with no separator, over Python's full whitespace table (`Split`);
  - `str.strip()` (`Strip`);
  - `str.split(maxsplit=1)` (`SplitOnce`);
  - `str.split("\n")` (`SplitOn`), with its inverse `str.join` (`JoinWith`);
  - the newline translation of `read()` on a file opened in text mode (`TranslateNewlines`).
- `Decimal` (`decimal.dfy`) covers the part of `int(str)` that an id field uses: an optional sign and ASCII digits.
- `Dataset` (`dataset.dfy`) is the line loop of `load_document`. It goes from file contents to a map from id to text, or to the first line that raises.
- `Index` (`index.dfy`) holds:
  - the `InvertedIndex` value and `query` exactly as written;
  - `sorted` on a set of ids;
  - `QueryCommon`, the query the doc-comment describes: "common articles for all words".
- `Builder` (`builder.dfy`) is `build_inverted_index`: a fold over the articles and over each article's tokens.
- `Scenarios` (`scenarios.dfy`) holds worked examples built from generic words.

The dict of articles is passed to `build_inverted_index` as the sequence of its items in iteration order. `BuildIsOrderIndependent` shows that the order does not matter.

`int()` accepts a sign, so ids may be negative.

## Model

| member | source | states |
|---|---|---|
| `Text.Split` | inverted_index.py:86 | every token of `article.split()` is non-empty and free of whitespace |
| `Text.SplitFindsExactlyTheTokens` | inverted_index.py:86 | a string is among the tokens exactly when it is a maximal run of non-whitespace characters of the text |
| `Text.SplitAllWhitespace` | inverted_index.py:86 | a text has no tokens exactly when it is empty or all whitespace |
| `Text.SplitJoin` | inverted_index.py:86 | words without whitespace, joined by any non-empty whitespace separator, split back into the same words |
| `Text.Strip` | inverted_index.py:70 | the stripped text is no longer than the original and neither starts nor ends with whitespace |
| `Text.StripIsSlice` | inverted_index.py:70 | the stripped text is the slice of the original between a leading and a trailing run of whitespace, the leading run being maximal |
| `Text.StripKeepsTokens` | inverted_index.py:70 | stripping removes no token: the stripped text splits into the same tokens |
| `Text.StripIsIdempotent` | inverted_index.py:70 | stripping twice is stripping once |
| `Text.SplitOnce` | inverted_index.py:69 | `split(maxsplit=1)` gives at most two fields, none empty; the first has no whitespace and the second starts with a non-whitespace character (the fields themselves are pinned down by the two lemmas below) |
| `Text.SplitOnceAgreesWithSplit` | inverted_index.py:69 | `split(maxsplit=1)` gives min(2, number of tokens) fields; the first is the first token; the tokens of the second field are the remaining tokens, and the second field starts with a non-whitespace character |
| `Text.SplitOnceRemainderIsSuffix` | inverted_index.py:69 | the second field is a suffix of the line whose prefix holds exactly the first token |
| `Text.SplitOnceWordSpace` | inverted_index.py:69 | a word, one space and a text starting with non-whitespace split once into exactly that word and that text |
| `Text.SplitOn` | inverted_index.py:66 | `split("\n")` gives at least one piece and no piece contains a newline |
| `Text.JoinWith` | inverted_index.py:66 | `"\n".join`, the inverse of `split("\n")`; what it states is carried by `Text.JoinSplitOn` and `Text.SplitOnJoin` |
| `Text.JoinSplitOn` | inverted_index.py:66 | joining the pieces of `split("\n")` with newlines gives back the contents |
| `Text.SplitOnJoin` | inverted_index.py:66 | lines without newlines, joined with newlines, split back into the same lines, empty lines included |
| `Text.TranslateNewlines` | inverted_index.py:65-66 | the text `read()` returns in text mode holds no `"\r"` and is no longer than the file's text; that each line break has become `"\n"` is `Text.ReadLines` |
| `Text.TranslateJoin` | inverted_index.py:65-66 | lines with no line-break character, each break independently `"\n"`, `"\r\n"` or a lone `"\r"` (never a lone `"\r"` before an empty line ending in `"\n"`, which is one `"\r\n"`), read back as the same lines joined by `"\n"` |
| `Text.CutLines` | inverted_index.py:65-66 | every text is such a file: it cuts into lines and breaks that describe it in that way |
| `Text.ReadLines` | inverted_index.py:65-66 | for every text, `read()` in text mode gives the file's lines joined by `"\n"`: each `"\r\n"`, `"\n"` and lone `"\r"` becomes `"\n"` and nothing else changes, whatever mix of breaks the file uses |
| `Decimal.ParseInt` | inverted_index.py:71 | `int(article_id)` succeeds exactly on an optional sign followed by ASCII digits, and the id is negative only after a minus sign |
| `Decimal.FormatInt` | inverted_index.py:71 | `str(i)`, the partner of `int` in `Decimal.ParseFormat`: non-empty, with a leading minus sign exactly for negative numbers |
| `Decimal.ParseFormat` | inverted_index.py:71 | `int(str(i)) == i`, negative ids included; the model states it for every integer, Python for those within its default limit of 4300 digits (see Left out) |
| `Decimal.LeadingZeroIgnored` | inverted_index.py:71 | `int` ignores a leading zero, so `"007"` and `"7"` name the same article |
| `Dataset.ParseLine` | inverted_index.py:67-71 | a line that raises reports its own index among the lines |
| `Dataset.ParseLineMeaning` | inverted_index.py:68-71 | empty lines are skipped; a non-empty line with fewer than two tokens (whitespace-only lines among them) fails to unpack; otherwise the first token must parse as an integer (else it fails), which becomes the id, and the stored text is already stripped and holds exactly the line's other tokens |
| `Dataset.ParseLineText` | inverted_index.py:69-70 | the stored text is the line from the start of its second token to the end, stripped |
| `Dataset.Collect` | inverted_index.py:67-71 | the loop's accumulation: a failure it returns is the failure of one of the lines (the first, by `Dataset.CollectFailsAtFirst`) |
| `Dataset.LoadLines` | inverted_index.py:67-73 | the loop over the lines: a failure names a line index within the file and is that line's own failure |
| `Dataset.LoadDocument` | inverted_index.py:62-73 | `load_document` on the file's decoded characters; it loads a file as its lines (`Dataset.LoadDocumentByLines`), the first failing line aborts (`Dataset.LoadFailsAtFirstBadLine`), the last record for an id wins (`Dataset.LoadKeepsLastRecord`) |
| `Dataset.CollectFailsAtFirst` | inverted_index.py:67-71 | the accumulation fails exactly when some line fails, and reports the first failure |
| `Dataset.CollectKeepsLast` | inverted_index.py:71 | the result holds exactly the ids some line records, each with the text of the last line that records it |
| `Dataset.LoadFailsAtFirstBadLine` | inverted_index.py:66-72 | loading fails exactly when some line raises, and then names the first such line |
| `Dataset.LoadKeepsLastRecord` | inverted_index.py:66-73 | a successful load maps exactly the recorded ids, a later line for the same id overwriting an earlier one |
| `Dataset.EmptyLineSkipped` | inverted_index.py:68 | appending an empty line (a trailing newline in the file) changes nothing |
| `Dataset.LoadDocumentByLines` | inverted_index.py:65-67 | a file whose line breaks are any mix of `"\n"`, `"\r\n"` and `"\r"` loads exactly as its lines, empty lines included |
| `Dataset.ParseFormattedLine` | inverted_index.py:69-71 | a line written as `str(id)`, a space and a non-empty stripped text reads back as exactly that id and text |
| `Builder.AddToken` | inverted_index.py:87-92 | the net effect of one token: the token becomes a key, its postings gain the id (starting from `{id}` on first sight), and every other key keeps its postings |
| `Builder.AddTokens` | inverted_index.py:86-92 | after one article's tokens, the keys are the old keys plus the tokens, and a token's postings gain the article's id exactly when it is among the tokens |
| `Builder.AddArticles` | inverted_index.py:85-92 | a token is a key exactly when it was one or some article has it, and an id is in its postings exactly when it was or some article with that id has the token |
| `Builder.BuildInvertedIndex` | inverted_index.py:82-93 | a token is a key exactly when some article has it among its tokens; its postings are exactly the ids of those articles; no posting set is empty; no articles give an empty mapping |
| `Builder.BuildFromDict` | inverted_index.py:85-92 | for any iteration of a dict of articles, `id` is in `mapping[t]` exactly when the article with key `id` has `t` among its tokens |
| `Builder.BuildIsOrderIndependent` | inverted_index.py:85 | any two iteration orders of the same dict build the same index |
| `Builder.BlankArticleAddsNothing` | inverted_index.py:86 | an article whose text is empty or whitespace adds no key and no id |
| `Index.SortedSeq` | inverted_index.py:41 | `sorted` of a set of ids is strictly ascending and lists exactly the set's elements |
| `Index.SortedIsUnique` | inverted_index.py:41 | two strictly ascending sequences with the same elements are equal, so `sorted` has only one possible answer |
| `Index.Step` | inverted_index.py:35-40 | one loop pass: an absent word gives the empty value; a present word gives a subset of its postings that keeps every id it shares with the running value, its whole postings after an empty running value, and only ids of a non-empty running value otherwise |
| `Index.Running` | inverted_index.py:32-40 | the running value: empty before any word and after an absent last word, otherwise within the last word's postings |
| `Index.Query` | inverted_index.py:31-41 | the answer is strictly ascending; it is empty for no words and when the last word is absent; otherwise it lies within the last word's postings |
| `Index.QueryIsCommonWhenSomeArticleIsCommon` | inverted_index.py:31-41 | when some article contains every word, the answer lists exactly the articles that contain every word, as the doc-comment at line 23 promises |
| `Index.QueryRestartsAfterMiss` | inverted_index.py:34-41 | a word with no postings discards everything before it: the answer equals the answer for the words after it |
| `Index.MissThenHit` | inverted_index.py:35-40 | an absent word followed by a present word answers with that word's postings, sorted |
| `Index.Common` | inverted_index.py:23 | the articles common to all words, kept apart from "no word seen yet" |
| `Index.QueryCommon` | inverted_index.py:23 | the intended answer is strictly ascending and lists exactly the articles whose text contains every word, and nothing for no words |
| `Index.QueryAgreesWhenSomeArticleIsCommon` | inverted_index.py:31-41 | the query as written and the intended one agree whenever some article contains every word |
| `Index.AbsentWordIgnored` | inverted_index.py:31-41 | with only "cat" indexed (in article 1), `query(["fox", "cat"])` is `[1]`, while no article contains both words |
| `Scenarios.BuildTwoArticles` | inverted_index.py:82-93 | articles `{1: a, 2: b}`, for two different words, build `{a: {1}, b: {2}}` |
| `Scenarios.MixedLineEndings` | inverted_index.py:65-67 | a file `x + "\r\n" + y + "\n" + z + "\r"` loads as the lines `x`, `y`, `z` and a trailing empty line |
| `Scenarios.RepeatedWordRevivesResult` | inverted_index.py:36-40 | with articles `{1: a, 2: b}`, `query([a, b, a])` is `[1]` although no article contains both words; the intended query gives `[]` |

## Left out

- Pickle persistence, `dump` and `load` (inverted_index.py:43-50). The serialised format belongs to a foreign library, so no round trip can be stated from this code. The `InvertedIndex` value is plain data, which is the mapping that `load` returns.
- Opening files and UTF-8 decoding (lines 65, 44, 49, 118). `Dataset.LoadDocument` takes the file's characters after decoding and applies the newline translation of text mode itself.
- The command-line interface (lines 96-121), including its own slips: splitting the query file on `"/n"`, passing each query string to `query` as its list of words, and wrapping an `InvertedIndex` in another one.
- The `global` declarations (lines 63 and 83). They affect no returned value, so the model uses local values.
- `Decimal.ParseInt`: covers only an optional sign and ASCII digits. Python's `int()` also accepts underscores between digits and non-ASCII decimal digits. The model rejects those ids. Surrounding whitespace cannot reach it, because the id field is a token.
- `Decimal.ParseInt`: accepts digit strings of any length. Since Python 3.11 (and the 3.7-3.10 security releases) `int()` raises `ValueError` above 4300 digits by default, and `str()` refuses such values too; the limit is a run-time setting (`sys.set_int_max_str_digits`), so the model leaves it out, and `Decimal.ParseFormat` speaks of the values within it only as far as Python does.
- `Dataset.ParseLine`: Python raises `ValueError` with a message. The model returns which of the two cases failed, and the line's index, instead.
- A query that mutates the stored mapping cannot be expressed: `InvertedIndex` is an immutable value. The source's `query` reads the mapping through `.get` and builds new sets with `.intersection`. When a present word replaces a falsy running value (`()` or an empty set), though, the running value becomes a reference to that word's stored posting set. Nothing then mutates it, and the model needs no such aliasing.
- Posting sets hold Python values of any type. The model fixes them to integers, the ids `load_document` produces.

## Findings

| source | as written | input that shows it | evidently intended | confidence | as-written member | corrected member |
|---|---|---|---|---|---|---|
| inverted_index.py:31-41 | an absent word resets the running value to `()`, and an empty running value is treated as "not started", so the next present word replaces it with its own postings | mapping `{"cat": {1}}` and words `["fox", "cat"]` give `[1]`; articles `{1: a, 2: b}` and words `[a, b, a]` give `[1]` | only the articles that contain every word (doc-comment, line 23), which is `[]` for both inputs | high; not executed | `Index.AbsentWordIgnored` | `Index.QueryCommon` |
