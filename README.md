# detoxic — verified model of the comment pipeline and the trusted-origin registrar

detoxic is a small FastAPI service. It scores comments for toxicity with a pre-trained
Keras network and keeps a password-protected list of trusted origins. This project
models in Dafny the parts of `detoxic.py` whose behaviour can be stated exactly:

- **Normalizer** (`normalizer.dfy`): `preprocess_text`. A missing comment becomes `""`.
  Otherwise the text is lowercased, every character other than an ASCII letter, ASCII
  digit or whitespace is deleted, and `' '.join(text.split())` collapses the whitespace.
  `str.split()` and `' '.join` are modelled as `Split` and `Join`. The proofs show:
  - the output contains only lower-case letters, digits and single inner spaces;
  - the letters and digits of the input survive, lowercased and in order;
  - `Split` and `Join` are inverse to each other;
  - the normalized strings are exactly the fixed points, so the function is idempotent.
- **Padder** (`padder.dfy`): `pad_sequences(..., maxlen=MAX_SEQUENCE_LENGTH,
  padding='post', truncating='post')`. It keeps the first `maxlen` tokens, or appends
  zeros up to `maxlen`. Its partner is `TrimPadding`: removing the trailing zeros
  recovers any token sequence that fits.
- **Prediction service** (`service.dfy`): the routes `/predict` and `/predict_batch`.
  The tokenizer and the network are function parameters. Their preconditions state
  what the pipeline guarantees them: normalized text for the tokenizer, and rows of
  exactly `maxlen` tokens for the network. The batch route gives one result per comment,
  in input order, and each result equals the single-comment route's result.
- **Trusted-URL registrar** (`trusted_urls.dfy`): `TRUSTED_URLS` and `/add_trusted_url`,
  modelled as a class `Registry`. The list is a `seq<string>` field that the method
  reassigns. The ghost field `persisted` stands for the content of `trusted_urls.yaml`.
- `wrappers.dfy`: the `Option` type for a missing comment, file entry or environment
  variable.

The data model does not require the list loaded at start-up to be free of duplicates,
because the code does not check this when it reads the YAML file. Instead, the model
proves that a registration never creates a duplicate: if the list had none before, it
has none after.

## Model

| member | source | states |
|---|---|---|
| `Normalizer.Preprocess` | detoxic.py:30-36 | a missing comment gives `""`; every result is normalized: only `a-z`, `0-9` and spaces, no space at either end, no two spaces in a row |
| `Normalizer.LowerChar` | detoxic.py:33 | a capital `A`-`Z` becomes the lower-case letter at the same place in the alphabet; every other character is unchanged; no ASCII capital is left; each character keeps its letter/digit and whitespace class |
| `Normalizer.Lower` | detoxic.py:33 | the lowered text has the input's length, holds at each position the lowercased character of the input, and has no ASCII capital |
| `Normalizer.Filter` | detoxic.py:34 | deleting characters yields a text no longer than the input whose characters all come from the input and pass the test |
| `Normalizer.WordLength` | detoxic.py:35 | the leading word ends at the first whitespace or at the end of the text, and holds no whitespace |
| `Normalizer.Split` | detoxic.py:35 | `str.split()` returns only non-empty words, with no whitespace and every character taken from the text; whitespace is `IsWhitespace`, Python's full `str.isspace` set (ASCII 9-13 and 28-32, U+0085, U+00A0, U+1680, U+2000-U+200A, U+2028, U+2029, U+202F, U+205F, U+3000), which `\s` at detoxic.py:34 uses as well |
| `Normalizer.Join` | detoxic.py:35 | `' '.join` of no words is `""`; otherwise it is one character longer than the words run together for each gap between neighbours, and starts with the first word |
| `Normalizer.JoinIsNormalized` | detoxic.py:35 | `' '.join` of lower-case alphanumeric words is normalized, and empty exactly when there are no words |
| `Normalizer.SplitJoin` | detoxic.py:35 | splitting `' '.join(ws)` gives back `ws` for any list of whitespace-free non-empty words |
| `Normalizer.JoinSplit` | detoxic.py:35 | a normalized text equals `' '.join` of its own `split()` |
| `Normalizer.ConcatSplit` | detoxic.py:35 | the words of `split()` run together are the text's non-whitespace characters, in order |
| `Normalizer.FilterJoin` | detoxic.py:35 | the letters and digits of `' '.join` of clean words are the words run together |
| `Normalizer.FilterTwice` | detoxic.py:34-35 | deleting by one test and then another is deleting once by both |
| `Normalizer.FilterLower` | detoxic.py:33-34 | lowercasing and keeping the letters and digits commute |
| `Normalizer.KeepsLettersAndDigitsInOrder` | detoxic.py:33-35 | the result's letters and digits are the input's, lowercased, in their original order, and the result's words are those of the lowered, symbol-free text |
| `Normalizer.NormalizedIsFixpoint` | detoxic.py:33-35 | `preprocess_text(s) == s` holds exactly when `s` is normalized |
| `Normalizer.PreprocessIdempotent` | detoxic.py:30-36 | normalizing a normalized comment changes nothing |
| `Padder.PadPost` | detoxic.py:73 | the row has length `maxlen`; position `i` holds token `i` while there is one, and `0` after that |
| `Padder.PadBatch` | detoxic.py:84 | one row per sequence, in order, each of length `maxlen`, cut or zero-filled at its end |
| `Padder.PadPostCases` | detoxic.py:73 | a longer sequence becomes its first `maxlen` tokens, a shorter one is followed by zeros, one of exactly `maxlen` tokens is unchanged |
| `Padder.PadPostIdempotent` | detoxic.py:73 | padding a padded row changes nothing |
| `Padder.TrimPadding` | detoxic.py:73 | dropping trailing zeros leaves a prefix of the row that does not end in `0` |
| `Padder.TrimFillers` | detoxic.py:73 | trailing zeros appended to a sequence that does not end in `0` are exactly what trimming removes |
| `Padder.PadPostTrim` | detoxic.py:73 | padding a sequence that fits and ends in a token can be undone by trimming |
| `PredictionService.Classify` | detoxic.py:75-78 | the result carries the score, and `is_toxic` holds exactly when the score is strictly above `0.5` |
| `PredictionService.Predict` | detoxic.py:69-78 | `/predict` scores the comment's normalized, tokenized, padded row; `is_toxic` holds exactly when the score exceeds `0.5` |
| `PredictionService.PredictBatch` | detoxic.py:80-92 | `/predict_batch` returns one result per comment, in input order, each equal to `/predict` on that comment (so `[]` gives `[]`) |
| `PredictionService.PredictSeesOnlyNormalizedText` | detoxic.py:71-74 | a comment and its normalized form get the same prediction |
| `TrustedUrls.Registry.constructor` | detoxic.py:42-48 | the list is the file's `trusted_urls` entry or `[]` when it is missing, and the password is the variable's value or `changeme` when it is unset |
| `TrustedUrls.Registry.AddTrustedUrl` | detoxic.py:94-103 | wrong password: `Unauthorized`, nothing changes; listed URL: duplicate error with the list, nothing changes; otherwise the list becomes old list + `[url]`, the file gets the new list, and the answer is success with the new list; no duplicate is ever introduced |
| `TrustedUrls.Registered` | detoxic.py:96-100 | the list after one request holds exactly the URLs it held before, plus the requested URL when the password matched, and has at most one more entry |
| `TrustedUrls.RegisteredKeepsNoDuplicates` | detoxic.py:98-100 | a registration keeps a duplicate-free list duplicate-free |
| `TrustedUrls.RegisteredOnce` | detoxic.py:98-100 | after a request with the correct password, the URL occurs in a duplicate-free list exactly once |
| `TrustedUrls.OccurrencesMembership` | detoxic.py:98 | a URL is counted in the list exactly when `url in TRUSTED_URLS` holds |
| `TrustedUrls.ExactlyOnce` | detoxic.py:98 | in a duplicate-free list a present URL is counted once |
| `TrustedUrls.RepeatIsDuplicate` | detoxic.py:98-100 | after a request with the correct password the URL is listed, so the same request again changes nothing |
| `TrustedUrls.RegisteredExtends` | detoxic.py:100 | the list only grows, by at most one entry at its end, and keeps every earlier entry in place |

## Left out

- Normalizer.Lower: lowercasing is ASCII only. Python's `str.lower` also maps some non-ASCII characters to ASCII letters (U+0130 to `i` plus a combining dot, U+212A KELVIN SIGN to `k`). Those letters would survive the deletion step in Python; the model deletes the original character instead. For ASCII input the two agree.
- No lemma checks `preprocess_text` on a concrete input. The properties of the normalizer are stated and proved for all inputs only.
- The Keras `Tokenizer` and `texts_to_sequences` (detoxic.py:19-27, 72, 83): vocabulary lookup and out-of-vocabulary handling happen inside the library. They are the parameter `tokenize`.
- Model loading and `model.predict` (detoxic.py:13, 74, 85) are the parameter `score`, which gives one score per padded row. `PredictBatch` agrees with `Predict` only under that assumption: each row's score depends on that row alone, with one output per row, as `.flatten()` expects. It also settles the empty batch: an empty comment list scores no rows and answers `[]`. Whether `model.predict` accepts an array with no rows is outside this model.
- Scores are `real`. The model does not cover the float32 values or `float(prob)`, and it does not assume that scores lie in [0, 1].
- `pad_sequences`' `int32` output type, its `maxlen=None` mode and its pre-padding options: the call sites fix `maxlen`, `padding='post'` and `truncating='post'`.
- Reading `tokenizer_config.json`, `.env` and `trusted_urls.yaml` (detoxic.py:16-17, 41-48) become constructor and function arguments. A failed or malformed read is not modelled.
- Rewriting `trusted_urls.yaml` (detoxic.py:101-102) is the ghost field `persisted`. A failed write after the append, which leaves the new URL in memory and answers with a server error, is not modelled.
- `TRUSTED_URLS` is also handed to the CORS middleware (detoxic.py:51-57). Whether that middleware sees entries appended later depends on the framework, which is not part of this model.
- FastAPI routing and pydantic request validation (detoxic.py:38, 59-67): framework glue.
- Concurrent requests: the source takes no locks, and the model treats each request as running alone.
