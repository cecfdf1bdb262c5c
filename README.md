# LCSH recommendation core, modelled in Dafny

This project models the two components that do the work of the LCSH validation service.

- **`LCSHScraper`** searches the Library of Congress subject headings at id.loc.gov.
  - It waits for its rate limiter, which keeps one mutable timestamp, `last_request_time`.
  - It requests the search URL built from the percent-encoded query.
  - It walks the `tbody-group` entries of the `id-std` results table and collects one `{term, id, url}` record per usable entry.
  - It never raises: a failure returns an empty list, or the records collected before the failure.
- **`SimilarityEngine.compute_similarities`** ranks a pool of candidate dictionaries against the query terms.
  - It returns nothing for empty input.
  - Otherwise it builds a corpus: the joined query first, then each candidate's term.
  - It scores the corpus, takes `argsort(scores)[-top_k:][::-1]`, and builds one result dictionary per selected index.

Files:

- `wrappers.dfy`: `Option` (a missing element or attribute) and `Result` (a value or a raised exception).
- `pystr.dfy`: the Python `str` operations the core uses: `strip`, `startswith('/')`, `format` of the `{keyword}` field, and `" ".join`. It also has `split(" ")`, the inverse of the join.
- `scraper.dfy`: the parsed result listing as datatypes, the per-entry step `Visit` and its fold `Walk`, the rate-limit arithmetic, and the `LcshScraper` class with its mutable `lastRequestTime`.
- `similarity.dfy`: the corpus, top-k selection, result construction, the pure `Rank` specification, and the `SimilarityEngine` class, whose method refits the vectorizer.
- `pipeline.dfy`: records returned by a search, when pooled and ranked, never make the engine raise `KeyError`.

Environment stand-ins:

- **Clock.** The caller passes two readings: `now` (scraper.py:63) and `resumed`, the reading after the sleep (scraper.py:67). The sleep is returned as a duration.
- **HTTP GET.** A function from URL to `Response`: either a transport failure, or a reply with a status code and a parsed page.
- **`urllib.parse.quote`.** A function parameter, treated as an opaque encoder.
- **Vectorizer and cosine similarity.** A scorer function from the corpus to one score in [0, 1] per candidate, or to `None`. `None` stands for the `ValueError` that the vectorizer raises when the vocabulary is empty.
- **`numpy.argsort`.** Any function that returns an ascending argsort. This leaves the order among equal scores open.

Behaviour of the code that a reader might not expect, and that the model keeps:

- **A result row with fewer than two cells is not skipped.** `find_all('td')[1]` raises `IndexError` (scraper.py:124). The catch-all handler (scraper.py:144-145) ends the loop, and only the records collected before that row are returned. See `Walk` and `WalkStopsAt`.
- **Ties are not ordered by input position.** The code reverses a slice of NumPy's default, unstable argsort (similarity.py:123). Even a stable argsort, once reversed, would list the later of two tied candidates first. So `IsArgsorter` leaves tie order unconstrained.
- **An empty vocabulary raises.** `fit_transform` (similarity.py:113) has no handler around it, so the vectorizer's empty-vocabulary `ValueError` propagates. This is the `EmptyVocabulary` outcome; no all-zero scores are produced.
- **`top_k` of zero or below.** `[-top_k:]` (similarity.py:123) is the whole array when `top_k == 0`, so every candidate is returned. For a negative `top_k`, all but the `-top_k` lowest-scoring candidates are returned. See `SelectedCount`.
- **No lock.** `_wait_for_rate_limit` (scraper.py:55-67) reads and writes `last_request_time` with no lock around it.

## Model

| member | source | states |
|---|---|---|
| PyStr.Strip | scraper.py:127-132 | the stripped text is a slice of the input with whitespace on both sides of it, has no whitespace at either end, and is empty exactly when the input is all whitespace |
| PyStr.FormatSingleField | scraper.py:97 | formatting a template whose only `{` opens the `{keyword}` field replaces that field with the value and leaves the rest of the template unchanged |
| PyStr.SplitJoin | similarity.py:104 | joining the query terms with single spaces can be undone by splitting on spaces when no term contains a space |
| Scraper.SearchUrl | scraper.py:96-97 | the search URL is the template's prefix `https://id.loc.gov/search/?q=`, then the encoded query, then the unchanged remainder `&q=cs:http://id.loc.gov/authorities/subjects` |
| Scraper.SleepDuration | scraper.py:63-66 | the limiter sleeps only when less than the minimum interval has passed since the last request; the sleep is then exactly the shortfall; either way the sleep ends no earlier than one interval after the last request |
| Scraper.ClearancesSpaced | scraper.py:58-67 | when every sleep lasts as long as asked, each clearance comes at least one minimum interval after the previous one (the first after the initial timestamp), and clearances i and j are at least (j - i) intervals apart |
| Scraper.AsDict | scraper.py:136-140 | each record becomes a dictionary with exactly the keys term, id and url, holding the record's fields |
| Scraper.AbsoluteUrl | scraper.py:135 | a root-relative href gets the `https://id.loc.gov` prefix; any other href is kept unchanged; the href is always a suffix of the URL, and the URL never starts with `/` |
| Scraper.Visit | scraper.py:121-140 | an entry raises `IndexError` exactly when its first row has fewer than two cells; a record it emits has a non-empty, stripped term and id, and a url that does not start with `/` |
| Scraper.VisitOutcome | scraper.py:122-140 | an entry is skipped exactly when it has no row, or its row has two or more cells and either the second cell has no anchor or the anchor text or the last cell's text is all whitespace; it emits exactly when the second cell has an anchor and neither text is all whitespace; the emitted record's term is the anchor text stripped, its id is the last cell's text stripped, and its url is the anchor's href resolved against the origin (an empty href when there is none) |
| Scraper.Walk | scraper.py:119-140 | the entries loop gives at most one record per entry, and every record is non-empty and stripped |
| Scraper.WalkEmitted | scraper.py:119-140 | every record of the walk is the record that some entry emits |
| Scraper.WalkAppend | scraper.py:119-140 | records come in document order: walking `a + b` gives the records of `a` followed by those of `b`, unless an entry of `a` raised, in which case it gives only the records of `a` |
| Scraper.WalkStopsAt | scraper.py:119-148 | an entry that raises `IndexError` ends the walk; the records collected before it are the result |
| Scraper.Harvest | scraper.py:102-148 | a transport failure, a non-2xx status or a page without the `id-std` table yields no records; every record yielded is well formed |
| Scraper.LcshScraper.constructor | scraper.py:43-53 | a new client has `last_request_time` 0; the minimum interval is 1 second and the template is fixed |
| Scraper.LcshScraper.WaitForRateLimit | scraper.py:55-67 | returns the sleep that `SleepDuration` gives for the old timestamp, and sets `last_request_time` to the reading taken after the sleep |
| Scraper.LcshScraper.SearchTerms | scraper.py:69-148 | passes the limiter exactly once, so the timestamp is updated even when the request fails; returns what the response to the search URL for the encoded query yields; never raises; ignores `max_pages` |
| Similarity.CandidateTerms | similarity.py:107 | the list of candidate terms in input order, or `KeyError('term')` exactly when some candidate has no term |
| Similarity.Corpus | similarity.py:103-110 | row 0 is the query terms joined with single spaces; row k + 1 is candidate k's term; `KeyError('term')` exactly when some candidate lacks one |
| Similarity.InsertionArgsort | similarity.py:123 | inserting each index in front of the equal scores already placed gives an ascending argsort: every index exactly once, with scores non-decreasing |
| Similarity.ArgsorterExists | similarity.py:123 | some argsorter exists, so the argsort assumption can be met for every score vector |
| Similarity.SliceStart | similarity.py:123 | the start of the slice `[-top_k:]` always lies within the array |
| Similarity.Reverse | similarity.py:123 | `[::-1]` keeps the length and puts element k at position n - 1 - k |
| Similarity.TopIndicesSelect | similarity.py:123 | the selected indices number `SelectedCount` (min(top_k, n) for positive top_k, n for 0); they are distinct and valid, their scores are non-increasing, and no index left out scores higher than any index selected |
| Similarity.MissingField | similarity.py:131-133 | names the first of term, id and url that a candidate lacks, in lookup order; names none exactly when all three are present |
| Similarity.BuildResults | similarity.py:126-136 | for each selected index, in order, the result holds that candidate's term, id and url together with that index's score; otherwise it is the `KeyError` of the first selected candidate that lacks a field |
| Similarity.Rank | similarity.py:100-101 | empty query terms or no candidates give an empty result and no error |
| Similarity.RankSelects | similarity.py:113-136 | a successful ranking of non-empty input returns `SelectedCount` results, with scores in [0, 1] and non-increasing; each result is built from a distinct candidate with that candidate's own score, and no candidate left out scores higher than any result |
| Similarity.SimilarityEngine.constructor | similarity.py:43-56 | a new engine's vectorizer has not been fitted |
| Similarity.SimilarityEngine.ComputeSimilarities | similarity.py:58-137 | returns exactly what `Rank` specifies; the vectorizer is refitted on the corpus whenever the call reaches a successful fit, and is otherwise unchanged |
| Pipeline.RankScrapedPool | similarity.py:126-135 | ranking a pool of search records never raises `KeyError`, because those records always carry term, id and url; every recommendation is one of the pooled records |

## Left out

- HTTP transport: `httpx.Client`, its 30-second timeout, and closing it in `__del__`. The GET is a function from URL to `Response`. `raise_for_status` is modelled only as its 2xx test.
- HTML parsing: BeautifulSoup's `find` and `find_all`, including recursive matching of nested cells. The model starts from the parsed tree. `if table` / `if row` / `if link` are read as "the element was found", which is how a found BeautifulSoup tag tests.
- The real clock and `time.sleep`. Clock readings are parameters, and the sleep is a returned duration.
- Logging.
- The internals of `urllib.parse.quote`. It is an opaque function parameter. Python strings with lone surrogates, which make `quote` raise, cannot be written as Dafny strings.
- `str.format` in general. `FormatKeyword` handles only the `{keyword}` field, which is the only field in the template.
- TF-IDF vectorisation, stop words, n-grams and cosine similarity. These are scikit-learn floating-point numerics, represented by the scorer parameter.
- Scraper.SleepDuration, Scraper.LcshScraper.WaitForRateLimit: clock readings and the interval are exact reals, so the floating-point subtraction of scraper.py:64-66 and its rounding are not modelled.
- Similarity.BuildResults: the score is carried unrounded, because `round(float(score), 3)` is floating-point rounding.
- NumPy's quicksort. Any ascending argsort is allowed, so tie order is not determined.
- Concurrency. The source takes no lock around the timestamp.
- Python's lack of mutation for this data. Inputs are immutable Dafny values, so "the candidates are not modified" holds by construction and is not stated.
- The HTTP endpoint layer (FastAPI, Pydantic, uvicorn) and the API-key generator. These are not part of this model.
