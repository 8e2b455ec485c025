# fin-news-sentiment: headline extraction, persistence rules and the sentiment label

This project models the deterministic core of a small financial-news pipeline
and proves properties of the model in Dafny. The pipeline scrapes news pages,
keeps sentence-like headlines, stores them in a `headlines` table keyed by
(source, headline) and later labels each stored headline with a sentiment.

The model covers four pieces.

- **Headline extraction** (`extract_headlines`). Three passes walk a page's
  h2/h3 headings, then its anchors, then its `span.text.text` teasers. Each
  pass appends a text to one shared list if it is non-empty, has more than six
  tokens under Python's `str.split()` and is not already in the list. The model
  takes the three lists of element texts as input. `parse` zips URLs with
  pages and maps each URL to the headlines of its page.
- **The source key** of a page URL. This is the first capture of the leftmost
  match of `https?://(?:www\.|edition\.)?([a-zA-Z0-9-]+)\.`, or no source
  when nothing matches. The model writes the regular-expression engine's
  choices out as functions: leftmost start, a greedy label run, and the
  prefix alternatives tried in order with backtracking. It proves them equal
  to a declarative reading of the pattern.
- **The two database loops** over an abstract table. `headlines2db` runs
  `INSERT ... ON CONFLICT (source, headline) DO NOTHING` for each headline.
  `sentiment2db` runs `UPDATE ... WHERE id = ...` for each scored row. Both
  are methods of a `HeadlineStore` class whose fields are the table's rows
  and its id counter. Each method is proved equal to a function on table
  values, and the lemmas are stated about those functions.
- **The sentiment label** of a compound score. A score of 0.05 or more is
  positive, a score below -0.05 is negative, and anything else is neutral.

Files:

- `wrappers.dfy`: `Option`.
- `tokens.dfy`: Python `str.split()` on whitespace.
- `scraper.dfy`: extraction and `parse`.
- `persistence.dfy`: the source key, the table, the two loops and the store class.
- `analysis.dfy`: the label and the scored frame.

## Model

| member | source | states |
|---|---|---|
| Tokens.SplitWords | scraper.py:43 | every token `str.split()` yields is non-empty and holds no whitespace character |
| Tokens.SplitAllSpace | scraper.py:43 | a string made only of whitespace, the empty string included, has no tokens |
| Tokens.SplitWord | scraper.py:43 | a non-empty string without whitespace is exactly one token |
| Tokens.SplitSeparated | scraper.py:43 | a whitespace character separates tokens: `split(a + c + b)` is `split(a)` followed by `split(b)` |
| Scraper.HeadlinesMembers | scraper.py:41-54 | a text is in the output exactly when it is one of the candidates and passes the filter; the output has no duplicates |
| Scraper.HeadlinesQualify | scraper.py:43 | every output text is non-empty and has more than 6 tokens |
| Scraper.HeadlinesEmpty | scraper.py:39-56 | when no candidate passes the filter the result is the empty list |
| Scraper.HeadlinesOrder | scraper.py:39-56 | every output text is a candidate, and output order is the order of first occurrence among the candidates |
| Scraper.HeadlinesLength | scraper.py:39-56 | the output is never longer than the concatenated candidates |
| Scraper.HeadlinesPrefix | scraper.py:41-54 | the output of the earlier passes is a prefix of the final output: later passes only append |
| Scraper.HeadingBeforeLink | scraper.py:41-49 | a qualifying heading sits within the headings' part of the output, even if it is also a link text |
| Scraper.ExtractHeadlines | scraper.py:38-56 | the three loops compute one filtering, deduplicating pass over headings ++ anchors ++ spans, with no duplicates and exactly the qualifying candidates as members |
| Scraper.Parse | scraper.py:58-65 | the keys are exactly the URLs among the first min(#urls, #pages) positions; a URL maps to the headlines of the page at its last such position |
| Persistence.MatchAtSound | write2db.py:49 | what the match at a position captures is what the pattern reads there: a scheme, one of the optional prefixes, a label and a dot |
| Persistence.MatchAtComplete | write2db.py:49 | where the pattern reads at a position, the match there succeeds; a `www.`/`edition.` reading wins, and a bare label wins when no prefixed reading exists |
| Persistence.SourceSound | write2db.py:49-53 | a derived source is a non-empty `[A-Za-z0-9-]` label, followed by a dot in the URL at the leftmost position where the pattern matches |
| Persistence.SourceNoneIff | write2db.py:51-55 | the source is absent exactly when the pattern matches at no position of the URL |
| Persistence.SourcePriority | write2db.py:49-53 | at the leftmost matching position the capture is the prefixed reading's label if there is one, else the bare label |
| Persistence.NoDotNoSource | write2db.py:51-55 | a URL without a dot, such as `http://localhost/`, has no source |
| Persistence.NoSchemeNoSource | write2db.py:51-55 | a URL containing neither `http://` nor `https://` has no source |
| Persistence.PrefixedSource | write2db.py:49-53 | `scheme + www./edition. + label + "." + rest` yields that label |
| Persistence.PlainSource | write2db.py:49-53 | `scheme + label + "." + rest` yields the label when it is not `www` or `edition` |
| Persistence.BacktrackSource | write2db.py:49-53 | `scheme + "www." + rest` with no dot in the rest yields `www`: the prefix is given back |
| Persistence.SourceFt | write2db.py:49-53 | `https://www.ft.com/` yields `ft` |
| Persistence.SourceCnn | write2db.py:49-53 | `https://edition.cnn.com/markets` yields `cnn` |
| Persistence.SourceExample | write2db.py:49-53 | `https://example.org/a` yields `example` |
| Persistence.SourceNews | write2db.py:49-53 | `https://news.bbc.co.uk/` yields `news` |
| Persistence.SourceWwwCom | write2db.py:49-53 | `https://www.com` yields `www` |
| Persistence.SourceLocalhost | write2db.py:51-55 | `http://localhost/` yields no source |
| Persistence.InsertRowEffect | write2db.py:58-63 | one insert keeps every old row; it changes nothing when the key is present, else it adds exactly one row with the given values and no sentiment; afterwards the key is present |
| Persistence.InsertRowValid | write2db.py:58-63 | one insert keeps ids consistent and (source, headline) unique |
| Persistence.InsertBatchValid | write2db.py:57-63 | the insert loop keeps ids consistent and (source, headline) unique |
| Persistence.InsertBatchRows | write2db.py:57-63 | existing rows, timestamps included, are untouched; each new row has the batch's source and URL, one of its headlines, no sentiment and a fresh id |
| Persistence.InsertBatchComplete | write2db.py:57-63 | with a present source, every (source, headline) of the batch is in the table afterwards |
| Persistence.InsertBatchPresent | write2db.py:61 | a batch whose keys are all present changes nothing |
| Persistence.InsertBatchIdempotent | write2db.py:57-63 | running the same batch again, at other clock readings, leaves the table as the first run left it |
| Persistence.OneRowPerHeadline | write2db.py:57-63 | with a present source, a headline repeated in the batch or already stored is held by one row |
| Persistence.InsertBatchNoSource | write2db.py:52-63 | without a source nothing conflicts: the k-th headline of the batch becomes the row with id `nextId + k`, holding that headline, the URL and the k-th clock reading, with no source and no sentiment |
| Persistence.LastFor | write2db.py:26-32 | finds the last update addressed to an id, or reports that none is |
| Persistence.ApplyUpdatesEffect | write2db.py:26-32 | the update loop keeps the row set and the counter; a row without an update is unchanged; a row with updates gets the last one's score and label and keeps every other field |
| Persistence.ApplyUpdatesValid | write2db.py:26-32 | the update loop keeps ids consistent and (source, headline) unique |
| Persistence.HeadlineStore.Headlines2Db | write2db.py:41-63 | the store ends as the insert loop's function of its old state, with the source derived once from the URL, and stays valid |
| Persistence.HeadlineStore.Sentiment2Db | write2db.py:22-34 | the store ends as the update loop's function of its old state, and a valid store stays valid |
| Analysis.LabelBands | analysis.py:18 | positive exactly from 0.05 up, negative exactly below -0.05, neutral exactly on [-0.05, 0.05) |
| Analysis.LabelBoundaries | analysis.py:18 | 0.05 is positive, -0.05 is neutral and 0 is neutral |
| Analysis.LabelMonotone | analysis.py:18 | a higher score never gets a lower label in the order negative < neutral < positive |
| Analysis.NameInjective | analysis.py:18 | the stored texts are `positive`, `negative` and `neutral`, one per label |
| Analysis.LabelFrame | analysis.py:17-18 | the scored frame keeps each row's id and score, one update per row |
| Analysis.LabelFrameWellLabelled | analysis.py:18 | every update of the scored frame stores the label of its own score |
| Analysis.UpdatesKeepLabelsAgree | write2db.py:26-32 | storing updates whose labels match their scores keeps every stored score's label matching it |
| Analysis.AnalysisKeepsLabelsAgree | analysis.py:17-26 | labelling the scores and storing them keeps scores and labels in agreement throughout the table |

## Left out

- Fetching pages (scraper.py:18-36) is left out: the HTTP session, the request headers and the concurrent fetches are network I/O.
- Parsing HTML (`BeautifulSoup`, `find_all`, `select` and `get_text(strip=True)`) is left out because it is a foreign library. Pages are given as the three lists of element texts, already stripped.
- The database connection, cursor, autocommit, commit and close (write2db.py:6-20, 42-47, 68-75) are left out. So are `read_db` and the query in analysis.py:7-9.
- The catch-all exception handler in `headlines2db` is left out. The model has no failing statement, so a batch always runs to the end.
- The printed `cursor.rowcount` (write2db.py:65) is left out. It is the count of the last statement only, not of the batch. A reported count of inserted rows is not part of this model.
- `datetime.now()` is not modelled as a clock. Each insert takes its reading from a `clock` sequence parameter, one entry per headline.
- The VADER scorer (analysis.py:13-17) and its floating-point scores are left out. Scores are `real` inputs, and the thresholds are exact.
- The `__main__` block (scraper.py:68-83), main.py and web_app.py are not part of this model. They are printing, orchestration, charts and statistics.
- Persistence.ValidTable: the table's unique index is not shown in the source. The model treats a missing source as never conflicting, which is PostgreSQL's default of distinct NULLs. The dedup lemmas therefore require a present source.
- Persistence.InsertRow: the id a new row gets is modelled as the next value of a counter that moves only on an actual insert. Any gaps a database sequence leaves on skipped inserts are not modelled.
- Scraper.MIN_TOKENS: the six-token threshold is a constant, as in scraper.py:43, 48 and 53, not a configuration value.
- Persistence.HeadlineStore.Sentiment2Db: all updates commit together at the end. A failure part-way is not modelled.
