# sbir-tracker: the topic/award merge, modelled in Dafny

The merge script `fetch_and_merge.py` fetches the solicitation topics that
the DoD SBIR/STTR topics API returns for `solicitationTopicType=ALL`, and at
most 1000 of the current year's awards (the first page of the SBIR.gov
awards API). It writes one CSV row per topic. The row says whether the
topic's exact id is the code of one of those awards, and if so which firm.
This project models its logic:

- **Topic mapping** (`get_dsip_topics`): each decoded API item becomes a
  five-column topic record. A missing `topic_number`, `title`, `description`
  or `component` becomes `""`, and a missing `status` becomes `"Unknown"`.
  If any item is not a JSON object, the `except` branch returns no topics
  at all.
- **Award index** (`get_sbir_awards`): a loop over the awards that fills a
  dictionary. The key is the award's `solicitation_topic_code` after Python's
  `str.strip()`. An award whose stripped code is empty is skipped. The value
  is a five-field entry whose URL is the SBIR.gov detail-page prefix followed
  by the award id. A later award with the same code overwrites an earlier
  one, so the last award wins. This loop runs outside the `try`, so an award
  it cannot handle stops the program.
- **Enrichment** (`enrich_topics`): a left outer join of the topics against
  that dictionary, on the exact topic id. Each topic yields exactly one row,
  in order. A matched topic is `"Awarded"` and carries the entry's fields.
  An unmatched topic keeps its own status and gets `""` in the five award
  columns.
- **`main`**: stop when there are no topics, otherwise fetch the awards,
  join, and hand the rows to the CSV writer.

Files: `text.dfy` (module `PyText`: `str.isspace`, `strip`, `str()` of an
integer), `json.dfy` (`PyJson`: decoded JSON values, `dict.get`, hashability,
`str()` of a value), `topics.dfy` (`Topics`), `awards.dfy` (`Awards`),
`enrichment.dfy` (`Enrichment`), `pipeline.dfy` (`Pipeline`).

The three loops are methods (`GetDsipTopics`, `GetSbirAwards`,
`EnrichTopics`). Each is proved equal to a left-fold specification
(`MapItems`, `Index`, `EnrichAll`), and the source's promises are proved
about those folds as lemmas. The requests and their JSON decoding are
parameters. `None` stands for a request that raised, which the script turns
into an empty table or an empty dictionary.

Behaviour of the code worth knowing:

- The lookup key is the topic id exactly as given: no lower-casing and no
  trimming on the topic side. Only award codes are stripped. See
  `Enrichment.ExactKeyOnly`.
- On duplicate award codes the **last** award wins. See
  `Awards.IndexLastWins`.
- An unmatched row keeps the topic's own status.
- A matched row can have null award fields beside a full URL. See
  `Awards.MissingFieldsStayNull`.
- A record with an empty `topic_id` is kept, with id `""`.

## Model

| member | source | states |
|---|---|---|
| `PyText.TrimStartShape` | fetch_and_merge.py:43 | the leading part removed by `strip()` is all whitespace, and what is left does not start with whitespace |
| `PyText.TrimEndShape` | fetch_and_merge.py:43 | the trailing part removed by `strip()` is all whitespace, and what is left does not end with whitespace |
| `PyText.StripShape` | fetch_and_merge.py:43 | a stripped code is a contiguous slice of the raw code. Only whitespace is cut on either side, and the result starts and ends with a non-whitespace character or is empty |
| `PyText.StripIdempotent` | fetch_and_merge.py:43 | stripping twice gives the same text as stripping once |
| `PyText.StripBlank` | fetch_and_merge.py:43-44 | a code strips to `""`, so the `if topic:` test skips it, exactly when it is all whitespace |
| `PyText.StripTrimmed` | fetch_and_merge.py:43 | `strip()` leaves a text with no whitespace at either end unchanged |
| `PyText.NatText` | fetch_and_merge.py:50 | `str()` of a non-negative id is a non-empty run of decimal digits, with no leading zero unless the id is 0 |
| `PyText.NatTextRoundTrip` | fetch_and_merge.py:50 | reading the decimal text of a non-negative id back gives the id |
| `PyText.IntTextRoundTrip` | fetch_and_merge.py:50 | reading the text of any integer id back gives the id, so distinct integer ids give distinct URLs |
| `Topics.GetDsipTopics` | fetch_and_merge.py:16-28 | the loop's result is the topic mapping: one record per item, or no records when the request failed or an item was not an object |
| `Topics.MapItemsOk` | fetch_and_merge.py:17-18 | the mapping succeeds exactly when every item is a JSON object |
| `Topics.MapItemsError` | fetch_and_merge.py:17-18 | a failure names the first item that is not an object |
| `Topics.MapItemsRows` | fetch_and_merge.py:16-24 | on success there is one record per item, in item order, and record j is built from item j alone |
| `Topics.TopicDefaults` | fetch_and_merge.py:18-24 | each column copies the item's field when present, even a null. Otherwise `topic_id`, `title`, `description` and `component` are `""` and `status` is `"Unknown"` |
| `Topics.DsipTopicsFailure` | fetch_and_merge.py:26-28 | a failed request or a non-object item gives an empty topic list, never a partial one |
| `Awards.GetSbirAwards` | fetch_and_merge.py:30-52 | the loop's result is the left fold of the loop body over the awards. A failed request gives `{}` |
| `Awards.IndexErrorSticks` | fetch_and_merge.py:42-51 | once the loop has raised on an award, later awards change nothing |
| `Awards.IndexOk` | fetch_and_merge.py:42-51 | the loop finishes exactly when every award is an object with a string or missing code and, if that code is non-blank, a missing or object firm |
| `Awards.IndexError` | fetch_and_merge.py:42-51 | an error names the first award the loop cannot handle, and why: not an object, a code that is not a string, or a firm that is not an object |
| `Awards.IndexKeys` | fetch_and_merge.py:42-45 | the key set is exactly the set of non-empty stripped codes of the awards |
| `Awards.NoEmptyKey` | fetch_and_merge.py:44 | nothing is ever stored under the empty code |
| `Awards.KeysStripped` | fetch_and_merge.py:43-45 | every key is non-empty, has no whitespace at either end, and strips to itself |
| `Awards.LastCarrier` | fetch_and_merge.py:42-45 | the position of the last award carrying a code is an award that carries it, or -1 |
| `Awards.LastCarrierIsLast` | fetch_and_merge.py:42-45 | that position is -1 only when no award carries the code. Otherwise no later award carries the code |
| `Awards.IndexLastWins` | fetch_and_merge.py:42-51 | the entry under a code is the one built from the last award carrying that code |
| `Awards.CarrierIsKey` | fetch_and_merge.py:42-51 | an award with a non-empty stripped code always leaves that code as a key. Later awards replace the entry but never remove the key |
| `Awards.IndexUrl` | fetch_and_merge.py:50 | every entry's URL is `https://www.sbir.gov/sbirsearch/detail/` followed by the id of the last award carrying that code |
| `Awards.SkipsBlankCode` | fetch_and_merge.py:43-44 | an award whose code is missing, empty or only whitespace leaves the dictionary unchanged |
| `Awards.MissingFieldsStayNull` | fetch_and_merge.py:45-51 | after any successful prefix of awards, an award with a non-blank code and without firm, phase, amount or year is stored under its stripped code with null in those four fields and the detail URL built from its id, replacing any earlier entry |
| `Enrichment.EnrichAll` | fetch_and_merge.py:55-67 | a successful join has exactly as many rows as there are topics |
| `Enrichment.EnrichTopics` | fetch_and_merge.py:54-68 | the loop's result is the left fold that appends one row per topic |
| `Enrichment.EnrichErrorSticks` | fetch_and_merge.py:58 | once a lookup has raised, later topics change nothing |
| `Enrichment.EnrichOk` | fetch_and_merge.py:58 | the join succeeds exactly when no topic id is a list or an object. Python cannot hash those as dictionary keys |
| `Enrichment.EnrichFirstError` | fetch_and_merge.py:58 | a failure names the first topic whose id cannot be looked up |
| `Enrichment.EnrichRows` | fetch_and_merge.py:55-60 | row i keeps all of topic i's columns and depends only on topic i and its lookup, in topic order |
| `Enrichment.EnrichMatched` | fetch_and_merge.py:58-66 | a topic whose id is exactly a key is `"Awarded"` and carries that entry's five fields |
| `Enrichment.EnrichUnmatched` | fetch_and_merge.py:58-66 | a topic whose id is not a key keeps its own status and has `""` in all five award columns |
| `Enrichment.EnrichNoAwards` | fetch_and_merge.py:58-66 | with an empty award dictionary every topic keeps its own status and has `""` in all five award columns |
| `Enrichment.ExactKeyOnly` | fetch_and_merge.py:57-58 | worked example: with one award stored under `AF24-D002`, the topic ids `af24-d002` and ` AF24-D002` stay unmatched and keep their status, and only `AF24-D002` is `"Awarded"` |
| `Pipeline.MergeTopicsWithAwards` | fetch_and_merge.py:70-85 | `main` stops with no topics, stops on an award or lookup error, and otherwise saves the joined rows |
| `Pipeline.SavedRowsFollowTopics` | fetch_and_merge.py:72-84 | a saved file has at least one row and exactly one row per fetched topic, in the API's order |
| `Pipeline.AwardsUnavailable` | fetch_and_merge.py:79-83 | when the award request fails, there are topics and no topic id is a list or an object, the run still saves, and every row keeps its own status and has `""` in all five award columns |
| `Pipeline.NoTopicsWhenNoneFetched` | fetch_and_merge.py:72-75 | the run stops before fetching awards exactly when the topics request failed, returned no items, or returned an item that is not an object |

## Left out

- The HTTP requests, their headers and timeouts, `raise_for_status` and JSON decoding. Each is replaced by a parameter that gives the decoded list, or `None` when any of them raised.
- A topics response or an `awards` field that decodes to something other than a list. Python would iterate a dict's keys or a string's characters there. The model takes a list.
- The clock (`datetime.now().year`) and the award request URL built from it. That URL asks for one page of at most 1000 awards (`rows=1000&start=0`), and no later page is requested. The model takes whatever list that one request decoded to, so a topic whose award is past row 1000, or from an earlier year, comes out unmatched.
- JSON numbers with a fraction or an exponent: the model's numbers are integers. Copied fields (amount, year) are unaffected. Only `str()` of a float id would differ.
- `PyJson.Str`: `str()` of an award id that is a JSON list or object is Python's `repr`. The model does not reproduce it and renders such an id as `""`.
- pandas: the DataFrame wrapper, its dtype coercion (for example, a numeric column with nulls becoming floats), `iterrows`, and `to_csv`. Rows are modelled as records, and the `Saved` outcome holds the rows the CSV writer receives.
- The progress and error messages that `print` writes.
- sbir_scraper.py (browser automation and HTML table parsing), scrape_topics.py (an HTML fetch and a CSV writer) and app.py (a UI with placeholder data): all I/O with no logic of their own to verify.
- Lone surrogates: a Python string decoded from JSON can hold one (for example `"\ud800"` in a topic code or topic id), but a Dafny `char` cannot. The model's strings hold only Unicode scalar values.
