# Wikidata / Wikimedia Commons response reshaping

A Dafny model of the response-normalisation core of `scripts/utils/wiki_queries.py`.
The module asks Wikidata and Wikimedia Commons for data and then flattens their nested
JSON answers into simple records and maps. The model covers that flattening. Each
answer the network would deliver becomes an input of the model.

- `Search` (Search.dfy): the hits of an entity search (`wbsearchentities`) become
  flat search results. The label falls back from `label` to the first alias, then to
  absent, and `language` echoes the parameter. The JSON member `label` is the field
  `labelText`, because `label` is a Dafny keyword.
- `Sparql` (Sparql.dfy): SPARQL answer rows become identifier-to-label maps. The key
  is the last `/`-separated segment of the entity URI (`LastSegment`, which is
  Python's `split("/")[-1]`), and later rows overwrite earlier ones. The properties
  map and the items map share one method, `ProcessBindings`. This module also builds
  the `wd:`-prefixed `VALUES` clause of the label query.
- `Labels` (Labels.dfy): label resolution through `wbgetentities`. The identifiers
  are cut into consecutive chunks of at most 50. The answer to each chunk request is
  an input (`replies[k]` answers chunk `k`). Each answer is merged into one map, with
  `""` for an entity that has no label in the language. The first non-200 status or
  embedded `error` aborts the whole call, and nothing already merged is returned.
  Identifiers that an answer does not list stay out of the result: the code walks only
  the answer's `entities`, so they are not mapped to `""`.
- `Commons` (Commons.dfy): Commons `imageinfo` pages become one record per file title.
  The field set depends on `mediatype`, each field is copied only if present, and
  pages without `imageinfo` are skipped. For a `mediatype` outside BITMAP, DRAWING, 3D,
  AUDIO, VIDEO and OFFICE, the model raises an explicit `UnsupportedMediaType` error
  (see Findings).
- `PyStr` (PyStr.dfy) models Python's `str.split` and `str.join` for a
  one-character separator. `Wrappers` (Wrappers.dfy) holds `Option` and `Result`.

The Python source raises exceptions on some inputs: an empty alias list, a row without
a variable, an empty `imageinfo` list, or a missing `mediatype`. Here these are
`Result` failures. Every loop of the source is a method with a `while` loop, and
each method's postcondition ties its result to a specification:

- `ProcessSearchResults` states each output record directly in terms of its hit.
- `ProcessBindings`, `FetchAndFormatLabelsForIds` and `FormatCommonsMediaMetadata` are
  proved equal to a left-to-right fold with an accumulator (`LabelMap`, `Resolve`,
  `MediaMetadata`).
- `MergeEntities` is proved equal to `Merge`, a map comprehension over the answer's
  entities.
- `FormatCommonsMetadataForFile` is proved equal to `Project`, which recurses on the
  prefix of the field list.

Lemmas about these functions state what the source promises.

## Model

| member | source | states |
|---|---|---|
| `Search.ProcessSearchResults` | scripts/utils/wiki_queries.py:27-52 | one result per hit, in order, with the hit's `id`, `url` and `description`, the parameter as `language`, and label = `label`, else `aliases[0]`, else absent; empty input gives an empty list; the call fails exactly when some hit has no label and an empty alias list, with the first such hit's error |
| `Sparql.LastSegmentIsTextAfterLastSlash` | scripts/utils/wiki_queries.py:75 | `split("/")[-1]` is the suffix of the URI after its last `/` (the whole URI if it has none), and it contains no `/` |
| `Sparql.ProcessBindings` | scripts/utils/wiki_queries.py:72-89 | the row loop computes exactly the fold `LabelMap` from an empty map |
| `Sparql.ProcessWikidataProperties` | scripts/utils/wiki_queries.py:72-79 | the property map is the fold over `property` / `propertyLabel` |
| `Sparql.ProcessWikidataItems` | scripts/utils/wiki_queries.py:82-89 | the item map is the fold over `item` / `itemLabel` |
| `Sparql.LabelMapFailure` | scripts/utils/wiki_queries.py:74-77 | the fold fails exactly when some row lacks the key or the label variable, with the KeyError of the first such row (key variable read first) |
| `Sparql.LabelMapKeys` | scripts/utils/wiki_queries.py:74-77 | on success the keys are exactly the last URI segments of the rows, each free of `/` |
| `Sparql.LabelMapLastWins` | scripts/utils/wiki_queries.py:74-77 | the entry of a key holds the label of the last row with that key |
| `Sparql.ValuesClauseLists` | scripts/utils/wiki_queries.py:144-152 | for non-empty space-free identifiers, the `VALUES` body splits on spaces into exactly the prefixed identifiers, in order; no identifiers give an empty body |
| `Labels.Chunks` | scripts/utils/wiki_queries.py:171-172 | ceil(n/50) chunks (none for no identifiers), each non-empty and at most 50 long, all but the last exactly 50 |
| `Labels.ChunksConcatenate` | scripts/utils/wiki_queries.py:172 | the chunks concatenate back to the identifier list, in order |
| `Labels.MergeEntities` | scripts/utils/wiki_queries.py:187-192 | merging one answer adds every entity key: its `labels[lang]` value when present, `""` otherwise; other entries are kept |
| `Labels.FetchAndFormatLabelsForIds` | scripts/utils/wiki_queries.py:162-198 | the chunk loop computes the fold `Resolve`; it requests the chunks in order, all of them on success, and stops after the first failing reply |
| `Labels.ResolveFailure` | scripts/utils/wiki_queries.py:184-196 | the call fails exactly when some reply has a non-200 status or an `error` body, with that first reply's message (the fixed message, or `error.info`), and returns no map |
| `Labels.ResolveKeys` | scripts/utils/wiki_queries.py:184-192 | on success the keys are exactly the entity keys of all replies |
| `Labels.ResolveLabelOf` | scripts/utils/wiki_queries.py:188-192 | on success an entity's value is its label in `lang` from the last reply listing it, or `""` |
| `Commons.FieldsFor` | scripts/utils/wiki_queries.py:228-265 | the field set is chosen for exactly the six known media types; every set names `mediatype` and none names `title` |
| `Commons.ProjectContents` | scripts/utils/wiki_queries.py:219-224 | the projection holds `title` plus exactly the listed fields present in `imageinfo[0]`, each with its value there |
| `Commons.FormatCommonsMetadataForFile` | scripts/utils/wiki_queries.py:219-224 | the field loop computes the projection, whose keys are `title` plus the listed fields present in `imageinfo[0]`, with the same values |
| `Commons.FormatCommonsMediaMetadata` | scripts/utils/wiki_queries.py:227-269 | the page loop computes the fold `MediaMetadata` from an empty map |
| `Commons.MediaMetadataFailure` | scripts/utils/wiki_queries.py:253-267 | the fold fails exactly when a page with `imageinfo` has an empty `imageinfo`, no `mediatype` or an unknown one, with the first such page's error |
| `Commons.MediaMetadataKeys` | scripts/utils/wiki_queries.py:253-267 | on success the keys are exactly the titles of the pages that have `imageinfo`; pages without it are skipped |
| `Commons.MediaMetadataRecord` | scripts/utils/wiki_queries.py:253-267 | on success a title's entry is the projection of the last page with that title, by the field set of its `mediatype`, and carries that title and that `mediatype` |
| `Commons.MediaMetadataTitlesMatch` | scripts/utils/wiki_queries.py:267 | on success every entry's `title` equals its key |
| `Commons.AsWrittenAgreesOnKnownTypes` | scripts/utils/wiki_queries.py:253-267 | when every `mediatype` is one of the six known types, the loop as written and the corrected fold give the same result, so the correction changes only the unknown-type case |
| `Commons.StaleRecordUnderNewTitle` | scripts/utils/wiki_queries.py:257-267 | as written, an unknown media type after a bitmap gets the bitmap's record, with the wrong title; the corrected fold raises instead |

## Left out

- Network and library calls are left out: `fetch_search_results`, `wikidata_query`,
  `fetch_commons_media_metadata` (with its "no `query.pages` gives no pages" check),
  and the pywikibot `api.Request(...).submit()` and `requests` calls. Their decoded
  answers are inputs of the model. The composing functions `search_keyword` and
  `fetch_and_format_*` only chain such a call with a modelled transform.
- The re-raise of a JSON decoding error in `wikidata_query` is left out. It is
  exception plumbing around the JSON library.
- The fixed SPARQL query texts and endpoint URLs are left out, and so is the
  `wbgetentities` URL assembly (the `|`-join of a chunk). They are opaque strings or
  transport formatting. `ValuesClause` models only the part of a label query that has
  logic.
- Members the service always sends are mandatory fields of the model's types: a hit's
  `id` and `url`, a page's `title`, a SPARQL term's `value`, an `error`'s `info`, the
  `value` member of an entity's `labels[lang]` object (which `Entity` holds as a plain
  string), and a 200 body's `entities` when it has no `error`. The KeyError raised when one of them is
  missing is not modelled.
- The model types labels and descriptions as strings. Python copies whatever JSON
  value the answer holds.
- JSON numbers are exact rationals (`real`). Floating-point rounding of values that are
  only copied is not modelled.
- Python dictionaries keep insertion order, but Dafny maps are unordered, so the order
  of the keys in the result maps is not modelled. The order of the `entities` walk
  does not matter, because its keys are distinct.
- `Labels.FetchAndFormatLabelsForIds` takes its `lang` parameter last, after the replies,
  so that it can keep the source's default of `"en"`.
- `Labels.FetchAndFormatLabelsForIds` requires exactly one reply per chunk. Replies to
  chunks after a failing one are never read.

## Findings

| source | as written | input that shows it | evidently intended | confidence | as-written member | corrected member |
|---|---|---|---|---|---|---|
| scripts/utils/wiki_queries.py:257-267 | no branch sets `tmp` for a `mediatype` outside the six known ones; `data[title] = tmp` then raises UnboundLocalError on the first such page, or stores the previous page's record (whose `title` names the previous file) under the new title | pages `File:A.jpg` (BITMAP) then `File:B.bin` (UNKNOWN): `File:B.bin` maps to a record whose `title` is `File:A.jpg` | reject an unsupported media type explicitly rather than reuse a stale record | not executed; high | `Commons.MediaMetadataAsWritten`, exhibited by `Commons.StaleRecordUnderNewTitle` | `Commons.FormatCommonsMediaMetadata` (fold `Commons.MediaMetadata`), with `Commons.MediaMetadataTitlesMatch` |
