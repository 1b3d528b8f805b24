# Baseline Radar — a Dafny model of the feature classifier and page scanner

Baseline Radar is a browser extension that tells a web developer which web
platform features a page uses and how widely each is available ("Baseline"
widely available, newly available, or limited). Its logic has four parts,
and this project models each one as pure Dafny functions with proved
contracts:

- **Dataset normaliser** (`background.js`, module `Background`). It turns the
  raw `web-features` dataset into compact records:
  - it maps each entry's baseline level to `widely`, `newly` or `limited`;
  - it classifies each entry as CSS, HTML or JavaScript by an ordered,
    first-match-wins heuristic;
  - it strips tags from the HTML description and truncates it.
- **Page scanner** (`content.js`, modules `FeatureDb`, `Scanner`, `Content`).
  - It splits the stored records into three partitions by kind.
  - Three scanners run over the page's style texts, distinct tag names and
    script bodies. Each reports each feature at most once, in
    first-detection order.
  - The results are concatenated and summarised, then put at the head of a
    history capped at 50 analyses.
- **Popup** (`popup.js`, module `Popup`): HTML escaping, the group and
  validity filters for feature cards, the per-status counters, the
  four-browser support row, the export summary, and reading the two stored
  shapes of the last analysis.
- **History dashboard** (`options.js`, module `Options`): synthetic
  selection ids, the URL search, the selection set, deleting, the action
  buttons, export file numbering, and saving without the synthetic ids.

Shared modules:

- `Wrappers`: `Option` and `Result`.
- `Seqs`: order-preserving `filter` and the subsequence relation.
- `Strings`: the JavaScript string operations the code uses:
  - `includes`, `startsWith`, `endsWith`;
  - ASCII `toLowerCase` and `toUpperCase`;
  - single-character global `replace`;
  - `trim`;
  - decimal rendering of counters.

Modelling conventions:

- A JavaScript object is a sequence of key/value pairs in insertion order.
  `obj[k] = v` is `FeatureDb.Put`: an existing key keeps its place, a new key
  goes last.
- DOM and network inputs arrive as plain sequences. A fetched body is an
  `Option<string>`, where `None` means the fetch failed.
- A `TypeError` raised by the code is a `Failure`.

Some behaviour follows the code where a reader might expect otherwise:

- The description always gets `'...'` appended when `description_html` is
  present, even when nothing was cut (`Background.Describe`).
- A dataset entry with a status but no `name` throws inside the kind
  heuristic, unless its key contains `:` or starts with `@`. The throw aborts
  the whole normalisation pass; it does not skip the entry
  (`Background.ProcessFailure`).
- When no dataset has been stored, the page analysis reports nothing; it
  raises no error (`Content.AnalyzePage`).
- A `spec` given as a list of URLs counts as a CSS signal only when one entry
  is exactly `css`: on an array `includes` compares whole elements
  (`Background.SpecListNeedsExactEntry`).
- The CSS scanner looks for the feature identifier literally. So `css-grid`
  is **not** found in the style `display: grid`
  (`Content.GridStyleNotFound`).

## Model

| member | source | states |
|---|---|---|
| Background.StatusOf | background.js:68-70 | the status is `widely` iff baseline is `"high"`, `newly` iff it is `"low"`, `limited` otherwise; always one of the three |
| Background.AnyKeywordIff | background.js:75-76 | the short-circuit `some` over the keyword list holds iff some listed keyword occurs in the key |
| Background.InferKind | background.js:72-91 | `css` whenever the key has `:` or starts with `@`, or (with a name) any CSS signal holds, a `spec` counting when its URL contains `css` or its list has an entry `css`; `html` iff no CSS signal and the slug/`api`/`.`/element-attribute-html test passes; `js` otherwise; the heuristic throws exactly when it reaches a missing name |
| Background.SpecListNeedsExactEntry | background.js:82 | a `spec` URL containing `css` is a CSS signal, but the same URL as the only entry of a `spec` list is not: on a list `includes` tests for an entry equal to `css` |
| Background.CssBeforeHtml | background.js:78-88 | a feature showing both the CSS and the HTML signals is classified CSS |
| Background.KeywordMakesCss | background.js:75-85 | any of the fifteen keywords inside the key makes a named feature CSS |
| Background.SkipTag | background.js:97 | consuming `[^>]*>?` never lengthens the text and swallows everything when no `>` follows |
| Background.StripTags | background.js:97 | the tag-stripped text holds no `<` and is no longer than the input |
| Background.StripTagsPlain | background.js:97 | text without `<` is left unchanged |
| Background.StripTagsClosedTag | background.js:97 | a complete `<...>` tag after plain text is removed together with its brackets, the rest is stripped in turn |
| Background.StripTagsUnclosedTag | background.js:97 | an unclosed `<` removes everything after it |
| Background.StripTagsIdempotent | background.js:97 | stripping twice equals stripping once |
| Background.Describe | background.js:97 | with a truthy description: at most 153 characters, ends with `...`, the part before it has no `<` and is the first min(150, length) characters of the stripped text; otherwise the description is the name |
| Background.NormaliseEntry | background.js:93-103 | a record has the key as id, the copied name and spec, `status.support` or `{}` as browser support, the mapped status, the inferred kind and the described description; none exactly when the heuristic throws |
| Background.ProcessFailure | background.js:63-91 | the pass fails iff some entry with a status throws, and the failure names the first such entry |
| Background.ProcessRecords | background.js:63-104 | on success the output is, position by position, the normalisation of the status-bearing entries in dataset order |
| Background.ProcessOrigins | background.js:63-65 | every output record comes from an input entry with that key and a status, and has a known status and kind |
| Background.ProcessCovers | background.js:63-65 | every entry with a status appears in the output |
| Background.ProcessDistinct | background.js:93 | distinct dataset keys give distinct record ids |
| Background.ProcessWebFeatures | background.js:59-107 | a missing `features` field gives an empty result; the pass fails iff some status-bearing entry throws; on success there is one record per status-bearing entry, in dataset order, each its entry normalised |
| FeatureDb.ToFeature | content.js:96-104 | a feature keeps the record's id, name, status, description and browser support, takes the kind as `group` and repeats the id as `element` |
| FeatureDb.ToFeatures | content.js:94-104 | one feature per record, in order, each with the record's id, name, status, description and browser support, its kind as `group` and its id as `element` |
| FeatureDb.IdSetMember | content.js:134-135 | an id is in the seen set iff some found feature has it |
| FeatureDb.SameIdSameFeature | content.js:106-108 | within a partition an id determines the feature |
| FeatureDb.Put | content.js:106-108 | keyed assignment keeps ids distinct, adds the id to the key set, and appends a new key at the end |
| FeatureDb.PutContains | content.js:106-108 | after the keyed assignment the object holds the assigned feature |
| FeatureDb.PutOverwrites | content.js:106-108 | assigning to an existing key keeps the length and overwrites exactly the entry with that id in place; every other entry stays where it was |
| FeatureDb.Insert | content.js:106-108 | a record goes into the partition of its kind, the other partitions are unchanged |
| FeatureDb.BuildDb | content.js:93-109 | the three partitions have distinct ids |
| FeatureDb.BuildDbSelects | content.js:93-109 | with distinct record ids each partition is exactly the records of that kind, in dataset order |
| FeatureDb.ExactlyOnePartition | content.js:106-108 | every record lands in exactly one partition: `css`, `html`, or js for any other kind |
| FeatureDb.PartitionsDisjoint | content.js:106-108 | two different partitions share no id |
| Scanner.TagHitIff | content.js:186 | the tag test holds iff the id is the tag or ends with `-tag`; the `html-tag` case is subsumed |
| Scanner.Step | content.js:132-136 | one test either changes nothing or appends a hit feature whose id was not yet seen, keeping the seen set equal to the found ids |
| Scanner.ScanItem | content.js:131-137 | scanning one text block over the partition keeps found ids distinct and the seen set in step |
| Scanner.ScanItems | content.js:125-139 | the fold over all text blocks keeps found ids distinct and the seen set in step |
| Scanner.ScanItemAppends | content.js:131-137 | one block appends exactly the partition's features it hits that were not yet seen, in partition order |
| Scanner.SeenIff | content.js:133-135 | a feature's id is in the seen set iff some block scanned so far hit it |
| Scanner.DetectIsFirstDetections | content.js:125-139 | the seen-set fold equals the reference: features grouped by the first block that hits them, partition order within a block |
| Scanner.DetectIff | content.js:125-139 | a feature is reported iff it is in the partition and some block hits it |
| Scanner.DetectDistinct | content.js:133-135 | no id is reported twice |
| Scanner.DetectPrefix | content.js:141-168 | the report for earlier blocks is a prefix of the report for all blocks |
| Scanner.RepeatedItem | content.js:133-135 | scanning a block already scanned adds nothing |
| Scanner.InertItem | content.js:129 | a block no feature hits changes nothing, wherever it stands |
| Scanner.DetectWithin | content.js:125-139 | every reported id belongs to the scanned partition |
| Content.SheetTextsAppend | content.js:145-167 | stylesheet texts are contributed sheet by sheet in order |
| Content.UniqueTags | content.js:179 | the lower-cased tag set holds each lower-cased tag once, and nothing else |
| Content.UniqueTagsOrder | content.js:179 | the set iterates in first-insertion order: of two listed tags, the one listed first was first seen earlier among the lower-cased tag names |
| Content.ScriptCode | content.js:204-217 | an inline script (empty `src`) contributes its text; an external script from an excluded host contributes `""`; any other external script contributes its fetched body, or `""` when the fetch failed |
| Content.ScriptCodes | content.js:200-217 | one code string per script, in document order: the inline text when `src` is empty, `""` for an excluded host, otherwise the fetched body or `""` when the fetch failed |
| Content.PushHistory | content.js:38-45 | the new analysis is first, the history has at most 50 entries, and the rest is a prefix of the old history in order |
| Content.HandleAnalyze | content.js:15-67 | the stored analysis carries the page report, the url, title and time, and a summary counting its own features; the stored history starts with it, followed by as much of the old history as fits in 50 entries |
| Content.AnalyzePage | content.js:85-120 | without a stored dataset every scanner reports nothing |
| Content.CssReported | content.js:128-139 | a feature is reported iff its id occurs in the lower-cased form of some non-empty style text |
| Content.InlineStylesFirst | content.js:141-144 | the inline-style report is a prefix of the CSS report |
| Content.UnreadableSheetIgnored | content.js:146-167 | a sheet that can be neither read nor fetched contributes nothing, and later sheets are still scanned |
| Content.HtmlReported | content.js:179-192 | a feature is reported iff some lower-cased tag equals its id or is its suffix after a hyphen |
| Content.JsReported | content.js:216-233 | a feature is reported iff its id is longer than 2 and some script's code contains it, or the lower-cased code contains it lower-cased without hyphens |
| Content.EmptyScriptIgnored | content.js:218 | a script with no code contributes nothing and later scripts are still scanned |
| Content.ExcludedScriptIgnored | content.js:210 | scripts from `google-analytics` or `doubleclick` contribute nothing |
| Content.AnalyzePageDistinct | content.js:112-116 | with distinct record ids, the CSS, HTML and JS results together have no duplicate id |
| Content.Summarize | content.js:27-32 | `total` is the number of features and each bucket the number with that status; the buckets sum to at most `total`, and to exactly `total` when every status is known |
| Content.SummaryBalanced | content.js:27-32 | the three status counts of a list sum to at most its length, and to exactly its length when every status is one of the three |
| Content.DetectSingle | content.js:125-139 | over a one-feature partition the report is that feature iff some block hits it, else empty |
| Content.AnalyzeSingleRecord | content.js:105-116 | against a one-record dataset the page reports that record's feature exactly when the scanner of its kind's partition hits it on some item, and nothing otherwise |
| Content.IntersectionObserverExample | content.js:216-233 | any newly-available js record with id `intersection-observer` is found in the inline script `new IntersectionObserver(cb)` by the hyphen-stripped rule; summary 1 total / 1 newly |
| Content.DialogExample | content.js:179-192 | any html record with id `html-dialog` is reported for a page whose only tag is `DIALOG` |
| Content.DivExample | content.js:179-192 | the same record is not reported for a page whose only tag is `DIV` |
| Content.GridStyleNotFound | content.js:128-133 | a css record with id `css-grid` is not reported for the inline style `display: grid` |
| Popup.EscapeHtml | popup.js:340-347 | a missing or empty input gives `""`; the output has no `<`, `>`, `"` or `'` |
| Popup.EscapeHtmlPerChar | popup.js:341-346 | the five global replacements, `&` first, escape each character on its own |
| Popup.UnescapeEscapeHtml | popup.js:340-347 | decoding the five entities gives back the input |
| Popup.GroupFilter | popup.js:321-325 | `all` keeps every feature; any other filter keeps exactly the features of that group, in order, with every duplicate kept |
| Popup.BrowserSupport | popup.js:377-390 | four cells, chrome, firefox, safari, edge in that order; each is a tick iff its entry is truthy |
| Popup.OtherBrowsersIgnored | popup.js:378-386 | support entries for other browsers do not change the row |
| Popup.CardOf | popup.js:349-374 | the name, description and element shown on a card hold no `<` and decode back to the feature's name, description (missing ones as `""`) and element; the status and id are carried unescaped |
| Popup.TallyCounts | popup.js:402-405 | the reduced map holds, under each status, the number of features with that status; an absent bucket reads 0 |
| Popup.TallyKeys | popup.js:402-405 | a status enters the map iff some feature has it |
| Popup.UpdateCounts | popup.js:393-413 | each counter is the number of features with that status in the given list, or in all features when no list is given; their sum is at most the list length |
| Popup.RenderFeatures | popup.js:315-375 | the empty state shows iff the group filter leaves nothing; there is one card per shown feature, in order, each built from that feature; all three counters count the group-filtered list, not the drawn cards |
| Popup.RenderedIff | popup.js:321-350 | a card is drawn iff the feature passes the group filter and has a non-blank name and a known status; the drawn features keep their order |
| Popup.ExportReport | popup.js:416-432 | nothing for an empty list; otherwise url `Current page`, the features, and a summary counting them |
| Popup.ExportAgreesWithAnalysis | popup.js:422-431 | the export summary equals the summary the content script stored for the same features |
| Popup.LoadLastAnalysis | popup.js:33-45 | an array is the feature list; an object with features gives them and its url; rendering happens iff the list is non-empty |
| Popup.LoadStoredAnalysis | popup.js:36-39 | the object the content script stores reads back as its features and url |
| Options.LoadHistory | options.js:18-21 | a missing history loads as empty; each loaded item wraps the stored record at the same position, with the id `timestamp + "_" + position` |
| Options.Save | options.js:296-301 | saving writes one record per item, in order, each the item without its synthetic id |
| Options.SaveAfterLoad | options.js:296-301 | saving what was loaded writes back exactly the stored records |
| Options.LoadedIdsDistinct | options.js:18-21 | the synthetic ids are pairwise distinct, whatever the timestamps |
| Options.FilteredHistory | options.js:53-68 | an item is kept iff the search is empty or its lower-cased url contains the lower-cased search, and the date matches; order is kept and a kept item keeps all its copies |
| Options.EmptySearchKeepsAll | options.js:59 | no search and no date keep every item |
| Options.ToggleItem | options.js:223-227 | the id is selected iff checked; no other selection changes |
| Options.ToggleItemTwice | options.js:223-227 | toggling is idempotent, and unchecking undoes checking a new id |
| Options.ToggleAll | options.js:214-221 | checking adds exactly the listed ids; unchecking removes exactly them |
| Options.ToggleAllLocal | options.js:214-221 | selections outside the listed items are unchanged |
| Options.DeleteSelected | options.js:240-247 | without confirmation nothing changes; otherwise exactly the unselected items stay, in order and with all their copies, the selection is empty, and that history is saved |
| Options.DeleteSingle | options.js:249-255 | without confirmation nothing changes; otherwise only items with that id go, the others stay in order with all their copies, the id leaves the selection, and that history is saved |
| Options.DeleteSingleAsSelection | options.js:243-251 | deleting one item leaves the same history as deleting a selection of just that item |
| Options.UpdateActionButtons | options.js:229-238 | both buttons are disabled iff nothing is selected; a positive count can be read back from both labels |
| Options.CountedShows | options.js:236-237 | the count in a `label (n)` text parses back to n |
| Options.ExportSelected | options.js:272-281 | one file per selected item, in history order, the k-th named with suffix k and holding that item as the dashboard holds it, synthetic id included |
| Options.FileNamesDistinct | options.js:278 | different counters give different file names, even for the same timestamp |

## Left out

- All `chrome.*` APIs are left out: storage, tabs, messaging, notifications, alarms, context menus, downloads and script injection. The model takes their results as inputs and returns what would be stored.
- `fetch` and CORS handling: each fetched stylesheet or script body is an `Option<string>` input.
- DOM queries are left out. Inline styles, stylesheets, tag names and scripts arrive as sequences.
- `innerHTML` templating, toasts and button markup are left out. A card is modelled as its escaped fields only.
- async sequencing, `setTimeout`, the in-progress flags and the smart-button logic are left out.
- `Date` is left out. Timestamps are opaque strings.
  - The date filter of the dashboard takes the calendar-day computation as a parameter (`dayOf`). Its `RangeError` on invalid dates is not modelled.
  - Export file names take the `getTime()` text as a parameter (`timeOf`).
- JSZip, `Blob`, object URLs and `JSON.stringify` are foreign libraries; the export is modelled as the list of (file name, item) pairs.
- `updateBaselineData`, alarms and context menus in `background.js` are not part of this model. When normalisation throws there, nothing is stored; the model stops at the `Failure`.
- The popup's storage listener (`res.features || res`) is left out. It can assign a non-array object to the feature list, which the typed model cannot represent.
- Background.Describe: the 150-character cut counts Unicode code points, while `substring` counts UTF-16 code units. A description with characters outside the Basic Multilingual Plane keeps more text in the model, and the source may split a surrogate pair, which the model cannot represent.
- Scanner.Hits: the `id.length > 2` guard of the script scanner counts code points, not UTF-16 code units. The two differ only for identifiers with astral characters, which the dataset's slug identifiers never contain.
- Strings.ToLower and Strings.ToUpper: case mapping covers ASCII letters only, not the full Unicode mapping of `toLowerCase`.
- Content.AnalyzePage: the stored `baselineData` object is read as its record sequence in insertion order. JavaScript lists integer-like keys first; the model does not reorder them.
- Popup.TallyCounts: a status spelled like an `Object.prototype` member (`toString`, say) is not modelled. It would read an inherited property, but the normaliser only produces the three known statuses.
- Popup.BrowserSupport: a support value is truthy iff it is a non-empty string. Other JSON values in the dataset are not modelled.
