/** The content script's page analysis: the page is handed over as plain
    sequences (style texts, stylesheets, tag names, scripts, with fetches
    already resolved), scanned by the three scanners, summarised, and
    recorded at the top of the capped analysis history. */
module Content {
  import opened Wrappers
  import opened Strings
  import opened Background
  import opened FeatureDb
  import opened Scanner
  import Seqs

  /** A stylesheet: either its rules' `cssText` can be read, or (cross-origin)
      its `href` was fetched, `None` standing for no href, a failed or
      non-ok fetch. */
  datatype StyleSheet = Readable(rules: seq<string>) | Unreadable(fetched: Option<string>)

  /** A `<script>` element: `src` is `""` for inline scripts; `fetched` is the
      body an external script's fetch would return, `None` on failure. */
  datatype Script = Script(src: string, text: string, fetched: Option<string>)

  /** Everything the scanners read from one document. */
  datatype Page = Page(
    inlineStyles: seq<string>,
    styleSheets: seq<StyleSheet>,
    tagNames: seq<string>,
    scripts: seq<Script>)

  // -----------------------------------------------------------------------
  // CSS

  function SheetText(sheet: StyleSheet): seq<string> {
    match sheet
    case Readable(rules) => rules
    case Unreadable(fetched) => if fetched.Some? then [fetched.value] else []
  }

  /** The texts the stylesheets contribute, sheet by sheet. */
  function SheetTexts(sheets: seq<StyleSheet>): seq<string> {
    if sheets == [] then []
    else SheetText(sheets[0]) + SheetTexts(sheets[1..])
  }

  lemma {:induction false} SheetTextsAppend(a: seq<StyleSheet>, b: seq<StyleSheet>)
    ensures SheetTexts(a + b) == SheetTexts(a) + SheetTexts(b)
  {
    if a == [] {
      assert a + b == b;
    } else {
      assert (a + b)[1..] == a[1..] + b;
      SheetTextsAppend(a[1..], b);
    }
  }

  /** Inline styles first, then the stylesheets in document order. */
  function CssTexts(page: Page): seq<string> {
    page.inlineStyles + SheetTexts(page.styleSheets)
  }

  function AnalyzeCss(db: Db, page: Page): seq<Feature> {
    Detect(CssText, db.css, CssTexts(page))
  }

  // -----------------------------------------------------------------------
  // HTML

  /** `new Set(tags.map(t => t.toLowerCase()))` in insertion order. */
  function UniqueTags(tags: seq<string>): (r: seq<string>)
    ensures forall i, j :: 0 <= i < j < |r| ==> r[i] != r[j]
    ensures forall t :: t in r <==> exists i :: 0 <= i < |tags| && ToLower(tags[i]) == t
  {
    if tags == [] then []
    else
      var n := |tags| - 1;
      var r := UniqueTags(tags[..n]);
      var t := ToLower(tags[n]);
      assert forall i :: 0 <= i < n ==> tags[..n][i] == tags[i];
      if t in r then r else r + [t]
  }

  /** Every tag name lower-cased, duplicates kept. */
  function LowerAll(tags: seq<string>): (r: seq<string>)
    ensures |r| == |tags| && forall i :: 0 <= i < |tags| ==> r[i] == ToLower(tags[i])
  {
    seq(|tags|, i requires 0 <= i < |tags| => ToLower(tags[i]))
  }

  /** The set keeps first-insertion order: a tag listed before another was
      first seen earlier in the document. */
  lemma {:induction false} UniqueTagsOrder(tags: seq<string>)
    ensures forall t :: t in UniqueTags(tags) ==> t in LowerAll(tags)
    ensures forall i, j :: 0 <= i < j < |UniqueTags(tags)| ==>
      Seqs.FirstIndex(LowerAll(tags), UniqueTags(tags)[i])
        < Seqs.FirstIndex(LowerAll(tags), UniqueTags(tags)[j])
  {
    if tags != [] {
      var n := |tags| - 1;
      var pre := tags[..n];
      UniqueTagsOrder(pre);
      var rp := UniqueTags(pre);
      var t := ToLower(tags[n]);
      var l := LowerAll(tags);
      var lp := LowerAll(pre);
      assert l == lp + [t];
      forall x | x in rp
        ensures x in l && Seqs.FirstIndex(l, x) == Seqs.FirstIndex(lp, x)
      {
        Seqs.FirstIndexPrefix(lp, [t], x);
      }
      if t !in rp {
        assert t !in lp;
        Seqs.FirstIndexNew(lp, t);
        assert UniqueTags(tags) == rp + [t];
      }
    }
  }

  function AnalyzeHtml(db: Db, page: Page): seq<Feature> {
    Detect(TagName, db.html, UniqueTags(page.tagNames))
  }

  // -----------------------------------------------------------------------
  // JavaScript

  /** External scripts from these hosts are never fetched. */
  predicate IsExcluded(src: string) {
    Includes(src, "google-analytics") || Includes(src, "doubleclick")
  }

  /** The code scanned for one script; `""` contributes nothing. */
  function ScriptCode(s: Script): (r: string)
    ensures s.src == "" ==> r == s.text
    ensures s.src != "" && IsExcluded(s.src) ==> r == ""
    ensures s.src != "" && !IsExcluded(s.src) ==> r == s.fetched.GetOr("")
  {
    if s.src != "" then
      if IsExcluded(s.src) then "" else s.fetched.GetOr("")
    else s.text
  }

  /** The code of every script on the page, in document order. */
  function ScriptCodes(scripts: seq<Script>): (r: seq<string>)
    ensures |r| == |scripts|
    ensures forall i :: 0 <= i < |scripts| ==> r[i] == ScriptCode(scripts[i])
    ensures forall i :: 0 <= i < |scripts| && scripts[i].src == "" ==> r[i] == scripts[i].text
    ensures forall i :: 0 <= i < |scripts| && scripts[i].src != "" && IsExcluded(scripts[i].src) ==>
      r[i] == ""
    ensures forall i :: 0 <= i < |scripts| && scripts[i].src != "" && !IsExcluded(scripts[i].src) ==>
      r[i] == scripts[i].fetched.GetOr("")
  {
    seq(|scripts|, i requires 0 <= i < |scripts| => ScriptCode(scripts[i]))
  }

  function AnalyzeJs(db: Db, page: Page): seq<Feature> {
    Detect(ScriptText, db.js, ScriptCodes(page.scripts))
  }

  // -----------------------------------------------------------------------
  // Orchestration

  /** `analyzeCurrentPage`: a missing `baselineData` reads as `{}`, so every
      scanner then reports nothing. */
  /** The three scanners, CSS results first, then HTML, then JavaScript. */
  function ScanDb(db: Db, page: Page): seq<Feature> {
    AnalyzeCss(db, page) + AnalyzeHtml(db, page) + AnalyzeJs(db, page)
  }

  /** The three scanners over the stored dataset; a missing dataset reads as
      `{}` and nothing is reported. */
  function AnalyzePage(baselineData: Option<seq<FeatureRecord>>, page: Page): (r: seq<Feature>)
    ensures baselineData.None? ==> r == []
  {
    if baselineData.None? then
      ScanDbFacts([], page);
      ScanDb(BuildDb([]), page)
    else
      ScanDb(BuildDb(baselineData.value), page)
  }

  /** With a normalised dataset (distinct ids) no feature is reported twice
      across the three scanners. */
  lemma AnalyzePageDistinct(records: seq<FeatureRecord>, page: Page)
    requires DistinctRecordIds(records)
    ensures DistinctIds(AnalyzePage(Some(records), page))
  {
    ScanDbFacts(records, page);
  }

  lemma ScanDbFacts(records: seq<FeatureRecord>, page: Page)
    ensures records == [] ==> ScanDb(BuildDb(records), page) == []
    ensures DistinctRecordIds(records) ==> DistinctIds(ScanDb(BuildDb(records), page))
  {
    var db := BuildDb(records);
    var css, html, js := AnalyzeCss(db, page), AnalyzeHtml(db, page), AnalyzeJs(db, page);
    if records == [] {
      assert db == Db([], [], []);
      DetectNothing(CssText, CssTexts(page));
      DetectNothing(TagName, UniqueTags(page.tagNames));
      DetectNothing(ScriptText, ScriptCodes(page.scripts));
    }
    if DistinctRecordIds(records) {
      WithinPartition(records, CssPart, CssText, CssTexts(page));
      WithinPartition(records, HtmlPart, TagName, UniqueTags(page.tagNames));
      WithinPartition(records, JsPart, ScriptText, ScriptCodes(page.scripts));
      PartitionsDisjoint(records, CssPart, HtmlPart);
      PartitionsDisjoint(records, CssPart, JsPart);
      PartitionsDisjoint(records, HtmlPart, JsPart);
      DistinctConcat(css, html);
      IdSetConcat(css, html);
      DistinctConcat(css + html, js);
    }
  }

  datatype Summary = Summary(total: nat, widely: nat, newly: nat, limited: nat)

  function StatusIs(status: string): Feature -> bool {
    (f: Feature) => f.status == status
  }

  /** `list.filter(f => f.status === status).length` */
  function CountStatus(list: seq<Feature>, status: string): nat {
    |Seqs.Filter(list, StatusIs(status))|
  }

  /** The summary stored with an analysis: `total` is the number of features,
      and the three buckets add up to at most `total`, exactly when every
      status is one of the three. */
  function Summarize(list: seq<Feature>): (r: Summary)
    ensures r.total == |list|
    ensures r.widely == CountStatus(list, WIDELY) && r.newly == CountStatus(list, NEWLY)
    ensures r.limited == CountStatus(list, LIMITED)
    ensures r.widely + r.newly + r.limited <= r.total
    ensures (forall i :: 0 <= i < |list| ==> IsKnownStatus(list[i].status)) ==>
      r.widely + r.newly + r.limited == r.total
  {
    SummaryBalanced(list);
    Summary(|list|, CountStatus(list, WIDELY), CountStatus(list, NEWLY), CountStatus(list, LIMITED))
  }

  /** An enriched result, as stored under `lastAnalysis` and in the history. */
  datatype Analysis = Analysis(
    url: string,
    title: string,
    timestamp: string,
    features: seq<Feature>,
    summary: Summary)

  /** Number of analyses the history keeps. */
  const HISTORY_LIMIT: nat := 50

  /** `unshift` the new analysis, then keep the first 50. */
  function PushHistory(history: Option<seq<Analysis>>, a: Analysis): (r: seq<Analysis>)
    ensures 1 <= |r| <= HISTORY_LIMIT
    ensures r[0] == a
    ensures var old_ := history.GetOr([]);
      && |r| == (if |old_| + 1 <= HISTORY_LIMIT then |old_| + 1 else HISTORY_LIMIT)
      && r[1..] == old_[..|r| - 1]
  {
    var old_ := history.GetOr([]);
    var h := [a] + old_;
    assert h[1..] == old_;
    if |h| > HISTORY_LIMIT then h[..HISTORY_LIMIT] else h
  }

  /** What the `analyze` message handler stores: the enriched result and the
      updated history. */
  datatype Recorded = Recorded(lastAnalysis: Analysis, analysisHistory: seq<Analysis>)

  /** The `analyze` handler: the page's report, enriched with the page's url,
      title and the given time and with its own summary, is stored as the last
      analysis and pushed onto the front of the capped history. */
  function HandleAnalyze(
    baselineData: Option<seq<FeatureRecord>>, page: Page,
    url: string, title: string, timestamp: string,
    history: Option<seq<Analysis>>): (r: Recorded)
    ensures r.lastAnalysis.features == AnalyzePage(baselineData, page)
    ensures r.lastAnalysis.url == url && r.lastAnalysis.title == title
    ensures r.lastAnalysis.timestamp == timestamp
    ensures r.lastAnalysis.summary.total == |r.lastAnalysis.features|
    ensures r.lastAnalysis.summary.widely == CountStatus(r.lastAnalysis.features, WIDELY)
    ensures r.lastAnalysis.summary.newly == CountStatus(r.lastAnalysis.features, NEWLY)
    ensures r.lastAnalysis.summary.limited == CountStatus(r.lastAnalysis.features, LIMITED)
    ensures |r.analysisHistory| >= 1 && r.analysisHistory[0] == r.lastAnalysis
    ensures var h := history.GetOr([]);
      && |r.analysisHistory| == (if |h| + 1 <= HISTORY_LIMIT then |h| + 1 else HISTORY_LIMIT)
      && r.analysisHistory[1..] == h[..|r.analysisHistory| - 1]
  {
    var results := AnalyzePage(baselineData, page);
    var enriched := Analysis(url, title, timestamp, results, Summarize(results));
    Recorded(enriched, PushHistory(history, enriched))
  }


  // -----------------------------------------------------------------------
  // Properties

  /** CSS: a feature is reported iff its id occurs in the lower-cased form of
      some non-empty style text. */
  lemma CssReported(db: Db, page: Page, f: Feature)
    requires WellFormed(db)
    ensures f in AnalyzeCss(db, page) <==>
      f in db.css && exists j | 0 <= j < |CssTexts(page)| :: CssTexts(page)[j] != "" && Includes(ToLower(CssTexts(page)[j]), f.id)
  {
    DetectIff(CssText, db.css, CssTexts(page), f);
  }

  /** CSS: inline styles are scanned first; their report is a prefix of the
      whole CSS report. */
  lemma InlineStylesFirst(db: Db, page: Page)
    requires WellFormed(db)
    ensures var part := Detect(CssText, db.css, page.inlineStyles);
      |part| <= |AnalyzeCss(db, page)| && AnalyzeCss(db, page)[..|part|] == part
  {
    DetectPrefix(CssText, db.css, page.inlineStyles, SheetTexts(page.styleSheets));
  }

  /** A stylesheet that can neither be read nor fetched changes nothing, and the
      sheets after it are still scanned. */
  lemma UnreadableSheetIgnored(db: Db, page: Page, a: seq<StyleSheet>, b: seq<StyleSheet>)
    requires page.styleSheets == a + [Unreadable(None)] + b
    ensures AnalyzeCss(db, page) == AnalyzeCss(db, page.(styleSheets := a + b))
  {
    UnreadableSheetText(a, b);
  }

  lemma UnreadableSheetText(a: seq<StyleSheet>, b: seq<StyleSheet>)
    ensures SheetTexts(a + [Unreadable(None)] + b) == SheetTexts(a + b)
  {
    var u := [Unreadable(None)];
    SheetTextsAppend(a + u, b);
    SheetTextsAppend(a, u);
    SheetTextsAppend(a, b);
    assert u[1..] == [];
    assert SheetTexts(u) == [];
    assert SheetTexts(a + u) == SheetTexts(a);
  }

  /** The tag, lower-cased, is the feature's id or the part after a hyphen at
      its end. */
  predicate TagNamed(tag: string, f: Feature) {
    f.id == ToLower(tag) || EndsWith(f.id, "-" + ToLower(tag))
  }

  /** HTML: a feature is reported iff some tag, lower-cased, equals its id or
      is the part after a hyphen at its end. */
  lemma HtmlReported(db: Db, page: Page, f: Feature)
    requires WellFormed(db)
    ensures f in AnalyzeHtml(db, page) <==>
      f in db.html && exists i | 0 <= i < |page.tagNames| :: TagNamed(page.tagNames[i], f)
  {
    var tags := UniqueTags(page.tagNames);
    DetectIff(TagName, db.html, tags, f);
    if HitBefore(TagName, tags, f) {
      var j :| 0 <= j < |tags| && Hits(TagName, tags[j], f);
      TagHitIff(tags[j], f);
      assert tags[j] in tags;
    }
    if exists i | 0 <= i < |page.tagNames| :: TagNamed(page.tagNames[i], f) {
      var i :| 0 <= i < |page.tagNames| && TagNamed(page.tagNames[i], f);
      var t := ToLower(page.tagNames[i]);
      assert t in tags;
      var j :| 0 <= j < |tags| && tags[j] == t;
      TagHitIff(t, f);
    }
  }

  /** JavaScript: a feature with an id longer than two is reported iff some
      script's code contains the id, or its lower-cased code contains the id
      lower-cased with hyphens removed. */
  lemma JsReported(db: Db, page: Page, f: Feature)
    requires WellFormed(db)
    ensures f in AnalyzeJs(db, page) <==>
      && f in db.js
      && |f.id| > 2
      && (exists i :: 0 <= i < |page.scripts| &&
            var code := ScriptCode(page.scripts[i]);
            code != "" && (Includes(code, f.id) || Includes(ToLower(code), ToLower(RemoveAll(f.id, '-')))))
  {
    var codes := ScriptCodes(page.scripts);
    DetectIff(ScriptText, db.js, codes, f);
    if HitBefore(ScriptText, codes, f) {
      var j :| 0 <= j < |codes| && Hits(ScriptText, codes[j], f);
      assert codes[j] == ScriptCode(page.scripts[j]);
    }
  }

  /** A script with no code to scan (excluded host, failed fetch, empty text)
      contributes nothing to the report; the scripts after it are still
      scanned. */
  lemma EmptyScriptIgnored(db: Db, page: Page, a: seq<Script>, s: Script, b: seq<Script>)
    requires WellFormed(db)
    requires page.scripts == a + [s] + b
    requires ScriptCode(s) == ""
    ensures AnalyzeJs(db, page) == AnalyzeJs(db, page.(scripts := a + b))
  {
    var codes := ScriptCodes(page.scripts);
    assert codes == ScriptCodes(a) + [""] + ScriptCodes(b);
    assert ScriptCodes(a + b) == ScriptCodes(a) + ScriptCodes(b);
    InertItem(ScriptText, db.js, ScriptCodes(a), "", ScriptCodes(b));
    DetectIsFirstDetections(ScriptText, db.js, codes);
    DetectIsFirstDetections(ScriptText, db.js, ScriptCodes(a + b));
  }

  /** Scripts from the excluded hosts are never fetched, so never scanned. */
  lemma ExcludedScriptIgnored(db: Db, page: Page, a: seq<Script>, s: Script, b: seq<Script>)
    requires WellFormed(db)
    requires page.scripts == a + [s] + b
    requires s.src != "" && IsExcluded(s.src)
    ensures AnalyzeJs(db, page) == AnalyzeJs(db, page.(scripts := a + b))
  {
    EmptyScriptIgnored(db, page, a, s, b);
  }

  lemma DistinctConcat(a: seq<Feature>, b: seq<Feature>)
    requires DistinctIds(a) && DistinctIds(b) && IdSet(a) !! IdSet(b)
    ensures DistinctIds(a + b)
  {
    forall i, j | 0 <= i < |a| <= j < |a| + |b| ensures (a + b)[i].id != (a + b)[j].id {
      assert (a + b)[i] == a[i] && (a + b)[j] == b[j - |a|];
      IdSetMember(a, a[i].id);
      IdSetMember(b, b[j - |a|].id);
    }
  }

  lemma WithinPartition(records: seq<FeatureRecord>, p: Part, m: Matcher, items: seq<string>)
    ensures var part := Partition(BuildDb(records), p);
      DistinctIds(Detect(m, part, items)) && IdSet(Detect(m, part, items)) <= IdSet(part)
  {
    var part := Partition(BuildDb(records), p);
    DetectDistinct(m, part, items);
    DetectWithin(m, part, items);
  }

  /** The three bucket counts never exceed the total, and add up to it when
      every status is one of the three. */
  lemma {:induction false} SummaryBalanced(list: seq<Feature>)
    ensures CountStatus(list, WIDELY) + CountStatus(list, NEWLY) + CountStatus(list, LIMITED) <= |list|
    ensures (forall i :: 0 <= i < |list| ==> IsKnownStatus(list[i].status)) ==>
      CountStatus(list, WIDELY) + CountStatus(list, NEWLY) + CountStatus(list, LIMITED) == |list|
  {
    if list != [] {
      SummaryBalanced(list[1..]);
      assert forall i :: 0 < i < |list| ==> list[1..][i - 1] == list[i];
    }
  }

  // -----------------------------------------------------------------------
  // Worked examples

  /** Over a one-feature partition the report is that feature or nothing. */
  lemma DetectSingle(m: Matcher, f: Feature, items: seq<string>)
    ensures Detect(m, [f], items) == if HitBefore(m, items, f) then [f] else []
  {
    DetectIsFirstDetections(m, [f], items);
    FirstDetectionsSingle(m, f, items);
  }

  lemma {:induction false} FirstDetectionsSingle(m: Matcher, f: Feature, items: seq<string>)
    ensures FirstDetections(m, items, [f]) == if HitBefore(m, items, f) then [f] else []
  {
    if items != [] {
      var n := |items| - 1;
      FirstDetectionsSingle(m, f, items[..n]);
      HitBeforeLast(m, items, f);
      if FreshTest(m, items[..n], items[n])(f) {
        Seqs.FilterAll([f], FreshTest(m, items[..n], items[n]));
      } else {
        Seqs.FilterNone([f], FreshTest(m, items[..n], items[n]));
      }
    }
  }

  lemma DetectNothing(m: Matcher, items: seq<string>)
    ensures Detect(m, [], items) == []
  {
    var d := Detect(m, [], items);
    if d != [] {
      DetectIff(m, [], items, d[0]);
    }
  }

  /** A one-record dataset files its feature alone in its partition. */
  lemma BuildDbSingle(r: FeatureRecord)
    ensures var f := ToFeature(r);
      BuildDb([r]) == match PartOf(r.kind)
        case CssPart => Db([f], [], [])
        case HtmlPart => Db([], [f], [])
        case JsPart => Db([], [], [f])
  {
    assert [r][..0] == [];
    assert IdSet([]) == {};
  }

  /** The scanner and the items that serve each partition. */
  function ScannerOf(p: Part): Matcher {
    match p
    case CssPart => CssText
    case HtmlPart => TagName
    case JsPart => ScriptText
  }

  function ItemsOf(p: Part, page: Page): seq<string> {
    match p
    case CssPart => CssTexts(page)
    case HtmlPart => UniqueTags(page.tagNames)
    case JsPart => ScriptCodes(page.scripts)
  }

  /** Against a one-record dataset the page reports that record's feature
      exactly when the scanner of its partition hits it on some item. */
  lemma AnalyzeSingleRecord(r: FeatureRecord, page: Page)
    ensures var f := ToFeature(r);
      var p := PartOf(r.kind);
      AnalyzePage(Some([r]), page) == if HitBefore(ScannerOf(p), ItemsOf(p, page), f) then [f] else []
  {
    BuildDbSingle(r);
    match PartOf(r.kind)
    case CssPart => AnalyzeSingleCss(ToFeature(r), page);
    case HtmlPart => AnalyzeSingleHtml(ToFeature(r), page);
    case JsPart => AnalyzeSingleJs(ToFeature(r), page);
  }

  lemma AnalyzeSingleCss(f: Feature, page: Page)
    ensures var db := Db([f], [], []);
      AnalyzeCss(db, page) + AnalyzeHtml(db, page) + AnalyzeJs(db, page)
        == if HitBefore(CssText, CssTexts(page), f) then [f] else []
  {
    DetectSingle(CssText, f, CssTexts(page));
    DetectNothing(TagName, UniqueTags(page.tagNames));
    DetectNothing(ScriptText, ScriptCodes(page.scripts));
  }

  lemma AnalyzeSingleHtml(f: Feature, page: Page)
    ensures var db := Db([], [f], []);
      AnalyzeCss(db, page) + AnalyzeHtml(db, page) + AnalyzeJs(db, page)
        == if HitBefore(TagName, UniqueTags(page.tagNames), f) then [f] else []
  {
    DetectNothing(CssText, CssTexts(page));
    DetectSingle(TagName, f, UniqueTags(page.tagNames));
    DetectNothing(ScriptText, ScriptCodes(page.scripts));
  }

  lemma AnalyzeSingleJs(f: Feature, page: Page)
    ensures var db := Db([], [], [f]);
      AnalyzeCss(db, page) + AnalyzeHtml(db, page) + AnalyzeJs(db, page)
        == if HitBefore(ScriptText, ScriptCodes(page.scripts), f) then [f] else []
  {
    DetectNothing(CssText, CssTexts(page));
    DetectNothing(TagName, UniqueTags(page.tagNames));
    DetectSingle(ScriptText, f, ScriptCodes(page.scripts));
  }

  lemma HitBeforeSingle(m: Matcher, item: string, f: Feature)
    ensures HitBefore(m, [item], f) <==> Hits(m, item, f)
  {
    assert [item][0] == item;
  }

  lemma UniqueTagsSingle(tag: string)
    ensures UniqueTags([tag]) == [ToLower(tag)]
  {
    assert [tag][..0] == [];
  }

  lemma IntersectionObserverClean()
    ensures ToLower(RemoveAll("intersection-observer", '-')) == "intersectionobserver"
  {
    IntersectionObserverWords();
    IntersectionObserverRemove();
    IntersectionObserverJoin();
    IntersectionObserverLowered();
  }

  lemma IntersectionObserverWords()
    ensures "intersection-observer" == "intersection" + ['-'] + "observer"
  {
  }

  lemma IntersectionObserverRemove()
    ensures RemoveAll("intersection" + ['-'] + "observer", '-') == "intersection" + "observer"
  {
    RemoveAllSplit("intersection", "observer", '-');
  }

  lemma IntersectionObserverJoin()
    ensures "intersection" + "observer" == "intersectionobserver"
  {
  }

  lemma IntersectionObserverLowered()
    ensures ToLower("intersectionobserver") == "intersectionobserver"
  {
    ToLowerNoUpper("intersectionobserver");
  }

  lemma IntersectionObserverLower()
    ensures ToLower("new IntersectionObserver(cb)") == "new " + "intersectionobserver" + "(cb)"
  {
    ScriptWords();
    ToLowerAppend("new " + "Intersection" + "Observer", "(cb)");
    ToLowerAppend("new " + "Intersection", "Observer");
    ToLowerAppend("new ", "Intersection");
    ToLowerNoUpper("new ");
    ToLowerNoUpper("(cb)");
    LowerWord("Intersection", "intersection");
    LowerWord("Observer", "observer");
  }

  lemma ScriptWords()
    ensures "new IntersectionObserver(cb)" == "new " + "Intersection" + "Observer" + "(cb)"
    ensures "new " + "intersection" + "observer" + "(cb)" == "new " + "intersectionobserver" + "(cb)"
  {
  }

  /** A capitalised word lower-cases to its first letter lowered and the rest kept. */
  lemma LowerWord(w: string, l: string)
    requires |w| == |l| > 0 && 'A' <= w[0] <= 'Z' && l[0] == LowerChar(w[0])
    requires w[1..] == l[1..] && forall i :: 1 <= i < |w| ==> 'a' <= w[i] <= 'z'
    ensures ToLower(w) == l
  {
    assert forall i :: 1 <= i < |w| ==> w[i] == l[i] by {
      forall i | 1 <= i < |w| ensures w[i] == l[i] {
        assert w[i] == w[1..][i - 1];
      }
    }
  }

  lemma IntersectionObserverHit(f: Feature)
    requires f.id == "intersection-observer"
    ensures Hits(ScriptText, "new IntersectionObserver(cb)", f)
  {
    IntersectionObserverClean();
    IntersectionObserverLower();
    IncludesSelf("intersectionobserver");
    IncludesInfix("new ", "intersectionobserver", "(cb)", "intersectionobserver");
  }

  /** `"intersection-observer"` (newly available) is found in a script
      calling `new IntersectionObserver(cb)` through the hyphen-stripped,
      case-insensitive rule. */
  lemma IntersectionObserverExample(r: FeatureRecord, page: Page)
    requires r.id == "intersection-observer" && r.kind == JS && r.status == NEWLY
    requires page == Page([], [], [], [Script("", "new IntersectionObserver(cb)", None)])
    ensures AnalyzePage(Some([r]), page) == [ToFeature(r)]
    ensures Summarize(AnalyzePage(Some([r]), page)) == Summary(1, 0, 1, 0)
  {
    AnalyzeSingleRecord(r, page);
    InlineScriptCode("new IntersectionObserver(cb)");
    IntersectionObserverHit(ToFeature(r));
    HitBeforeSingle(ScriptText, "new IntersectionObserver(cb)", ToFeature(r));
    SingleSummary(ToFeature(r));
  }

  lemma InlineScriptCode(text: string)
    ensures ScriptCodes([Script("", text, None)]) == [text]
  {
  }

  lemma SingleSummary(f: Feature)
    ensures Summarize([f]) == Summary(1, if f.status == WIDELY then 1 else 0,
      if f.status == NEWLY then 1 else 0, if f.status == LIMITED then 1 else 0)
  {
    assert [f][1..] == [];
  }

  lemma DialogTag(f: Feature)
    requires f.id == "html-dialog"
    ensures UniqueTags(["DIALOG"]) == ["dialog"] && Hits(TagName, "dialog", f)
  {
    UniqueTagsSingle("DIALOG");
    assert ToLower("DIALOG") == "dialog";
  }

  /** A `<dialog>` element reports `"html-dialog"`. */
  lemma DialogExample(r: FeatureRecord, page: Page)
    requires r.id == "html-dialog" && r.kind == HTML
    requires page == Page([], [], ["DIALOG"], [])
    ensures AnalyzePage(Some([r]), page) == [ToFeature(r)]
  {
    AnalyzeSingleRecord(r, page);
    DialogTag(ToFeature(r));
    HitBeforeSingle(TagName, "dialog", ToFeature(r));
  }

  lemma DivTag(f: Feature)
    requires f.id == "html-dialog"
    ensures UniqueTags(["DIV"]) == ["div"] && !Hits(TagName, "div", f)
  {
    UniqueTagsSingle("DIV");
    DivLower();
    DivNotDialog();
  }

  lemma DivLower()
    ensures ToLower("DIV") == "div"
  {
  }

  lemma DivNotDialog()
    ensures "html-dialog" != "div" && "html-dialog" != "html-" + "div"
    ensures !EndsWith("html-dialog", "-" + "div")
  {
    assert "html-dialog"[7..] == "alog";
    assert "-" + "div" == "-div" && "html-" + "div" == "html-div";
  }

  /** A page of `<div>`s reports nothing against `"html-dialog"`. */
  lemma DivExample(r: FeatureRecord, page: Page)
    requires r.id == "html-dialog" && r.kind == HTML
    requires page == Page([], [], ["DIV"], [])
    ensures AnalyzePage(Some([r]), page) == []
  {
    AnalyzeSingleRecord(r, page);
    DivTag(ToFeature(r));
    HitBeforeSingle(TagName, "div", ToFeature(r));
  }

  lemma GridHyphen()
    ensures '-' in "css-grid" && '-' !in "display: grid"
  {
    assert "css-grid"[3] == '-';
  }

  lemma GridStyle(f: Feature)
    requires f.id == "css-grid"
    ensures !Hits(CssText, "display: grid", f)
  {
    ToLowerNoUpper("display: grid");
    GridHyphen();
    NotIncludes("display: grid", "css-grid", '-');
  }

  /** The CSS scanner looks for the identifier itself: `"css-grid"` is not
      found in the inline style `"display: grid"`, which holds no hyphen. */
  lemma GridStyleNotFound(r: FeatureRecord, page: Page)
    requires r.id == "css-grid" && r.kind == CSS
    requires page == Page(["display: grid"], [], [], [])
    ensures AnalyzePage(Some([r]), page) == []
  {
    AnalyzeSingleRecord(r, page);
    InlineStyleText("display: grid");
    GridStyle(ToFeature(r));
    HitBeforeSingle(CssText, "display: grid", ToFeature(r));
  }

  lemma InlineStyleText(style: string)
    ensures CssTexts(Page([style], [], [], [])) == [style]
  {
  }
}
