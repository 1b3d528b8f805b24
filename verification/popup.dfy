/** The pure parts of the toolbar popup: HTML escaping, the feature-card
    filters, the per-status counters, the browser-support row, the export
    summary and the reading of the stored last analysis. */
module Popup {
  import opened Wrappers
  import opened Strings
  import opened Background
  import opened FeatureDb
  import opened Content
  import Seqs

  // -----------------------------------------------------------------------
  // Escaping

  /** `(unsafe || '')` followed by the five global replacements, `&` first. */
  function EscapeHtml(unsafe: Option<string>): (r: string)
    ensures unsafe.None? || unsafe == Some("") ==> r == ""
    ensures '<' !in r && '>' !in r && '"' !in r && '\'' !in r
  {
    var s := unsafe.GetOr("");
    ReplaceChain(s)
  }

  function ReplaceChain(s: string): (r: string)
    ensures '<' !in r && '>' !in r && '"' !in r && '\'' !in r
  {
    EscapeApos(EscapeQuot(EscapeGt(EscapeLt(ReplaceAll(s, '&', "&amp;")))))
  }

  function EscapeLt(s: string): (r: string)
    ensures '<' !in r
  {
    ReplaceAll(s, '<', "&lt;")
  }

  function EscapeGt(s: string): (r: string)
    ensures '>' !in r
    ensures '<' !in s ==> '<' !in r
  {
    ReplaceAllKeeps(s, '>', "&gt;", '<');
    ReplaceAll(s, '>', "&gt;")
  }

  function EscapeQuot(s: string): (r: string)
    ensures '"' !in r
    ensures '<' !in s ==> '<' !in r
    ensures '>' !in s ==> '>' !in r
  {
    ReplaceAllKeeps(s, '"', "&quot;", '<');
    ReplaceAllKeeps(s, '"', "&quot;", '>');
    ReplaceAll(s, '"', "&quot;")
  }

  function EscapeApos(s: string): (r: string)
    ensures '\'' !in r
    ensures '<' !in s ==> '<' !in r
    ensures '>' !in s ==> '>' !in r
    ensures '"' !in s ==> '"' !in r
  {
    ReplaceAllKeeps(s, '\'', "&#039;", '<');
    ReplaceAllKeeps(s, '\'', "&#039;", '>');
    ReplaceAllKeeps(s, '\'', "&#039;", '"');
    ReplaceAll(s, '\'', "&#039;")
  }

  /** The entity each special character becomes. */
  function EscapeChar(c: char): string {
    if c == '&' then "&amp;"
    else if c == '<' then "&lt;"
    else if c == '>' then "&gt;"
    else if c == '"' then "&quot;"
    else if c == '\'' then "&#039;"
    else [c]
  }

  /** Reference definition: escaping character by character. */
  function EscapeText(s: string): string {
    if s == [] then [] else EscapeChar(s[0]) + EscapeText(s[1..])
  }

  lemma {:induction false} EscapeTextAppend(a: string, b: string)
    ensures EscapeText(a + b) == EscapeText(a) + EscapeText(b)
  {
    if a == [] {
      assert a + b == b;
    } else {
      assert (a + b)[1..] == a[1..] + b;
      EscapeTextAppend(a[1..], b);
    }
  }

  lemma ReplaceChainAppend(a: string, b: string)
    ensures ReplaceChain(a + b) == ReplaceChain(a) + ReplaceChain(b)
  {
    ReplaceAllAppend(a, b, '&', "&amp;");
    var a1, b1 := ReplaceAll(a, '&', "&amp;"), ReplaceAll(b, '&', "&amp;");
    ReplaceAllAppend(a1, b1, '<', "&lt;");
    var a2, b2 := ReplaceAll(a1, '<', "&lt;"), ReplaceAll(b1, '<', "&lt;");
    ReplaceAllAppend(a2, b2, '>', "&gt;");
    var a3, b3 := ReplaceAll(a2, '>', "&gt;"), ReplaceAll(b2, '>', "&gt;");
    ReplaceAllAppend(a3, b3, '"', "&quot;");
    var a4, b4 := ReplaceAll(a3, '"', "&quot;"), ReplaceAll(b3, '"', "&quot;");
    ReplaceAllAppend(a4, b4, '\'', "&#039;");
  }

  lemma ReplaceChainChar(c: char)
    ensures ReplaceChain([c]) == EscapeChar(c)
  {
    if c == '&' {
      ChainAmp();
    } else if c == '<' {
      ChainLt();
    } else if c == '>' {
      ChainGt();
    } else if c == '"' {
      ChainQuot();
    } else if c == '\'' {
      ChainApos();
    } else {
      ChainPlain(c);
    }
  }

  lemma ReplaceOne(c: char, rep: string)
    ensures ReplaceAll([c], c, rep) == rep
  {
    assert [c][1..] == [];
  }

  lemma ChainAmp()
    ensures ReplaceChain("&") == "&amp;"
  {
    ReplaceOne('&', "&amp;");
    assert '<' !in "&amp;" && '>' !in "&amp;" && '"' !in "&amp;" && '\'' !in "&amp;";
  }

  lemma ChainLt()
    ensures ReplaceChain("<") == "&lt;"
  {
    ReplaceOne('<', "&lt;");
    assert '>' !in "&lt;" && '"' !in "&lt;" && '\'' !in "&lt;";
  }

  lemma ChainGt()
    ensures ReplaceChain(">") == "&gt;"
  {
    ReplaceOne('>', "&gt;");
    assert '"' !in "&gt;" && '\'' !in "&gt;";
  }

  lemma ChainQuot()
    ensures ReplaceChain("\"") == "&quot;"
  {
    ReplaceOne('"', "&quot;");
    assert '\'' !in "&quot;";
  }

  lemma ChainApos()
    ensures ReplaceChain("'") == "&#039;"
  {
    ReplaceOne('\'', "&#039;");
  }

  lemma ChainPlain(c: char)
    requires c !in "&<>\"'"
    ensures ReplaceChain([c]) == [c]
  {
  }

  /** The chain of global replacements escapes each character on its own: no
      later replacement touches an entity an earlier one produced. */
  lemma {:induction false} EscapeHtmlPerChar(s: string)
    ensures EscapeHtml(Some(s)) == EscapeText(s)
  {
    if s != [] {
      assert s == [s[0]] + s[1..];
      ReplaceChainAppend([s[0]], s[1..]);
      ReplaceChainChar(s[0]);
      EscapeHtmlPerChar(s[1..]);
    }
  }

  /** Decodes the five entities, leaving every other character alone. */
  function Unescape(s: string): string
    decreases |s|
  {
    if s == [] then []
    else if StartsWith(s, "&amp;") then "&" + Unescape(s[5..])
    else if StartsWith(s, "&lt;") then "<" + Unescape(s[4..])
    else if StartsWith(s, "&gt;") then ">" + Unescape(s[4..])
    else if StartsWith(s, "&quot;") then "\"" + Unescape(s[6..])
    else if StartsWith(s, "&#039;") then "'" + Unescape(s[6..])
    else [s[0]] + Unescape(s[1..])
  }

  lemma UnescapeChar(c: char, t: string)
    ensures Unescape(EscapeChar(c) + t) == [c] + Unescape(t)
  {
    if c == '&' {
      UnescapeAmp(t);
    } else if c == '<' {
      UnescapeLt(t);
    } else if c == '>' {
      UnescapeGt(t);
    } else if c == '"' {
      UnescapeQuot(t);
    } else if c == '\'' {
      UnescapeApos(t);
    } else {
      UnescapePlain(c, t);
    }
  }

  /** A mismatch at position `k` rules out the prefix. */
  lemma NotStartsWith(u: string, p: string, k: nat)
    requires k < |p| && k < |u| && u[k] != p[k]
    ensures !StartsWith(u, p)
  {
    if |p| <= |u| {
      assert u[..|p|][k] == u[k];
    }
  }

  lemma UnescapeAmp(t: string)
    ensures Unescape("&amp;" + t) == "&" + Unescape(t)
  {
    var u := "&amp;" + t;
    assert u[..5] == "&amp;" && u[5..] == t;
  }

  lemma UnescapeLt(t: string)
    ensures Unescape("&lt;" + t) == "<" + Unescape(t)
  {
    var u := "&lt;" + t;
    assert u[..4] == "&lt;" && u[4..] == t;
    NotStartsWith(u, "&amp;", 1);
  }

  lemma UnescapeGt(t: string)
    ensures Unescape("&gt;" + t) == ">" + Unescape(t)
  {
    var u := "&gt;" + t;
    assert u[..4] == "&gt;" && u[4..] == t;
    NotStartsWith(u, "&amp;", 1);
    NotStartsWith(u, "&lt;", 1);
  }

  lemma UnescapeQuot(t: string)
    ensures Unescape("&quot;" + t) == "\"" + Unescape(t)
  {
    var u := "&quot;" + t;
    assert u[..6] == "&quot;" && u[6..] == t;
    NotStartsWith(u, "&amp;", 1);
    NotStartsWith(u, "&lt;", 1);
    NotStartsWith(u, "&gt;", 1);
  }

  lemma UnescapeApos(t: string)
    ensures Unescape("&#039;" + t) == "'" + Unescape(t)
  {
    var u := "&#039;" + t;
    assert u[..6] == "&#039;" && u[6..] == t;
    NotStartsWith(u, "&amp;", 1);
    NotStartsWith(u, "&lt;", 1);
    NotStartsWith(u, "&gt;", 1);
    NotStartsWith(u, "&quot;", 1);
  }

  lemma UnescapePlain(c: char, t: string)
    requires c != '&'
    ensures Unescape([c] + t) == [c] + Unescape(t)
  {
    var u := [c] + t;
    assert u[0] == c && u[1..] == t;
    NotStartsWith(u, "&amp;", 0);
    NotStartsWith(u, "&lt;", 0);
    NotStartsWith(u, "&gt;", 0);
    NotStartsWith(u, "&quot;", 0);
    NotStartsWith(u, "&#039;", 0);
  }

  /** Because `&` is replaced first, the escaping can be undone. */
  lemma {:induction false} UnescapeEscapeHtml(s: string)
    ensures Unescape(EscapeHtml(Some(s))) == s
  {
    EscapeHtmlPerChar(s);
    UnescapeEscapeText(s);
  }

  lemma {:induction false} UnescapeEscapeText(s: string)
    ensures Unescape(EscapeText(s)) == s
  {
    if s != [] {
      UnescapeChar(s[0], EscapeText(s[1..]));
      UnescapeEscapeText(s[1..]);
    }
  }

  // -----------------------------------------------------------------------
  // Filters

  /** The group filter of the popup tabs; `"all"` keeps every feature. */
  function InGroup(filter: string): Feature -> bool {
    (f: Feature) => filter == "all" || f.group == filter
  }

  function GroupFilter(features: seq<Feature>, filter: string): (r: seq<Feature>)
    ensures filter == "all" ==> r == features
    ensures Seqs.Subseq(r, features)
    ensures forall f :: f in r <==> f in features && (filter == "all" || f.group == filter)
    ensures forall f :: multiset(r)[f] ==
                        if filter == "all" || f.group == filter then multiset(features)[f] else 0
  {
    if filter == "all" then
      Seqs.FilterAll(features, InGroup(filter));
      Seqs.FilterSubseq(features, InGroup(filter));
      features
    else
      Seqs.FilterSubseq(features, InGroup(filter));
      Seqs.FilterMultiset(features, InGroup(filter));
      Seqs.Filter(features, InGroup(filter))
  }

  /** A card is drawn for a feature with a non-blank name and a known status. */
  predicate IsRenderable(f: Feature) {
    f.name.Some? && f.name.value != "" && Trim(f.name.value) != "" && IsKnownStatus(f.status)
  }

  function Renderable(): Feature -> bool {
    (f: Feature) => IsRenderable(f)
  }

  /** One browser of the support row. */
  datatype SupportCell = SupportCell(browser: string, title: string, supported: bool, icon: string)

  const BROWSERS: seq<(string, string)> :=
    [("chrome", "Chrome"), ("firefox", "Firefox"), ("safari", "Safari"), ("edge", "Edge")]

  /** `support[name]` is truthy: present and not the empty string. */
  predicate Supports(support: map<string, string>, browser: string) {
    browser in support && support[browser] != ""
  }

  function Cell(support: map<string, string>, b: (string, string)): SupportCell {
    var ok := Supports(support, b.0);
    SupportCell(b.0, b.1, ok, if ok then "✓" else "✗")
  }

  /** `renderBrowserSupport`: four cells in a fixed order. */
  function BrowserSupport(support: map<string, string>): (r: seq<SupportCell>)
    ensures |r| == 4
    ensures r[0].browser == "chrome" && r[1].browser == "firefox"
    ensures r[2].browser == "safari" && r[3].browser == "edge"
    ensures forall i :: 0 <= i < 4 ==> (r[i].supported <==> Supports(support, r[i].browser))
    ensures forall i :: 0 <= i < 4 ==> r[i].icon == if r[i].supported then "✓" else "✗"
  {
    seq(4, i requires 0 <= i < 4 => Cell(support, BROWSERS[i]))
  }

  /** Support entries for other browsers do not change the row. */
  lemma OtherBrowsersIgnored(support: map<string, string>, browser: string, v: string)
    requires browser !in {"chrome", "firefox", "safari", "edge"}
    ensures BrowserSupport(support[browser := v]) == BrowserSupport(support)
  {
    var a, b := BrowserSupport(support[browser := v]), BrowserSupport(support);
    forall i | 0 <= i < 4 ensures a[i] == b[i] {
      assert BROWSERS[i].0 != browser;
    }
  }

  /** A feature card; every text field from the dataset goes through
      `EscapeHtml`, the group is upper-cased. */
  datatype Card = Card(
    status: string,
    id: string,
    name: string,
    description: string,
    group: string,
    element: string,
    support: seq<SupportCell>)

  function CardOf(f: Feature): (c: Card)
    ensures '<' !in c.name && '<' !in c.description && '<' !in c.element
    ensures Unescape(c.name) == f.name.GetOr("") && Unescape(c.description) == f.description.GetOr("")
    ensures Unescape(c.element) == f.element
    ensures c.status == f.status && c.id == f.id
  {
    UnescapeEscapeHtml(f.name.GetOr(""));
    UnescapeEscapeHtml(f.description.GetOr(""));
    UnescapeEscapeHtml(f.element);
    Card(f.status, f.id, EscapeHtml(f.name), EscapeHtml(f.description), ToUpper(f.group),
      EscapeHtml(Some(f.element)), BrowserSupport(f.browserSupport))
  }

  // -----------------------------------------------------------------------
  // Counts

  /** The per-status counters shown at the top of the popup. */
  datatype Counts = Counts(widely: nat, newly: nat, limited: nat)

  /** `list.reduce((acc, f) => { acc[f.status] = (acc[f.status] || 0) + 1; ... }, {})` */
  function Tally(list: seq<Feature>): map<string, nat> {
    if list == [] then map[]
    else
      var acc := Tally(list[..|list| - 1]);
      var s := list[|list| - 1].status;
      acc[s := Lookup(acc, s) + 1]
  }

  /** `counts[s] || 0` */
  function Lookup(counts: map<string, nat>, s: string): nat {
    if s in counts then counts[s] else 0
  }

  /** The reduced map holds, under each status, the number of features with it. */
  lemma {:induction false} TallyCounts(list: seq<Feature>, s: string)
    ensures Lookup(Tally(list), s) == CountStatus(list, s)
  {
    if list != [] {
      var n := |list| - 1;
      TallyCounts(list[..n], s);
      Seqs.FilterLast(list, StatusIs(s));
    }
  }

  /** A status nobody has never enters the map. */
  lemma {:induction false} TallyKeys(list: seq<Feature>, s: string)
    ensures s in Tally(list) <==> exists i :: 0 <= i < |list| && list[i].status == s
  {
    if list != [] {
      var n := |list| - 1;
      TallyKeys(list[..n], s);
      if exists i :: 0 <= i < n && list[..n][i].status == s {
        var i :| 0 <= i < n && list[..n][i].status == s;
        assert list[i].status == s;
      }
      if exists i :: 0 <= i < |list| && list[i].status == s {
        var i :| 0 <= i < |list| && list[i].status == s;
        if i < n {
          assert list[..n][i].status == s;
        }
      }
    }
  }

  /** `updateCounts(featuresList)`: the given list (an empty one included), or
      all features when none is given. */
  function UpdateCounts(featuresList: Option<seq<Feature>>, features: seq<Feature>): (c: Counts)
    ensures var list := featuresList.GetOr(features);
      && c.widely == CountStatus(list, WIDELY)
      && c.newly == CountStatus(list, NEWLY)
      && c.limited == CountStatus(list, LIMITED)
      && c.widely + c.newly + c.limited <= |list|
  {
    var list := featuresList.GetOr(features);
    var counts := Tally(list);
    TallyCounts(list, WIDELY);
    TallyCounts(list, NEWLY);
    TallyCounts(list, LIMITED);
    SummaryBalanced(list);
    Counts(Lookup(counts, WIDELY), Lookup(counts, NEWLY), Lookup(counts, LIMITED))
  }

  // -----------------------------------------------------------------------
  // Rendering

  /** What `renderFeatures` shows: the cards, the counters (of the group-filtered
      list, not of the drawn cards) and whether the empty state is visible. */
  datatype View = View(cards: seq<Card>, counts: Counts, emptyState: bool)

  function Cards(fs: seq<Feature>): (r: seq<Card>)
    ensures |r| == |fs|
    ensures forall i :: 0 <= i < |fs| ==> r[i] == CardOf(fs[i])
  {
    seq(|fs|, i requires 0 <= i < |fs| => CardOf(fs[i]))
  }

  /** The features that get a card, in order. */
  function Shown(features: seq<Feature>, filter: string): seq<Feature> {
    Seqs.Filter(GroupFilter(features, filter), Renderable())
  }

  /** `renderFeatures`: one card per shown feature, built from that feature; the
      empty state exactly when the group filter leaves nothing; the three
      counters always taken over the group-filtered list. */
  function RenderFeatures(features: seq<Feature>, filter: string): (v: View)
    ensures v.emptyState <==> GroupFilter(features, filter) == []
    ensures |v.cards| == |Shown(features, filter)|
    ensures forall i :: 0 <= i < |v.cards| ==> v.cards[i] == CardOf(Shown(features, filter)[i])
    ensures v.counts == Counts(CountStatus(GroupFilter(features, filter), WIDELY),
                               CountStatus(GroupFilter(features, filter), NEWLY),
                               CountStatus(GroupFilter(features, filter), LIMITED))
  {
    var filtered := GroupFilter(features, filter);
    var counts := UpdateCounts(Some(filtered), features);
    if filtered == [] then
      assert Shown(features, filter) == [];
      View([], counts, true)
    else View(Cards(Shown(features, filter)), counts, false)
  }

  /** A feature is drawn iff it passes the group filter and is renderable; the
      drawn features keep their order, and the counters describe the filtered
      list. */
  lemma RenderedIff(features: seq<Feature>, filter: string, f: Feature)
    ensures f in Shown(features, filter) <==>
      f in features && (filter == "all" || f.group == filter) && IsRenderable(f)
    ensures Seqs.Subseq(Shown(features, filter), features)
  {
    var filtered := GroupFilter(features, filter);
    var shown := Shown(features, filter);
    Seqs.FilterSubseq(filtered, Renderable());
    Seqs.SubseqTrans(shown, filtered, features);
    if f in shown {
      var i :| 0 <= i < |shown| && shown[i] == f;
    }
    if f in filtered && IsRenderable(f) {
      var i :| 0 <= i < |filtered| && filtered[i] == f;
    }
  }

  // -----------------------------------------------------------------------
  // Export and loading

  /** The JSON report `exportReport` downloads. */
  datatype Report = Report(url: string, timestamp: string, summary: Summary, features: seq<Feature>)

  const EXPORT_URL := "Current page"

  /** Nothing is exported for an empty list (the popup alerts instead). */
  function ExportReport(features: seq<Feature>, timestamp: string): (r: Option<Report>)
    ensures r.None? <==> features == []
    ensures r.Some? ==> r.value.features == features && r.value.url == EXPORT_URL
    ensures r.Some? ==>
      && r.value.summary.total == |features|
      && r.value.summary.widely == CountStatus(features, WIDELY)
      && r.value.summary.newly == CountStatus(features, NEWLY)
      && r.value.summary.limited == CountStatus(features, LIMITED)
  {
    if features == [] then None
    else Some(Report(EXPORT_URL, timestamp, Summarize(features), features))
  }

  /** The export summary is the content script's summary of the same list. */
  lemma ExportAgreesWithAnalysis(a: Analysis, timestamp: string)
    requires a.features != [] && a.summary == Summarize(a.features)
    ensures ExportReport(a.features, timestamp) == Some(Report(EXPORT_URL, timestamp, a.summary, a.features))
  {
  }

  /** The two shapes `lastAnalysis` has been stored in: a bare feature list or
      the enriched result object. */
  datatype StoredAnalysis =
    | FeatureList(list: seq<Feature>)
    | AnalysisObject(features: Option<seq<Feature>>, url: Option<string>)

  /** What `loadSettings` takes from `lastAnalysis`, and whether it renders. */
  datatype Loaded = Loaded(features: seq<Feature>, url: Option<string>, render: bool)

  function LoadLastAnalysis(stored: Option<StoredAnalysis>): (r: Loaded)
    ensures r.render <==> r.features != []
    ensures stored.None? ==> r == Loaded([], None, false)
    ensures stored.Some? && stored.value.FeatureList? ==>
      r.features == stored.value.list && r.url.None?
    ensures stored.Some? && stored.value.AnalysisObject? && stored.value.features.Some? ==>
      r.features == stored.value.features.value && r.url == stored.value.url
    ensures stored.Some? && stored.value.AnalysisObject? && stored.value.features.None? ==>
      r == Loaded([], None, false)
  {
    var (features, url) :=
      match stored
      case None => ([], None)
      case Some(FeatureList(list)) => (list, None)
      case Some(AnalysisObject(fs, u)) => if fs.Some? then (fs.value, u) else ([], None);
    Loaded(features, url, features != [])
  }

  /** The object the content script stores reads back as its features and url. */
  lemma LoadStoredAnalysis(a: Analysis)
    ensures LoadLastAnalysis(Some(AnalysisObject(Some(a.features), Some(a.url)))) ==
      Loaded(a.features, Some(a.url), a.features != [])
  {
  }
}
