/** The dataset normaliser of the background service worker: it turns the raw
    web-features dataset into compact feature records, classifying each
    feature by baseline status and by kind (CSS, HTML or JavaScript). */
module Background {
  import opened Wrappers
  import opened Strings
  import Seqs

  // Status strings stored on each record
  const WIDELY := "widely"
  const NEWLY := "newly"
  const LIMITED := "limited"

  // Kind strings stored on each record (the `type` field)
  const CSS := "css"
  const HTML := "html"
  const JS := "js"

  /** Identifier keywords that classify a feature as CSS, in the source's order. */
  const CSS_KEYWORDS: seq<string> := [
    "grid", "flexbox", "mask", "filter", "transform", "transition", "animation",
    "backdrop", "border", "background", "font", "text", "color", "margin", "padding"
  ]

  /** Number of characters of stripped description kept. */
  const DESCRIPTION_LIMIT: nat := 150
  const ELLIPSIS := "..."

  /** `status` of a raw dataset entry; `baseline` is `"high"`, `"low"` or
      absent/false, `support` maps browser names to version strings. */
  datatype RawStatus = RawStatus(baseline: Option<string>, support: Option<map<string, string>>)

  /** An entry's `spec` field: the dataset gives either one specification URL
      or a list of them. */
  datatype Spec = SpecUrl(url: string) | SpecList(urls: seq<string>)

  /** One entry of the raw dataset's `features` object. */
  datatype RawFeature = RawFeature(
    name: Option<string>,
    status: Option<RawStatus>,
    descriptionHtml: Option<string>,
    spec: Option<Spec>)

  /** The raw dataset; `features` keeps the object's insertion order. */
  datatype RawData = RawData(features: Option<seq<(string, RawFeature)>>)

  /** A normalised record as stored under `baselineData` (`kind` is the
      source's `type` field). */
  datatype FeatureRecord = FeatureRecord(
    id: string,
    name: Option<string>,
    description: Option<string>,
    status: string,
    spec: Option<Spec>,
    browserSupport: map<string, string>,
    kind: string)

  predicate IsKnownStatus(s: string) {
    s == WIDELY || s == NEWLY || s == LIMITED
  }

  predicate IsKnownKind(k: string) {
    k == CSS || k == HTML || k == JS
  }

  /** Keys of a JavaScript object are distinct. */
  predicate DistinctKeys(entries: seq<(string, RawFeature)>) {
    forall i, j :: 0 <= i < j < |entries| ==> entries[i].0 != entries[j].0
  }

  predicate DistinctRecordIds(rs: seq<FeatureRecord>) {
    forall i, j :: 0 <= i < j < |rs| ==> rs[i].id != rs[j].id
  }

  // -----------------------------------------------------------------------
  // Status

  /** The three-way baseline mapping. */
  function StatusOf(baseline: Option<string>): (r: string)
    ensures IsKnownStatus(r)
    ensures r == WIDELY <==> baseline == Some("high")
    ensures r == NEWLY <==> baseline == Some("low")
    ensures r == LIMITED <==> baseline != Some("high") && baseline != Some("low")
  {
    if baseline == Some("high") then WIDELY
    else if baseline == Some("low") then NEWLY
    else LIMITED
  }

  // -----------------------------------------------------------------------
  // Kind heuristic

  /** `ks.some(k => key.includes(k))` */
  function AnyKeyword(key: string, ks: seq<string>): bool {
    ks != [] && (Includes(key, ks[0]) || AnyKeyword(key, ks[1..]))
  }

  /** The short-circuiting `some` finds a keyword exactly when one occurs in the key. */
  lemma {:induction false} AnyKeywordIff(key: string, ks: seq<string>)
    ensures AnyKeyword(key, ks) <==> exists i :: 0 <= i < |ks| && Includes(key, ks[i])
  {
    if ks != [] {
      AnyKeywordIff(key, ks[1..]);
      if AnyKeyword(key, ks[1..]) {
        var i :| 0 <= i < |ks[1..]| && Includes(key, ks[1..][i]);
        assert Includes(key, ks[i + 1]);
      }
      if exists i :: 0 <= i < |ks| && Includes(key, ks[i]) {
        var i :| 0 <= i < |ks| && Includes(key, ks[i]);
        if i > 0 {
          assert ks[1..][i - 1] == ks[i];
        }
      }
    }
  }

  predicate IsSlugChar(c: char) {
    ('a' <= c <= 'z') || ('0' <= c <= '9') || c == '-'
  }

  /** `/^[a-z0-9-]+$/.test(key)` */
  predicate IsSlug(key: string) {
    |key| > 0 && forall i :: 0 <= i < |key| ==> IsSlugChar(key[i])
  }

  /** `spec.includes('css')` on a truthy `spec`: a substring test on one URL,
      but an exact element test on a list of URLs. An empty URL is falsy and
      contains nothing, so it needs no case of its own. */
  predicate SpecMentionsCss(spec: Option<Spec>) {
    match spec
    case None => false
    case Some(SpecUrl(url)) => Includes(url, "css")
    case Some(SpecList(urls)) => "css" in urls
  }

  /** A URL containing `css` is a CSS signal on its own, but not inside a list
      unless some entry is exactly `css`. */
  lemma SpecListNeedsExactEntry(url: string)
    requires Includes(url, "css") && url != "css"
    ensures SpecMentionsCss(Some(SpecUrl(url)))
    ensures !SpecMentionsCss(Some(SpecList([url])))
  {
  }

  /** The first rule of the heuristic: some sign that the feature is CSS. */
  predicate CssSignal(key: string, name: string, spec: Option<Spec>) {
    || Includes(key, ":")
    || StartsWith(key, "@")
    || StartsWith(name, "CSS")
    || SpecMentionsCss(spec)
    || AnyKeyword(key, CSS_KEYWORDS)
  }

  /** The second rule: an HTML element or attribute. */
  predicate HtmlSignal(key: string, name: string) {
    && IsSlug(key)
    && !Includes(key, "api")
    && !Includes(key, ".")
    && (Includes(name, "element") || Includes(name, "attribute") || StartsWith(key, "html"))
  }

  /** Reading `name.startsWith` on an entry without a name throws, unless the
      key already decided the kind: the `||` chain stops before `name`. */
  predicate KindThrows(key: string, name: Option<string>) {
    name.None? && !Includes(key, ":") && !StartsWith(key, "@")
  }

  /** The ordered, first-match-wins kind heuristic; `None` is the TypeError
      raised when the heuristic reaches a missing name. */
  function InferKind(key: string, name: Option<string>, spec: Option<Spec>): (r: Option<string>)
    ensures r.None? <==> KindThrows(key, name)
    ensures r.Some? ==> IsKnownKind(r.value)
    ensures Includes(key, ":") || StartsWith(key, "@") ==> r == Some(CSS)
    ensures name.Some? && CssSignal(key, name.value, spec) ==> r == Some(CSS)
    ensures r == Some(HTML) <==>
      name.Some? && !CssSignal(key, name.value, spec) && HtmlSignal(key, name.value)
    ensures r == Some(JS) <==>
      name.Some? && !CssSignal(key, name.value, spec) && !HtmlSignal(key, name.value)
  {
    if Includes(key, ":") || StartsWith(key, "@") then Some(CSS)
    else if name.None? then None
    else if CssSignal(key, name.value, spec) then Some(CSS)
    else if HtmlSignal(key, name.value) then Some(HTML)
    else Some(JS)
  }

  /** CSS takes precedence: a feature showing both signals is CSS. */
  lemma CssBeforeHtml(key: string, name: string, spec: Option<Spec>)
    requires CssSignal(key, name, spec) && HtmlSignal(key, name)
    ensures InferKind(key, Some(name), spec) == Some(CSS)
  {
  }

  /** Any of the fifteen keywords inside the key makes the feature CSS. */
  lemma KeywordMakesCss(key: string, name: Option<string>, spec: Option<Spec>, i: int)
    requires 0 <= i < |CSS_KEYWORDS| && Includes(key, CSS_KEYWORDS[i])
    requires name.Some?
    ensures InferKind(key, name, spec) == Some(CSS)
  {
    AnyKeywordIff(key, CSS_KEYWORDS);
  }

  // -----------------------------------------------------------------------
  // Description: `replace(/<[^>]*>?/gm, '')`, then `substring(0, 150) + '...'`

  /** Consumes `[^>]*>?` after a `<`: up to and including the next `>`, or everything. */
  function SkipTag(s: string): (r: string)
    ensures |r| <= |s|
    ensures '>' !in s ==> r == []
  {
    if s == [] then []
    else if s[0] == '>' then s[1..]
    else SkipTag(s[1..])
  }

  lemma {:induction false} SkipTagClosed(t: string, b: string)
    requires '>' !in t
    ensures SkipTag(t + ">" + b) == b
  {
    if t == [] {
      assert (t + ">" + b)[1..] == b;
    } else {
      assert (t + ">" + b)[1..] == t[1..] + ">" + b;
      SkipTagClosed(t[1..], b);
    }
  }

  /** The global tag-stripping replace. */
  function StripTags(s: string): (r: string)
    ensures '<' !in r
    ensures |r| <= |s|
    decreases |s|
  {
    if s == [] then []
    else if s[0] == '<' then StripTags(SkipTag(s[1..]))
    else [s[0]] + StripTags(s[1..])
  }

  /** Text without `<` is left as it is. */
  lemma {:induction false} StripTagsPlain(s: string)
    requires '<' !in s
    ensures StripTags(s) == s
  {
    if s != [] {
      StripTagsPlain(s[1..]);
    }
  }

  /** A complete tag after plain text is removed, with its brackets. */
  lemma {:induction false} StripTagsClosedTag(a: string, t: string, b: string)
    requires '<' !in a && '>' !in t
    ensures StripTags(a + "<" + t + ">" + b) == a + StripTags(b)
  {
    var s := a + "<" + t + ">" + b;
    if a == [] {
      assert s[1..] == t + ">" + b;
      SkipTagClosed(t, b);
    } else {
      assert s[1..] == a[1..] + "<" + t + ">" + b;
      StripTagsClosedTag(a[1..], t, b);
      assert s == [a[0]] + s[1..];
    }
  }

  /** An unclosed `<` swallows the rest of the text. */
  lemma {:induction false} StripTagsUnclosedTag(a: string, t: string)
    requires '<' !in a && '>' !in t
    ensures StripTags(a + "<" + t) == a
  {
    var s := a + "<" + t;
    if a == [] {
      assert s[1..] == t;
    } else {
      assert s[1..] == a[1..] + "<" + t;
      StripTagsUnclosedTag(a[1..], t);
      assert s == [a[0]] + s[1..];
    }
  }

  /** Stripping twice is stripping once. */
  lemma StripTagsIdempotent(s: string)
    ensures StripTags(StripTags(s)) == StripTags(s)
  {
    StripTagsPlain(StripTags(s));
  }

  /** JavaScript truthiness of an optional string. */
  predicate Truthy(s: Option<string>) {
    s.Some? && s.value != ""
  }

  /** The record's description: a truthy `description_html` is stripped,
      cut to 150 characters and always followed by `'...'`; otherwise the name. */
  function Describe(name: Option<string>, descriptionHtml: Option<string>): (r: Option<string>)
    ensures !Truthy(descriptionHtml) ==> r == name
    ensures Truthy(descriptionHtml) ==>
      && r.Some?
      && |r.value| <= DESCRIPTION_LIMIT + |ELLIPSIS|
      && EndsWith(r.value, ELLIPSIS)
      && var body := r.value[..|r.value| - |ELLIPSIS|];
         && '<' !in body
         && StartsWith(StripTags(descriptionHtml.value), body)
         && |body| == if |StripTags(descriptionHtml.value)| <= DESCRIPTION_LIMIT
                      then |StripTags(descriptionHtml.value)| else DESCRIPTION_LIMIT
  {
    if Truthy(descriptionHtml) then
      var body := Take(StripTags(descriptionHtml.value), DESCRIPTION_LIMIT);
      var d := body + ELLIPSIS;
      assert d[..|d| - |ELLIPSIS|] == body;
      assert '<' !in body by {
        assert forall i :: 0 <= i < |body| ==> body[i] == StripTags(descriptionHtml.value)[i];
      }
      Some(d)
    else name
  }

  // -----------------------------------------------------------------------
  // Records

  /** Normalises one entry that has a status; `None` when the kind heuristic throws. */
  function NormaliseEntry(key: string, v: RawFeature): (r: Option<FeatureRecord>)
    requires v.status.Some?
    ensures r.None? <==> KindThrows(key, v.name)
    ensures r.Some? ==>
      && r.value.id == key
      && r.value.name == v.name
      && r.value.spec == v.spec
      && r.value.browserSupport == (if v.status.value.support.Some? then v.status.value.support.value else map[])
      && r.value.status == StatusOf(v.status.value.baseline)
      && Some(r.value.kind) == InferKind(key, v.name, v.spec)
      && r.value.description == Describe(v.name, v.descriptionHtml)
      && IsKnownStatus(r.value.status)
      && IsKnownKind(r.value.kind)
  {
    match InferKind(key, v.name, v.spec)
    case None => None
    case Some(kind) =>
      Some(FeatureRecord(
        key, v.name, Describe(v.name, v.descriptionHtml), StatusOf(v.status.value.baseline),
        v.spec, v.status.value.support.GetOr(map[]), kind))
  }

  predicate HasStatus(e: (string, RawFeature)) {
    e.1.status.Some?
  }

  predicate EntryThrows(e: (string, RawFeature)) {
    e.1.status.Some? && KindThrows(e.0, e.1.name)
  }

  /** `Object.entries(...).forEach(...)`: entries without status are skipped;
      the first entry whose heuristic throws aborts the whole pass. */
  function ProcessEntries(entries: seq<(string, RawFeature)>): Result<seq<FeatureRecord>, string>
  {
    if entries == [] then Success([])
    else
      var (key, v) := entries[0];
      if v.status.None? then ProcessEntries(entries[1..])
      else
        match NormaliseEntry(key, v)
        case None => Failure(key)
        case Some(rec) =>
          match ProcessEntries(entries[1..])
          case Success(rest) => Success([rec] + rest)
          case Failure(k) => Failure(k)
  }

  /** `processWebFeatures(data)`; a missing `features` field reads as `{}`. It
      fails exactly when a status-bearing entry throws, and otherwise yields one
      normalised record per status-bearing entry, in dataset order. */
  function ProcessWebFeatures(data: RawData): (r: Result<seq<FeatureRecord>, string>)
    ensures data.features.None? ==> r == Success([])
    ensures r.Failure? <==>
      exists i :: 0 <= i < |data.features.GetOr([])| && EntryThrows(data.features.GetOr([])[i])
    ensures r.Success? ==>
      var kept := WithStatus(data.features.GetOr([]));
      && |r.value| == |kept|
      && forall j :: 0 <= j < |kept| ==> NormaliseEntry(kept[j].0, kept[j].1) == Some(r.value[j])
  {
    var entries := data.features.GetOr([]);
    ProcessFailure(entries);
    if ProcessEntries(entries).Success? then
      ProcessRecords(entries);
      ProcessEntries(entries)
    else
      ProcessEntries(entries)
  }

  /** The entries that survive the status test, in order. */
  function WithStatus(entries: seq<(string, RawFeature)>): seq<(string, RawFeature)> {
    Seqs.Filter(entries, HasStatus)
  }

  /** The pass fails exactly when some status-bearing entry throws, and then it
      names the first such entry. */
  lemma {:induction false} ProcessFailure(entries: seq<(string, RawFeature)>)
    ensures ProcessEntries(entries).Failure? <==>
      exists i :: 0 <= i < |entries| && EntryThrows(entries[i])
    ensures ProcessEntries(entries).Failure? ==>
      exists i :: 0 <= i < |entries| && EntryThrows(entries[i])
        && entries[i].0 == ProcessEntries(entries).error
        && forall j :: 0 <= j < i ==> !EntryThrows(entries[j])
  {
    if entries != [] {
      var tail := entries[1..];
      ProcessFailure(tail);
      forall i | 0 < i < |entries|
        ensures EntryThrows(entries[i]) == EntryThrows(tail[i - 1])
      {
      }
      if ProcessEntries(entries).Failure? && !EntryThrows(entries[0]) {
        var i :| 0 <= i < |tail| && EntryThrows(tail[i])
          && tail[i].0 == ProcessEntries(tail).error
          && forall j :: 0 <= j < i ==> !EntryThrows(tail[j]);
        assert entries[i + 1] == tail[i];
        assert forall j :: 0 <= j < i + 1 ==> !EntryThrows(entries[j]) by {
          forall j | 0 < j < i + 1 ensures !EntryThrows(entries[j]) {
            assert entries[j] == tail[j - 1];
          }
        }
      }
      if exists i :: 0 <= i < |entries| && EntryThrows(entries[i]) {
        var i :| 0 <= i < |entries| && EntryThrows(entries[i]);
        if i > 0 {
          assert EntryThrows(tail[i - 1]);
        }
      }
    }
  }

  /** On success the output is, record by record, the normalisation of the
      status-bearing entries in their dataset order. */
  lemma {:induction false} ProcessRecords(entries: seq<(string, RawFeature)>)
    requires ProcessEntries(entries).Success?
    ensures var out := ProcessEntries(entries).value;
      var kept := WithStatus(entries);
      && |out| == |kept|
      && forall j :: 0 <= j < |out| ==> NormaliseEntry(kept[j].0, kept[j].1) == Some(out[j])
  {
    if entries != [] {
      var tail := entries[1..];
      assert entries == [entries[0]] + tail;
      ProcessRecords(tail);
      if HasStatus(entries[0]) {
        ProcessRecordsCons(entries);
      } else {
        assert WithStatus(entries) == WithStatus(tail);
      }
    }
  }

  /** The step of `ProcessRecords` for a status-bearing first entry. */
  lemma ProcessRecordsCons(entries: seq<(string, RawFeature)>)
    requires entries != [] && HasStatus(entries[0])
    requires ProcessEntries(entries).Success?
    requires var out := ProcessEntries(entries[1..]).value;
      var kept := WithStatus(entries[1..]);
      && |out| == |kept|
      && forall j :: 0 <= j < |out| ==> NormaliseEntry(kept[j].0, kept[j].1) == Some(out[j])
    ensures var out := ProcessEntries(entries).value;
      var kept := WithStatus(entries);
      && |out| == |kept|
      && forall j :: 0 <= j < |out| ==> NormaliseEntry(kept[j].0, kept[j].1) == Some(out[j])
  {
    var (key, v) := entries[0];
    var rec := NormaliseEntry(key, v).value;
    var rest := ProcessEntries(entries[1..]).value;
    var keptTail := WithStatus(entries[1..]);
    var out := ProcessEntries(entries).value;
    var kept := WithStatus(entries);
    assert out == [rec] + rest;
    assert kept == [entries[0]] + keptTail;
    forall j | 0 <= j < |out| ensures NormaliseEntry(kept[j].0, kept[j].1) == Some(out[j]) {
      if j > 0 {
        assert out[j] == rest[j - 1] && kept[j] == keptTail[j - 1];
      }
    }
  }

  /** Every output record comes from a status-bearing entry with that key and
      carries one of the three statuses and one of the three kinds. */
  lemma {:induction false} ProcessOrigins(entries: seq<(string, RawFeature)>)
    requires ProcessEntries(entries).Success?
    ensures var out := ProcessEntries(entries).value;
      forall j :: 0 <= j < |out| ==>
        && IsKnownStatus(out[j].status) && IsKnownKind(out[j].kind)
        && exists i :: 0 <= i < |entries| && entries[i].0 == out[j].id && HasStatus(entries[i])
  {
    var out := ProcessEntries(entries).value;
    var kept := WithStatus(entries);
    ProcessRecords(entries);
    forall j | 0 <= j < |out|
      ensures IsKnownStatus(out[j].status) && IsKnownKind(out[j].kind)
      ensures exists i :: 0 <= i < |entries| && entries[i].0 == out[j].id && HasStatus(entries[i])
    {
      assert NormaliseEntry(kept[j].0, kept[j].1) == Some(out[j]);
      assert kept[j] in entries;
      var i :| 0 <= i < |entries| && entries[i] == kept[j];
    }
  }

  /** Every status-bearing entry yields a record with its key. */
  lemma {:induction false} ProcessCovers(entries: seq<(string, RawFeature)>)
    requires ProcessEntries(entries).Success?
    ensures var out := ProcessEntries(entries).value;
      forall i :: 0 <= i < |entries| && HasStatus(entries[i]) ==>
        exists j :: 0 <= j < |out| && out[j].id == entries[i].0
  {
    var out := ProcessEntries(entries).value;
    var kept := WithStatus(entries);
    ProcessRecords(entries);
    forall i | 0 <= i < |entries| && HasStatus(entries[i])
      ensures exists j :: 0 <= j < |out| && out[j].id == entries[i].0
    {
      assert entries[i] in kept;
      var j :| 0 <= j < |kept| && kept[j] == entries[i];
      assert NormaliseEntry(kept[j].0, kept[j].1) == Some(out[j]);
    }
  }

  /** The normalised map has one record per key. */
  lemma {:induction false} ProcessDistinct(entries: seq<(string, RawFeature)>)
    requires DistinctKeys(entries)
    requires ProcessEntries(entries).Success?
    ensures DistinctRecordIds(ProcessEntries(entries).value)
  {
    if entries != [] {
      var tail := entries[1..];
      assert DistinctKeys(tail) by {
        forall i, j | 0 <= i < j < |tail| ensures tail[i].0 != tail[j].0 {
          assert tail[i] == entries[i + 1] && tail[j] == entries[j + 1];
        }
      }
      ProcessDistinct(tail);
      if HasStatus(entries[0]) {
        var rest := ProcessEntries(tail).value;
        var out := ProcessEntries(entries).value;
        ProcessOrigins(tail);
        assert out == [out[0]] + rest;
        forall j | 0 < j < |out| ensures out[0].id != out[j].id {
          var i :| 0 <= i < |tail| && tail[i].0 == rest[j - 1].id && HasStatus(tail[i]);
          assert tail[i] == entries[i + 1];
        }
      }
    }
  }
}
