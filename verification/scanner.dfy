/** The matching loop shared by the CSS, HTML and JavaScript scanners of the
    content script: for each scanned item in turn, every feature of the
    partition is tested in database order, and a "seen" set of ids lets each
    feature be reported once, at its first detection. */
module Scanner {
  import opened Strings
  import opened FeatureDb
  import Seqs

  /** Which scanner is running, and so what an item is. */
  datatype Matcher =
    | CssText     // an inline style or a stylesheet rule/body
    | TagName     // a distinct lower-cased tag name
    | ScriptText  // the code of one script

  /** The per-scanner test of one feature against one item. */
  predicate Hits(m: Matcher, item: string, f: Feature) {
    match m
    case CssText =>
      item != "" && Includes(ToLower(item), f.id)
    case TagName =>
      f.id == item || f.id == "html-" + item || EndsWith(f.id, "-" + item)
    case ScriptText =>
      && item != ""
      && |f.id| > 2
      && (Includes(item, f.id) || Includes(ToLower(item), ToLower(RemoveAll(f.id, '-'))))
  }

  /** The `html-<tag>` form is already covered by the `-<tag>` suffix form. */
  lemma TagHitIff(tag: string, f: Feature)
    ensures Hits(TagName, tag, f) <==> f.id == tag || EndsWith(f.id, "-" + tag)
  {
    if f.id == "html-" + tag {
      assert f.id[|f.id| - |"-" + tag|..] == "-" + tag;
    }
  }

  /** The accumulator of one scan: reported features and the ids seen so far. */
  datatype State = State(found: seq<Feature>, seen: set<string>)

  const Empty := State([], {})

  /** The seen set is exactly the reported ids, each reported once. */
  predicate Valid(s: State) {
    DistinctIds(s.found) && s.seen == IdSet(s.found)
  }

  /** One test: report `f` if it hits and has not been seen. */
  function Step(m: Matcher, item: string, s: State, f: Feature): (r: State)
    ensures Valid(s) ==> Valid(r)
    ensures Valid(s) ==> (r == s || (Hits(m, item, f) && f.id !in s.seen && r.found == s.found + [f]))
  {
    if Hits(m, item, f) && f.id !in s.seen then
      var r := State(s.found + [f], s.seen + {f.id});
      IdSetAppend(s.found, f);
      IdSetMember(s.found, f.id);
      r
    else s
  }

  /** Tests every feature of `db`, in order, against one item. */
  function ScanItem(m: Matcher, item: string, db: seq<Feature>, s: State): (r: State)
    ensures Valid(s) ==> Valid(r)
  {
    if db == [] then s
    else Step(m, item, ScanItem(m, item, db[..|db| - 1], s), db[|db| - 1])
  }

  /** Scans the items in order with one seen set for the whole scan. */
  function ScanItems(m: Matcher, items: seq<string>, db: seq<Feature>): (r: State)
    ensures Valid(r)
  {
    if items == [] then Empty
    else ScanItem(m, items[|items| - 1], db, ScanItems(m, items[..|items| - 1], db))
  }

  /** The features one scanner reports. */
  function Detect(m: Matcher, db: seq<Feature>, items: seq<string>): seq<Feature> {
    ScanItems(m, items, db).found
  }

  // -----------------------------------------------------------------------
  // Reference definition: first-detection order

  /** Some item among `items` hits `f`. */
  predicate HitBefore(m: Matcher, items: seq<string>, f: Feature) {
    exists j :: 0 <= j < |items| && Hits(m, items[j], f)
  }

  function FreshTest(m: Matcher, prior: seq<string>, item: string): Feature -> bool {
    (f: Feature) => Hits(m, item, f) && !HitBefore(m, prior, f)
  }

  /** The features of `db` that `item` hits and no earlier item did, in db order. */
  function Fresh(m: Matcher, prior: seq<string>, item: string, db: seq<Feature>): seq<Feature> {
    Seqs.Filter(db, FreshTest(m, prior, item))
  }

  /** Features grouped by the first item that detects them; within a group, in
      database order. */
  function FirstDetections(m: Matcher, items: seq<string>, db: seq<Feature>): seq<Feature> {
    if items == [] then []
    else
      var n := |items| - 1;
      FirstDetections(m, items[..n], db) + Fresh(m, items[..n], items[n], db)
  }

  lemma HitBeforeLast(m: Matcher, items: seq<string>, f: Feature)
    requires items != []
    ensures HitBefore(m, items, f) <==>
      HitBefore(m, items[..|items| - 1], f) || Hits(m, items[|items| - 1], f)
  {
    var n := |items| - 1;
    if HitBefore(m, items[..n], f) {
      var j :| 0 <= j < n && Hits(m, items[..n][j], f);
      assert items[j] == items[..n][j];
    }
    if HitBefore(m, items, f) {
      var j :| 0 <= j < |items| && Hits(m, items[j], f);
      if j < n {
        assert items[..n][j] == items[j];
      }
    }
  }

  /** A feature is among the first detections exactly when it is in the
      partition and some item hits it. */
  lemma {:induction false} FirstDetectionsMember(m: Matcher, items: seq<string>, db: seq<Feature>, g: Feature)
    ensures g in FirstDetections(m, items, db) <==> g in db && HitBefore(m, items, g)
  {
    if items != [] {
      var n := |items| - 1;
      FirstDetectionsMember(m, items[..n], db, g);
      HitBeforeLast(m, items, g);
    }
  }

  function NewHit(m: Matcher, item: string, seen: set<string>): Feature -> bool {
    (f: Feature) => Hits(m, item, f) && f.id !in seen
  }

  lemma LastNotFiltered(db: seq<Feature>, p: Feature -> bool)
    requires DistinctIds(db) && db != []
    ensures db[|db| - 1].id !in IdSet(Seqs.Filter(db[..|db| - 1], p))
  {
    var n := |db| - 1;
    var kept := Seqs.Filter(db[..n], p);
    IdSetMember(kept, db[n].id);
    forall i | 0 <= i < |kept| ensures kept[i].id != db[n].id {
      assert kept[i] in db[..n];
    }
  }

  /** One item's pass appends the hitting features not seen before the pass. */
  lemma {:induction false} ScanItemAppends(m: Matcher, item: string, db: seq<Feature>, s: State)
    requires Valid(s) && DistinctIds(db)
    ensures ScanItem(m, item, db, s).found == s.found + Seqs.Filter(db, NewHit(m, item, s.seen))
  {
    var p := NewHit(m, item, s.seen);
    if db == [] {
      assert s.found + [] == s.found;
    } else {
      var n := |db| - 1;
      var front, last := db[..n], db[n];
      ScanItemAppends(m, item, front, s);
      var prev := ScanItem(m, item, front, s);
      var newFront := Seqs.Filter(front, p);
      LastNotFiltered(db, p);
      IdSetConcat(s.found, newFront);
      assert prev.seen == s.seen + IdSet(newFront);
      Seqs.FilterLast(db, p);
      assert ScanItem(m, item, db, s) == Step(m, item, prev, last);
      if p(last) {
        assert last.id !in prev.seen;
        assert Step(m, item, prev, last).found == prev.found + [last];
        assert prev.found + [last] == s.found + (newFront + [last]);
      } else {
        assert Step(m, item, prev, last) == prev;
        assert newFront + [] == newFront;
      }
    }
  }

  /** For a partition with distinct ids, an id is in the seen set after the
      items exactly when one of the items hit that feature. */
  lemma SeenIff(m: Matcher, items: seq<string>, db: seq<Feature>, f: Feature)
    requires DistinctIds(db) && f in db
    requires ScanItems(m, items, db).found == FirstDetections(m, items, db)
    ensures f.id in ScanItems(m, items, db).seen <==> HitBefore(m, items, f)
  {
    var fd := FirstDetections(m, items, db);
    IdSetMember(fd, f.id);
    if f.id in IdSet(fd) {
      var i :| 0 <= i < |fd| && fd[i].id == f.id;
      FirstDetectionsMember(m, items, db, fd[i]);
      SameIdSameFeature(db, fd[i], f);
    } else {
      FirstDetectionsMember(m, items, db, f);
    }
  }

  /** The seen-set scan computes the first-detection reference. */
  lemma {:induction false} DetectIsFirstDetections(m: Matcher, db: seq<Feature>, items: seq<string>)
    requires DistinctIds(db)
    ensures Detect(m, db, items) == FirstDetections(m, items, db)
  {
    if items != [] {
      var n := |items| - 1;
      DetectIsFirstDetections(m, db, items[..n]);
      var prev := ScanItems(m, items[..n], db);
      ScanItemAppends(m, items[n], db, prev);
      forall i | 0 <= i < |db|
        ensures NewHit(m, items[n], prev.seen)(db[i]) == FreshTest(m, items[..n], items[n])(db[i])
      {
        SeenIff(m, items[..n], db, db[i]);
      }
      Seqs.FilterCongruent(db, NewHit(m, items[n], prev.seen), FreshTest(m, items[..n], items[n]));
    }
  }

  // -----------------------------------------------------------------------
  // Consequences

  /** A feature is reported iff it is in the partition and some item hits it. */
  lemma DetectIff(m: Matcher, db: seq<Feature>, items: seq<string>, f: Feature)
    requires DistinctIds(db)
    ensures f in Detect(m, db, items) <==> f in db && HitBefore(m, items, f)
  {
    DetectIsFirstDetections(m, db, items);
    FirstDetectionsMember(m, items, db, f);
  }

  /** No feature is reported twice. */
  lemma DetectDistinct(m: Matcher, db: seq<Feature>, items: seq<string>)
    ensures DistinctIds(Detect(m, db, items))
  {
  }

  /** Scanning more items only appends: the report for a prefix of the items
      is a prefix of the report for all of them. */
  lemma {:induction false} FirstDetectionsPrefix(m: Matcher, a: seq<string>, b: seq<string>, db: seq<Feature>)
    ensures var whole := FirstDetections(m, a + b, db);
      var part := FirstDetections(m, a, db);
      |part| <= |whole| && whole[..|part|] == part
  {
    if b == [] {
      assert a + b == a;
    } else {
      var n := |b| - 1;
      assert (a + b)[..|a + b| - 1] == a + b[..n];
      FirstDetectionsPrefix(m, a, b[..n], db);
    }
  }

  lemma DetectPrefix(m: Matcher, db: seq<Feature>, a: seq<string>, b: seq<string>)
    requires DistinctIds(db)
    ensures var whole := Detect(m, db, a + b);
      var part := Detect(m, db, a);
      |part| <= |whole| && whole[..|part|] == part
  {
    DetectIsFirstDetections(m, db, a + b);
    DetectIsFirstDetections(m, db, a);
    FirstDetectionsPrefix(m, a, b, db);
  }

  /** Scanning an item a second time reports nothing new. */
  lemma RepeatedItem(m: Matcher, db: seq<Feature>, items: seq<string>, x: string)
    requires DistinctIds(db) && x in items
    ensures Detect(m, db, items + [x]) == Detect(m, db, items)
  {
    var all := items + [x];
    assert all[..|all| - 1] == items;
    forall i | 0 <= i < |db| ensures !FreshTest(m, items, x)(db[i]) {
      var j :| 0 <= j < |items| && items[j] == x;
    }
    Seqs.FilterNone(db, FreshTest(m, items, x));
    DetectIsFirstDetections(m, db, all);
    DetectIsFirstDetections(m, db, items);
    assert FirstDetections(m, all, db) == FirstDetections(m, items, db) + [];
  }

  lemma FirstDetectionsSnoc(m: Matcher, items: seq<string>, y: string, db: seq<Feature>)
    ensures FirstDetections(m, items + [y], db) == FirstDetections(m, items, db) + Fresh(m, items, y, db)
  {
    assert (items + [y])[..|items|] == items;
  }

  /** An item no feature hits (an empty text block, say) changes nothing,
      wherever it stands. */
  lemma {:induction false} InertItem(m: Matcher, db: seq<Feature>, a: seq<string>, x: string, b: seq<string>)
    requires forall f :: !Hits(m, x, f)
    ensures FirstDetections(m, a + [x] + b, db) == FirstDetections(m, a + b, db)
  {
    if b == [] {
      assert a + [x] + b == a + [x];
      assert a + b == a;
      FirstDetectionsSnoc(m, a, x, db);
      Seqs.FilterNone(db, FreshTest(m, a, x));
    } else {
      var n := |b| - 1;
      var p1, p2 := a + [x] + b[..n], a + b[..n];
      assert a + [x] + b == p1 + [b[n]];
      assert a + b == p2 + [b[n]];
      InertItem(m, db, a, x, b[..n]);
      FirstDetectionsSnoc(m, p1, b[n], db);
      FirstDetectionsSnoc(m, p2, b[n], db);
      forall i | 0 <= i < |db|
        ensures FreshTest(m, p1, b[n])(db[i]) == FreshTest(m, p2, b[n])(db[i])
      {
        InertPrior(m, a, x, b[..n], db[i]);
      }
      Seqs.FilterCongruent(db, FreshTest(m, p1, b[n]), FreshTest(m, p2, b[n]));
    }
  }

  lemma InertPrior(m: Matcher, a: seq<string>, x: string, b: seq<string>, f: Feature)
    requires !Hits(m, x, f)
    ensures HitBefore(m, a + [x] + b, f) <==> HitBefore(m, a + b, f)
  {
    var with, without := a + [x] + b, a + b;
    if HitBefore(m, with, f) {
      var j :| 0 <= j < |with| && Hits(m, with[j], f);
      if j < |a| {
        assert without[j] == with[j];
      } else {
        assert j > |a|;
        assert without[j - 1] == with[j];
      }
    }
    if HitBefore(m, without, f) {
      var j :| 0 <= j < |without| && Hits(m, without[j], f);
      if j < |a| {
        assert with[j] == without[j];
      } else {
        assert with[j + 1] == without[j];
      }
    }
  }

  /** Every reported feature belongs to the scanned partition. */
  lemma DetectWithin(m: Matcher, db: seq<Feature>, items: seq<string>)
    requires DistinctIds(db)
    ensures IdSet(Detect(m, db, items)) <= IdSet(db)
  {
    var d := Detect(m, db, items);
    forall x | x in IdSet(d) ensures x in IdSet(db) {
      IdSetMember(d, x);
      var i :| 0 <= i < |d| && d[i].id == x;
      DetectIff(m, db, items, d[i]);
      IdSetMember(db, x);
    }
  }
}
