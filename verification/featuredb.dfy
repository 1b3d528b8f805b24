/** The per-scan feature database of the content script: the stored records,
    reshaped and split into CSS, HTML and JavaScript partitions keyed by id. */
module FeatureDb {
  import opened Wrappers
  import opened Background
  import Seqs

  /** A feature as the content script prepares it: `group` is the record's
      kind and `element` repeats its id. */
  datatype Feature = Feature(
    id: string,
    name: Option<string>,
    status: string,
    group: string,
    description: Option<string>,
    element: string,
    browserSupport: map<string, string>)

  /** The record's fields carried over, its kind renamed to `group` and its
      id repeated as `element`; the record's `spec` is dropped. */
  function ToFeature(r: FeatureRecord): (f: Feature)
    ensures f.id == r.id && f.element == r.id && f.group == r.kind
    ensures f.name == r.name && f.status == r.status && f.description == r.description
    ensures f.browserSupport == r.browserSupport
  {
    Feature(r.id, r.name, r.status, r.kind, r.description, r.id, r.browserSupport)
  }

  /** `Object.values(baselineData)` reshaped one record at a time, in order. */
  function ToFeatures(rs: seq<FeatureRecord>): (fs: seq<Feature>)
    ensures |fs| == |rs|
    ensures forall i :: 0 <= i < |rs| ==> fs[i] == ToFeature(rs[i])
    ensures forall i :: 0 <= i < |rs| ==>
      && fs[i].id == rs[i].id && fs[i].element == rs[i].id && fs[i].group == rs[i].kind
      && fs[i].name == rs[i].name && fs[i].status == rs[i].status
      && fs[i].description == rs[i].description && fs[i].browserSupport == rs[i].browserSupport
  {
    seq(|rs|, i requires 0 <= i < |rs| => ToFeature(rs[i]))
  }

  predicate DistinctIds(fs: seq<Feature>) {
    forall i, j :: 0 <= i < j < |fs| ==> fs[i].id != fs[j].id
  }

  predicate HasId(fs: seq<Feature>, x: string) {
    exists i :: 0 <= i < |fs| && fs[i].id == x
  }

  /** The ids of `fs`, the "seen" set of a scan. */
  function IdSet(fs: seq<Feature>): set<string> {
    if fs == [] then {} else {fs[0].id} + IdSet(fs[1..])
  }

  lemma {:induction false} IdSetMember(fs: seq<Feature>, x: string)
    ensures x in IdSet(fs) <==> HasId(fs, x)
  {
    if fs != [] {
      IdSetMember(fs[1..], x);
      if HasId(fs[1..], x) {
        var i :| 0 <= i < |fs| - 1 && fs[1..][i].id == x;
        assert fs[i + 1].id == x;
      }
      if HasId(fs, x) && fs[0].id != x {
        var i :| 0 <= i < |fs| && fs[i].id == x;
        assert fs[1..][i - 1].id == x;
      }
    }
  }

  lemma {:induction false} IdSetAppend(fs: seq<Feature>, f: Feature)
    ensures IdSet(fs + [f]) == IdSet(fs) + {f.id}
  {
    if fs != [] {
      assert (fs + [f])[1..] == fs[1..] + [f];
      IdSetAppend(fs[1..], f);
    }
  }

  lemma {:induction false} IdSetConcat(a: seq<Feature>, b: seq<Feature>)
    ensures IdSet(a + b) == IdSet(a) + IdSet(b)
  {
    if a == [] {
      assert a + b == b;
    } else {
      assert (a + b)[1..] == a[1..] + b;
      IdSetConcat(a[1..], b);
    }
  }

  /** Within a sequence of distinct ids an id determines the feature. */
  lemma SameIdSameFeature(fs: seq<Feature>, f: Feature, g: Feature)
    requires DistinctIds(fs) && f in fs && g in fs && f.id == g.id
    ensures f == g
  {
  }

  /** `db[f.id] = f` on an insertion-ordered object (whose keys are distinct):
      an existing key keeps its position and takes the new value, a new key
      goes last. */
  function Put(db: seq<Feature>, f: Feature): (r: seq<Feature>)
    requires DistinctIds(db)
    ensures IdSet(r) == IdSet(db) + {f.id}
    ensures DistinctIds(r)
    ensures f.id !in IdSet(db) ==> r == db + [f]
  {
    if db == [] then [f]
    else if db[0].id == f.id then
      var r := [f] + db[1..];
      assert r[1..] == db[1..];
      r
    else
      var rest := Put(db[1..], f);
      var r := [db[0]] + rest;
      assert r[1..] == rest;
      IdSetMember(db[1..], db[0].id);
      IdSetMember(rest, db[0].id);
      assert DistinctIds(r) by {
        forall j | 0 < j < |r| ensures r[0].id != r[j].id {
          assert rest[j - 1] == r[j];
        }
      }
      assert f.id !in IdSet(db) ==> r == db + [f] by {
        assert db == [db[0]] + db[1..];
      }
      r
  }

  /** After `db[f.id] = f` the object holds `f`. */
  lemma {:induction false} PutContains(db: seq<Feature>, f: Feature)
    requires DistinctIds(db)
    ensures f in Put(db, f)
  {
    if db != [] && db[0].id != f.id {
      PutContains(db[1..], f);
      assert Put(db, f) == [db[0]] + Put(db[1..], f);
    }
  }

  /** Putting an id already present overwrites that one entry in place and
      leaves every other entry where it was. */
  lemma {:induction false} PutOverwrites(db: seq<Feature>, f: Feature)
    requires DistinctIds(db) && f.id in IdSet(db)
    ensures |Put(db, f)| == |db|
    ensures forall i :: 0 <= i < |db| ==> Put(db, f)[i] == if db[i].id == f.id then f else db[i]
  {
    if db[0].id != f.id {
      var rest := Put(db[1..], f);
      PutOverwrites(db[1..], f);
      assert Put(db, f) == [db[0]] + rest;
      forall i | 0 < i < |db|
        ensures Put(db, f)[i] == if db[i].id == f.id then f else db[i]
      {
        assert Put(db, f)[i] == rest[i - 1] && db[1..][i - 1] == db[i];
      }
    }
  }

  /** The three partitions. */
  datatype Part = CssPart | HtmlPart | JsPart

  /** `css` goes to css, `html` to html, any other kind to js. */
  function PartOf(kind: string): Part {
    if kind == CSS then CssPart
    else if kind == HTML then HtmlPart
    else JsPart
  }

  datatype Db = Db(css: seq<Feature>, html: seq<Feature>, js: seq<Feature>)

  function Partition(db: Db, p: Part): seq<Feature> {
    match p
    case CssPart => db.css
    case HtmlPart => db.html
    case JsPart => db.js
  }

  predicate WellFormed(db: Db) {
    DistinctIds(db.css) && DistinctIds(db.html) && DistinctIds(db.js)
  }

  /** Files one record under its partition. */
  function Insert(db: Db, r: FeatureRecord): (d: Db)
    requires WellFormed(db)
    ensures WellFormed(d)
    ensures Partition(d, PartOf(r.kind)) == Put(Partition(db, PartOf(r.kind)), ToFeature(r))
    ensures forall p :: p != PartOf(r.kind) ==> Partition(d, p) == Partition(db, p)
  {
    var f := ToFeature(r);
    match PartOf(r.kind)
    case CssPart => Db(Put(db.css, f), db.html, db.js)
    case HtmlPart => Db(db.css, Put(db.html, f), db.js)
    case JsPart => Db(db.css, db.html, Put(db.js, f))
  }

  /** `Object.values(records).forEach(...)` building `db`. */
  function BuildDb(records: seq<FeatureRecord>): (db: Db)
    ensures WellFormed(db)
  {
    if records == [] then Db([], [], [])
    else Insert(BuildDb(records[..|records| - 1]), records[|records| - 1])
  }

  function Selector(p: Part): FeatureRecord -> bool {
    (r: FeatureRecord) => PartOf(r.kind) == p
  }

  /** Reference: the records whose kind selects partition `p`, in order. */
  function Select(records: seq<FeatureRecord>, p: Part): seq<FeatureRecord> {
    Seqs.Filter(records, Selector(p))
  }

  lemma SelectLast(records: seq<FeatureRecord>, p: Part)
    requires records != []
    ensures var n := |records| - 1;
      Select(records, p) == Select(records[..n], p) + (if PartOf(records[n].kind) == p then [records[n]] else [])
  {
    var n := |records| - 1;
    assert records == records[..n] + [records[n]];
    Seqs.FilterAppend(records[..n], [records[n]], Selector(p));
    assert Seqs.Filter([records[n]], Selector(p)) == if PartOf(records[n].kind) == p then [records[n]] else [];
  }

  lemma ToFeaturesAppend(a: seq<FeatureRecord>, b: seq<FeatureRecord>)
    ensures ToFeatures(a + b) == ToFeatures(a) + ToFeatures(b)
  {
  }

  /** A record whose id is new to `front` is not yet among its partitions. */
  lemma NotSelectedYet(front: seq<FeatureRecord>, r: FeatureRecord, p: Part)
    requires forall i :: 0 <= i < |front| ==> front[i].id != r.id
    ensures r.id !in IdSet(ToFeatures(Select(front, p)))
  {
    var fs := ToFeatures(Select(front, p));
    IdSetMember(fs, r.id);
    forall i | 0 <= i < |fs| ensures fs[i].id != r.id {
      assert Select(front, p)[i] in front;
    }
  }

  lemma DistinctFront(records: seq<FeatureRecord>)
    requires DistinctRecordIds(records) && records != []
    ensures DistinctRecordIds(records[..|records| - 1])
    ensures forall i :: 0 <= i < |records| - 1 ==> records[i].id != records[|records| - 1].id
  {
  }

  /** One step of the build, on the partition the last record selects. */
  lemma PutSelected(records: seq<FeatureRecord>, p: Part)
    requires records != []
    requires var n := |records| - 1;
      forall i :: 0 <= i < n ==> records[i].id != records[n].id
    requires PartOf(records[|records| - 1].kind) == p
    requires DistinctIds(ToFeatures(Select(records[..|records| - 1], p)))
    ensures var n := |records| - 1;
      Put(ToFeatures(Select(records[..n], p)), ToFeature(records[n])) == ToFeatures(Select(records, p))
  {
    var n := |records| - 1;
    NotSelectedYet(records[..n], records[n], p);
    SelectLast(records, p);
    ToFeaturesAppend(Select(records[..n], p), [records[n]]);
  }

  /** With distinct record ids each partition is exactly its selected records,
      reshaped, in dataset order. */
  lemma {:induction false} BuildDbSelects(records: seq<FeatureRecord>, p: Part)
    requires DistinctRecordIds(records)
    ensures Partition(BuildDb(records), p) == ToFeatures(Select(records, p))
  {
    if records != [] {
      var n := |records| - 1;
      DistinctFront(records);
      BuildDbSelects(records[..n], p);
      var prev := BuildDb(records[..n]);
      assert BuildDb(records) == Insert(prev, records[n]);
      if PartOf(records[n].kind) == p {
        PutSelected(records, p);
      } else {
        SelectLast(records, p);
      }
    }
  }

  /** Every record lands in the partition of its kind and in no other: the
      partitions are disjoint by id. */
  lemma {:induction false} ExactlyOnePartition(records: seq<FeatureRecord>, k: int)
    requires DistinctRecordIds(records) && 0 <= k < |records|
    ensures ToFeature(records[k]) in Partition(BuildDb(records), PartOf(records[k].kind))
    ensures forall p :: p != PartOf(records[k].kind) ==>
      records[k].id !in IdSet(Partition(BuildDb(records), p))
  {
    var r := records[k];
    BuildDbSelects(records, PartOf(r.kind));
    assert r in Select(records, PartOf(r.kind));
    forall p | p != PartOf(r.kind)
      ensures r.id !in IdSet(Partition(BuildDb(records), p))
    {
      BuildDbSelects(records, p);
      var part := Partition(BuildDb(records), p);
      IdSetMember(part, r.id);
      var sel := Select(records, p);
      forall i | 0 <= i < |part| ensures part[i].id != r.id {
        assert part[i] == ToFeature(sel[i]);
        assert sel[i] in records;
      }
    }
  }

  /** Partitions of a dataset with distinct ids share no id. */
  lemma {:induction false} PartitionsDisjoint(records: seq<FeatureRecord>, p: Part, q: Part)
    requires DistinctRecordIds(records) && p != q
    ensures IdSet(Partition(BuildDb(records), p)) !! IdSet(Partition(BuildDb(records), q))
  {
    var pp := Partition(BuildDb(records), p);
    BuildDbSelects(records, p);
    forall x | x in IdSet(pp) ensures x !in IdSet(Partition(BuildDb(records), q)) {
      IdSetMember(pp, x);
      var i :| 0 <= i < |pp| && pp[i].id == x;
      var sel := Select(records, p);
      assert pp[i] == ToFeature(sel[i]);
      assert sel[i] in records;
      var k :| 0 <= k < |records| && records[k] == sel[i];
      ExactlyOnePartition(records, k);
    }
  }
}
