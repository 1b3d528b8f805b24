/** The history dashboard (`HistoryManager`): stored analyses get synthetic
    selection ids, are searched by URL, selected, deleted and exported, and are
    saved back without the synthetic ids. */
module Options {
  import opened Wrappers
  import opened Strings
  import opened Content
  import Seqs

  /** A history entry as the dashboard holds it: the stored analysis plus its
      synthetic `_id`. */
  datatype Item = Item(entry: Analysis, uid: string)

  const SEPARATOR := '_'

  /** `item.timestamp + '_' + index` */
  function SyntheticId(timestamp: string, index: nat): string {
    timestamp + [SEPARATOR] + NatToString(index)
  }

  /** `loadHistory`: a missing history reads as empty. */
  function LoadHistory(stored: Option<seq<Analysis>>): (r: seq<Item>)
    ensures var h := stored.GetOr([]);
      |r| == |h| && forall i :: 0 <= i < |h| ==> r[i].entry == h[i]
    ensures var h := stored.GetOr([]);
      forall i :: 0 <= i < |h| ==> r[i].uid == h[i].timestamp + "_" + NatToString(i)
  {
    var h := stored.GetOr([]);
    seq(|h|, i requires 0 <= i < |h| => Item(h[i], SyntheticId(h[i].timestamp, i)))
  }

  /** `save`: the synthetic id is dropped again. */
  function Save(items: seq<Item>): (r: seq<Analysis>)
    ensures |r| == |items|
    ensures forall i :: 0 <= i < |items| ==> r[i] == items[i].entry
  {
    seq(|items|, i requires 0 <= i < |items| => items[i].entry)
  }

  /** Saving what was loaded writes back exactly the stored records. */
  lemma SaveAfterLoad(stored: Option<seq<Analysis>>)
    ensures Save(LoadHistory(stored)) == stored.GetOr([])
  {
  }

  /** The text after the last separator determines the whole: two ids that end
      in separator-free suffixes agree on both parts. */
  lemma {:induction false} SplitAtLast(a: string, b: string, d: string, e: string, c: char)
    requires c !in d && c !in e
    requires a + [c] + d == b + [c] + e
    ensures a == b && d == e
  {
    var s := a + [c] + d;
    var t := b + [c] + e;
    assert s[|a|] == c && t[|b|] == c;
    assert forall k :: |a| < k < |s| ==> s[k] == d[k - |a| - 1];
    assert forall k :: |b| < k < |t| ==> t[k] == e[k - |b| - 1];
    assert |a| == |b|;
    assert a == s[..|a|] && b == t[..|b|];
    assert d == s[|a| + 1..] && e == t[|b| + 1..];
  }

  /** Loaded items have pairwise distinct ids, whatever the timestamps. */
  lemma LoadedIdsDistinct(stored: Option<seq<Analysis>>, i: nat, j: nat)
    requires var h := stored.GetOr([]); i < |h| && j < |h| && i != j
    ensures LoadHistory(stored)[i].uid != LoadHistory(stored)[j].uid
  {
    var h := stored.GetOr([]);
    var r := LoadHistory(stored);
    if r[i].uid == r[j].uid {
      assert forall k :: 0 <= k < |NatToString(i)| ==> NatToString(i)[k] != SEPARATOR;
      assert forall k :: 0 <= k < |NatToString(j)| ==> NatToString(j)[k] != SEPARATOR;
      SplitAtLast(h[i].timestamp, h[j].timestamp, NatToString(i), NatToString(j), SEPARATOR);
      NatToStringInjective(i, j);
    }
  }

  // -----------------------------------------------------------------------
  // Search

  /** The URL part of `getFilteredHistory`; the search text is lower-cased as
      the input is read. */
  predicate MatchesSearch(search: string, item: Item) {
    var s := ToLower(search);
    s == "" || Includes(ToLower(item.entry.url), s)
  }

  /** The date part: `dayOf` stands for the ISO calendar day of a timestamp. */
  predicate MatchesDate(date: string, dayOf: string -> string, item: Item) {
    date == "" || dayOf(item.entry.timestamp) == date
  }

  function Keep(search: string, date: string, dayOf: string -> string): Item -> bool {
    (item: Item) => MatchesSearch(search, item) && MatchesDate(date, dayOf, item)
  }

  function FilteredHistory(history: seq<Item>, search: string, date: string, dayOf: string -> string): (r: seq<Item>)
    ensures Seqs.Subseq(r, history)
    ensures forall item :: item in r <==>
      item in history && MatchesSearch(search, item) && MatchesDate(date, dayOf, item)
    ensures forall item :: multiset(r)[item] ==
                           if MatchesSearch(search, item) && MatchesDate(date, dayOf, item)
                           then multiset(history)[item] else 0
  {
    var r := Seqs.Filter(history, Keep(search, date, dayOf));
    Seqs.FilterSubseq(history, Keep(search, date, dayOf));
    Seqs.FilterMultiset(history, Keep(search, date, dayOf));
    assert forall item :: item in r ==> Keep(search, date, dayOf)(item) by {
      forall item | item in r ensures Keep(search, date, dayOf)(item) {
        var i :| 0 <= i < |r| && r[i] == item;
      }
    }
    assert forall item :: item in history && Keep(search, date, dayOf)(item) ==> item in r by {
      forall item | item in history && Keep(search, date, dayOf)(item) ensures item in r {
        var i :| 0 <= i < |history| && history[i] == item;
      }
    }
    r
  }

  /** With no search text and no date every item is listed. */
  lemma EmptySearchKeepsAll(history: seq<Item>, dayOf: string -> string)
    ensures FilteredHistory(history, "", "", dayOf) == history
  {
    ToLowerEmpty("");
    Seqs.FilterAll(history, Keep("", "", dayOf));
  }

  // -----------------------------------------------------------------------
  // Selection

  function ToggleItem(selected: set<string>, id: string, checked: bool): (r: set<string>)
    ensures id in r <==> checked
    ensures forall x :: x != id ==> (x in r <==> x in selected)
  {
    if checked then selected + {id} else selected - {id}
  }

  /** Toggling is idempotent, and unchecking undoes checking an id that was not
      selected. */
  lemma ToggleItemTwice(selected: set<string>, id: string, checked: bool)
    ensures ToggleItem(ToggleItem(selected, id, checked), id, checked) == ToggleItem(selected, id, checked)
    ensures id !in selected ==> ToggleItem(ToggleItem(selected, id, true), id, false) == selected
  {
  }

  function Uids(items: seq<Item>): set<string> {
    if items == [] then {} else Uids(items[..|items| - 1]) + {items[|items| - 1].uid}
  }

  lemma {:induction false} UidsMember(items: seq<Item>, x: string)
    ensures x in Uids(items) <==> exists i :: 0 <= i < |items| && items[i].uid == x
  {
    if items != [] {
      var n := |items| - 1;
      UidsMember(items[..n], x);
      if exists i :: 0 <= i < n && items[..n][i].uid == x {
        var i :| 0 <= i < n && items[..n][i].uid == x;
        assert items[i].uid == x;
      }
      if exists i :: 0 <= i < |items| && items[i].uid == x {
        var i :| 0 <= i < |items| && items[i].uid == x;
        if i < n {
          assert items[..n][i].uid == x;
        }
      }
    }
  }

  /** `toggleAll` over the listed items, one `add`/`delete` per item. */
  function ToggleAll(selected: set<string>, listed: seq<Item>, checked: bool): (r: set<string>)
    ensures checked ==> r == selected + Uids(listed)
    ensures !checked ==> r == selected - Uids(listed)
  {
    if listed == [] then selected
    else
      var n := |listed| - 1;
      ToggleItem(ToggleAll(selected, listed[..n], checked), listed[n].uid, checked)
  }

  /** Selections outside the listed items are untouched by `toggleAll`. */
  lemma ToggleAllLocal(selected: set<string>, listed: seq<Item>, checked: bool, x: string)
    requires forall i :: 0 <= i < |listed| ==> listed[i].uid != x
    ensures x in ToggleAll(selected, listed, checked) <==> x in selected
  {
    UidsMember(listed, x);
  }

  // -----------------------------------------------------------------------
  // Deletion

  /** The dashboard's state, and what a mutation saved (if anything). */
  datatype State = State(history: seq<Item>, selected: set<string>)
  datatype Outcome = Outcome(state: State, saved: Option<seq<Analysis>>)

  function Unselected(selected: set<string>): Item -> bool {
    (item: Item) => item.uid !in selected
  }

  /** `deleteSelected`; nothing happens unless the user confirms. */
  function DeleteSelected(s: State, confirmed: bool): (o: Outcome)
    ensures !confirmed ==> o == Outcome(s, None)
    ensures confirmed ==>
      && o.state.selected == {}
      && Seqs.Subseq(o.state.history, s.history)
      && (forall item :: item in o.state.history <==> item in s.history && item.uid !in s.selected)
      && (forall item :: multiset(o.state.history)[item] ==
            if item.uid !in s.selected then multiset(s.history)[item] else 0)
      && o.saved == Some(Save(o.state.history))
  {
    if !confirmed then Outcome(s, None)
    else
      var kept := Seqs.Filter(s.history, Unselected(s.selected));
      FilterMembers(s.history, Unselected(s.selected));
      Seqs.FilterSubseq(s.history, Unselected(s.selected));
      Seqs.FilterMultiset(s.history, Unselected(s.selected));
      Outcome(State(kept, {}), Some(Save(kept)))
  }

  lemma FilterMembers(items: seq<Item>, p: Item -> bool)
    ensures forall item :: item in Seqs.Filter(items, p) <==> item in items && p(item)
  {
    var r := Seqs.Filter(items, p);
    forall item | item in r ensures item in items && p(item) {
      var i :| 0 <= i < |r| && r[i] == item;
    }
    forall item | item in items && p(item) ensures item in r {
      var i :| 0 <= i < |items| && items[i] == item;
    }
  }

  function OtherThan(id: string): Item -> bool {
    (item: Item) => item.uid != id
  }

  /** `deleteSingle(id)`; nothing happens unless the user confirms. */
  function DeleteSingle(s: State, id: string, confirmed: bool): (o: Outcome)
    ensures !confirmed ==> o == Outcome(s, None)
    ensures confirmed ==>
      && o.state.selected == s.selected - {id}
      && Seqs.Subseq(o.state.history, s.history)
      && (forall item :: item in o.state.history <==> item in s.history && item.uid != id)
      && (forall item :: multiset(o.state.history)[item] ==
            if item.uid != id then multiset(s.history)[item] else 0)
      && o.saved == Some(Save(o.state.history))
  {
    if !confirmed then Outcome(s, None)
    else
      var kept := Seqs.Filter(s.history, OtherThan(id));
      FilterMembers(s.history, OtherThan(id));
      Seqs.FilterSubseq(s.history, OtherThan(id));
      Seqs.FilterMultiset(s.history, OtherThan(id));
      Outcome(State(kept, s.selected - {id}), Some(Save(kept)))
  }

  /** Deleting one item is deleting a selection of just that item, apart from
      the rest of the selection, which `deleteSingle` keeps. */
  lemma DeleteSingleAsSelection(s: State, id: string)
    ensures DeleteSingle(s, id, true).state.history ==
      DeleteSelected(State(s.history, {id}), true).state.history
  {
    Seqs.FilterCongruent(s.history, OtherThan(id), Unselected({id}));
  }

  // -----------------------------------------------------------------------
  // Action buttons

  datatype Buttons = Buttons(exportDisabled: bool, deleteDisabled: bool, exportText: string, deleteText: string)

  const EXPORT_PREFIX := "Export ZIP"
  const DELETE_PREFIX := "Delete"

  /** `label (n)` for a positive count, the bare label otherwise. */
  function Counted(prefix: string, count: nat): string {
    if count > 0 then prefix + " (" + NatToString(count) + ")" else prefix
  }

  function UpdateActionButtons(selected: set<string>): (b: Buttons)
    ensures b.exportDisabled <==> |selected| == 0
    ensures b.deleteDisabled <==> |selected| == 0
    ensures |selected| == 0 ==> b.exportText == EXPORT_PREFIX && b.deleteText == DELETE_PREFIX
    ensures |selected| > 0 ==>
      CountShown(b.exportText, EXPORT_PREFIX) == Some(|selected|) &&
      CountShown(b.deleteText, DELETE_PREFIX) == Some(|selected|)
  {
    var n := |selected|;
    var b := Buttons(n == 0, n == 0, Counted(EXPORT_PREFIX, n), Counted(DELETE_PREFIX, n));
    if n > 0 then
      CountedShows(EXPORT_PREFIX, n);
      CountedShows(DELETE_PREFIX, n);
      b
    else b
  }

  /** Reads the count back out of a `label (n)` text. */
  function CountShown(text: string, prefix: string): Option<nat> {
    var head := prefix + " (";
    if |text| > |head| && StartsWith(text, head) && text[|text| - 1] == ')'
      && forall i :: |head| <= i < |text| - 1 ==> IsDigit(text[i])
    then
      var digits := text[|head|..|text| - 1];
      assert forall k :: 0 <= k < |digits| ==> IsDigit(digits[k]) by {
        forall k | 0 <= k < |digits| ensures IsDigit(digits[k]) {
          assert digits[k] == text[|head| + k];
        }
      }
      Some(ParseNat(digits))
    else None
  }

  lemma CountedShows(prefix: string, n: nat)
    requires n > 0
    ensures CountShown(Counted(prefix, n), prefix) == Some(n)
  {
    var head := prefix + " (";
    var digits := NatToString(n);
    var text := head + digits + ")";
    assert Counted(prefix, n) == text;
    assert text[..|head|] == head;
    assert text[|head|..|text| - 1] == digits;
    forall i | |head| <= i < |text| - 1 ensures IsDigit(text[i]) {
      assert text[i] == digits[i - |head|];
    }
    ParseNatToString(n);
  }

  // -----------------------------------------------------------------------
  // Export

  /** `report-<time>-<k>.json`; `timeOf` stands for `new Date(t).getTime()`
      rendered as text. */
  function FileName(time: string, k: nat): string {
    "report-" + time + "-" + NatToString(k) + ".json"
  }

  function IsSelected(selected: set<string>): Item -> bool {
    (item: Item) => item.uid in selected
  }

  /** `files[k]` is the `k`-th chosen item, synthetic id included, under its
      numbered name. */
  predicate Numbered(files: seq<(string, Item)>, chosen: seq<Item>, timeOf: string -> string) {
    && |files| == |chosen|
    && forall k :: 0 <= k < |files| ==>
         files[k] == (FileName(timeOf(chosen[k].entry.timestamp), k), chosen[k])
  }

  lemma NumberedSnoc(files: seq<(string, Item)>, chosen: seq<Item>, timeOf: string -> string, item: Item)
    requires Numbered(files, chosen, timeOf)
    ensures Numbered(files + [(FileName(timeOf(item.entry.timestamp), |files|), item)], chosen + [item], timeOf)
  {
  }

  /** One turn of the export loop keeps the numbering invariant. */
  lemma ExportStep(history: seq<Item>, selected: set<string>, timeOf: string -> string,
                   i: int, files: seq<(string, Item)>)
    requires 0 <= i < |history|
    requires Numbered(files, Seqs.Filter(history[..i], IsSelected(selected)), timeOf)
    ensures var item := history[i];
      var chosen := Seqs.Filter(history[..i + 1], IsSelected(selected));
      if item.uid in selected
      then Numbered(files + [(FileName(timeOf(item.entry.timestamp), |files|), item)], chosen, timeOf)
      else Numbered(files, chosen, timeOf)
  {
    var item := history[i];
    var before := Seqs.Filter(history[..i], IsSelected(selected));
    assert history[..i + 1][..i] == history[..i];
    Seqs.FilterLast(history[..i + 1], IsSelected(selected));
    if item.uid in selected {
      NumberedSnoc(files, before, timeOf, item);
    }
  }

  /** `exportSelected`: walks the history in order, numbering only the
      selected items, and writes each one whole (its `_id` included, since
      only `save` strips it); the running counter is the number of files so far. */
  method ExportSelected(history: seq<Item>, selected: set<string>, timeOf: string -> string)
    returns (files: seq<(string, Item)>)
    ensures Numbered(files, Seqs.Filter(history, IsSelected(selected)), timeOf)
  {
    files := [];
    var i := 0;
    while i < |history|
      invariant 0 <= i <= |history|
      invariant Numbered(files, Seqs.Filter(history[..i], IsSelected(selected)), timeOf)
    {
      var item := history[i];
      ExportStep(history, selected, timeOf, i, files);
      if item.uid in selected {
        files := files + [(FileName(timeOf(item.entry.timestamp), |files|), item)];
      }
      i := i + 1;
    }
    assert history[..i] == history;
  }

  /** Distinct export numbers make distinct file names, even for entries with
      the same timestamp. */
  lemma FileNamesDistinct(time: string, k: nat, m: nat)
    requires k != m
    ensures FileName(time, k) != FileName(time, m)
  {
    var a, b := NatToString(k), NatToString(m);
    if FileName(time, k) == FileName(time, m) {
      var head := "report-" + time + "-";
      assert FileName(time, k) == head + a + ".json";
      assert FileName(time, m) == head + b + ".json";
      assert |a| == |b|;
      assert a == FileName(time, k)[|head|..|head| + |a|];
      NatToStringInjective(k, m);
    }
  }
}
