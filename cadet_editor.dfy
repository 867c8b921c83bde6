/** src/app/cadet-editor.js: the cadet table's handlers. Each handler is a
    function from the old cadet list to the new one (the `setCadets` call
    that stores it is not modelled); the parsers of the two text cells and the
    flattening of a cadet into an export row are modelled on their own. */
module CadetEditor {
  import opened Strings
  import opened Dicts
  import opened CadetModel
  import opened Pagination
  import CsvParse

  // ---------------------------------------------------------------------------
  // exportCadets

  /** The property key a preference value becomes: `String(value)`. */
  function ValueKey(v: PrefValue): string {
    match v
    case NullValue => "null"
    case RankValue(r) => IntToString(r)
    case TextValue(t) => t
  }

  /** The object `prefReorder` after `prefReorder[value] = key` for every entry, in order. */
  function ReorderOf(prefs: Prefs): Dict<string> {
    if prefs == [] then []
    else Put(ReorderOf(prefs[..|prefs| - 1]), ValueKey(prefs[|prefs| - 1].1), prefs[|prefs| - 1].0)
  }

  /** Lines 33-36: the `forEach` that inverts the preference object. */
  method PrefReorder(prefs: Prefs) returns (prefReorder: Dict<string>)
    ensures prefReorder == ReorderOf(prefs)
  {
    prefReorder := [];
    for i := 0 to |prefs|
      invariant prefReorder == ReorderOf(prefs[..i])
    {
      assert prefs[..i + 1][..i] == prefs[..i];
      var (key, value) := prefs[i];
      prefReorder := Put(prefReorder, ValueKey(value), key);
    }
    assert prefs[..|prefs|] == prefs;
  }

  /** The AFSC of the last entry whose value reads as `rank`. */
  function RankedAs(prefs: Prefs, rank: string): Option<string> {
    if prefs == [] then None
    else if ValueKey(prefs[|prefs| - 1].1) == rank then Some(prefs[|prefs| - 1].0)
    else RankedAs(prefs[..|prefs| - 1], rank)
  }

  /** `prefReorder[rank]` names the last AFSC ranked `rank`, if any. */
  lemma {:induction false} ReorderGet(prefs: Prefs, rank: string)
    ensures Get(ReorderOf(prefs), rank) == RankedAs(prefs, rank)
  {
    if prefs != [] {
      var init := prefs[..|prefs| - 1];
      ReorderGet(init, rank);
      PutGet(ReorderOf(init), ValueKey(prefs[|prefs| - 1].1), prefs[|prefs| - 1].0);
    }
  }

  /** The entry `RankedAs` finds has that rank and no later entry has it. */
  lemma {:induction false} RankedAsIndex(prefs: Prefs, rank: string, i: nat)
    requires i < |prefs| && ValueKey(prefs[i].1) == rank
    requires forall j :: i < j < |prefs| ==> ValueKey(prefs[j].1) != rank
    ensures RankedAs(prefs, rank) == Some(prefs[i].0)
  {
    var n := |prefs| - 1;
    if i < n {
      RankedAsIndex(prefs[..n], rank, i);
    }
  }

  /** No entry with that rank, no AFSC. */
  lemma {:induction false} RankedAsNone(prefs: Prefs, rank: string)
    requires forall j :: 0 <= j < |prefs| ==> ValueKey(prefs[j].1) != rank
    ensures RankedAs(prefs, rank) == None
  {
    if prefs != [] {
      RankedAsNone(prefs[..|prefs| - 1], rank);
    }
  }

  /** `prefReorder[k] || ""`: the AFSC ranked `k`; a missing key and the empty
      key both give "". */
  function RankSlot(prefReorder: Dict<string>, k: nat): string {
    if Get(prefReorder, NatToString(k)).Some? then Get(prefReorder, NatToString(k)).value else ""
  }

  /** The keys whose degree tier is `tier`, in object order:
      `Object.entries(d).filter(([_, value]) => value === tier).map(([key]) => key)`. */
  function KeysWithTier(degrees: Degrees, tier: string): seq<string> {
    if degrees == [] then []
    else
      var last := degrees[|degrees| - 1];
      KeysWithTier(degrees[..|degrees| - 1], tier) + if last.1 == tier then [last.0] else []
  }

  /** A key is listed exactly when its entry has that tier. */
  lemma {:induction false} KeysWithTierIff(degrees: Degrees, tier: string, k: string)
    ensures k in KeysWithTier(degrees, tier) <==> (k, tier) in degrees
  {
    if degrees != [] {
      var init := degrees[..|degrees| - 1];
      KeysWithTierIff(init, tier, k);
      assert degrees == init + [degrees[|degrees| - 1]];
    }
  }

  /** One row of the exported sheet. */
  datatype CadetRow = CadetRow(
    name: string,
    p1: string, p2: string, p3: string, p4: string, p5: string, p6: string,
    percentile: real,
    usafa_origin: string,
    mandatory_degree: string,
    desired_degree: string,
    permitted_degree: string)

  /** Column `p<k>` of a row, for k in 1 .. 6. */
  function RankColumn(row: CadetRow, k: nat): string
    requires 1 <= k <= 6
  {
    match k
    case 1 => row.p1
    case 2 => row.p2
    case 3 => row.p3
    case 4 => row.p4
    case 5 => row.p5
    case 6 => row.p6
  }

  /** The callback of `cadets.map` in `exportCadets`. */
  function ExportCadet(c: AppCadet): CadetRow {
    var prefReorder := ReorderOf(c.cadetPreferences);
    CadetRow(
      c.name,
      RankSlot(prefReorder, 1), RankSlot(prefReorder, 2), RankSlot(prefReorder, 3),
      RankSlot(prefReorder, 4), RankSlot(prefReorder, 5), RankSlot(prefReorder, 6),
      c.cadetPercentile,
      UsafaOrigin(c.cadetFromUSAFA),
      DegreeColumn(c.cadetDegrees, MANDATORY),
      DegreeColumn(c.cadetDegrees, DESIRED),
      DegreeColumn(c.cadetDegrees, PERMITTED))
  }

  /** `cadet.cadetFromUSAFA ? "TRUE" : "FALSE"`. */
  function UsafaOrigin(fromUsafa: bool): string {
    if fromUsafa then "TRUE" else "FALSE"
  }

  /** The keys with tier `tier`, joined by "|". */
  function DegreeColumn(degrees: Degrees, tier: string): string {
    Join(KeysWithTier(degrees, tier), "|")
  }

  /** `exportCadets(cadets)` up to the sheet it hands to the XLSX library: one row per cadet, in order. */
  function ExportCadets(cadets: seq<AppCadet>): (rows: seq<CadetRow>)
    ensures |rows| == |cadets|
    ensures forall i :: 0 <= i < |cadets| ==> rows[i] == ExportCadet(cadets[i])
  {
    seq(|cadets|, i requires 0 <= i < |cadets| => ExportCadet(cadets[i]))
  }

  lemma RankColumnSlot(c: AppCadet, k: nat)
    requires 1 <= k <= 6
    ensures RankColumn(ExportCadet(c), k) == RankSlot(ReorderOf(c.cadetPreferences), k)
  {
    var prefReorder := ReorderOf(c.cadetPreferences);
    match k
    case 1 => assert ExportCadet(c).p1 == RankSlot(prefReorder, 1);
    case 2 => assert ExportCadet(c).p2 == RankSlot(prefReorder, 2);
    case 3 => assert ExportCadet(c).p3 == RankSlot(prefReorder, 3);
    case 4 => assert ExportCadet(c).p4 == RankSlot(prefReorder, 4);
    case 5 => assert ExportCadet(c).p5 == RankSlot(prefReorder, 5);
    case 6 => assert ExportCadet(c).p6 == RankSlot(prefReorder, 6);
  }

  /** Column `p<k>` holds the AFSC ranked `k`; when two AFSCs share the rank,
      the one later in the preference object wins. */
  lemma ExportedRank(c: AppCadet, k: nat, i: nat)
    requires 1 <= k <= 6 && i < |c.cadetPreferences|
    requires ValueKey(c.cadetPreferences[i].1) == NatToString(k)
    requires forall j :: i < j < |c.cadetPreferences| ==> ValueKey(c.cadetPreferences[j].1) != NatToString(k)
    ensures RankColumn(ExportCadet(c), k) == c.cadetPreferences[i].0
  {
    RankColumnSlot(c, k);
    ReorderGet(c.cadetPreferences, NatToString(k));
    RankedAsIndex(c.cadetPreferences, NatToString(k), i);
  }

  /** Column `p<k>` is empty when no AFSC is ranked `k`. */
  lemma ExportedRankMissing(c: AppCadet, k: nat)
    requires 1 <= k <= 6
    requires forall j :: 0 <= j < |c.cadetPreferences| ==> ValueKey(c.cadetPreferences[j].1) != NatToString(k)
    ensures RankColumn(ExportCadet(c), k) == ""
  {
    RankColumnSlot(c, k);
    ReorderGet(c.cadetPreferences, NatToString(k));
    RankedAsNone(c.cadetPreferences, NatToString(k));
  }

  /** A degree column splits on "|" back into the keys with that tier, when
      some key has it and no key holds a "|". */
  lemma ExportedDegrees(c: AppCadet, tier: string)
    requires KeysWithTier(c.cadetDegrees, tier) != []
    requires forall k :: k in Keys(c.cadetDegrees) ==> '|' !in k
    ensures Split(Join(KeysWithTier(c.cadetDegrees, tier), "|"), '|') == KeysWithTier(c.cadetDegrees, tier)
  {
    var ks := KeysWithTier(c.cadetDegrees, tier);
    forall j | 0 <= j < |ks| ensures '|' !in ks[j] {
      KeysWithTierIff(c.cadetDegrees, tier, ks[j]);
      var i :| 0 <= i < |c.cadetDegrees| && c.cadetDegrees[i] == (ks[j], tier);
      assert Keys(c.cadetDegrees)[i] == ks[j];
    }
    SplitJoinExact(ks, '|');
  }

  // ---------------------------------------------------------------------------
  // addCadet and deleteCadet

  /** The cadet `addCadet` appends: no name, the six numbered placeholder
      preferences, percentile 0, not from USAFA, one empty Permitted degree. */
  function BlankCadet(): AppCadet {
    AppCadet(
      "",
      [("1", TextValue("")), ("2", TextValue("")), ("3", TextValue("")),
       ("4", TextValue("")), ("5", TextValue("")), ("6", TextValue(""))],
      0.0,
      false,
      [("", PERMITTED)])
  }

  /** `setCadets([...cadets, newCadet])`. */
  function AddCadet(cadets: seq<AppCadet>): (r: seq<AppCadet>)
    ensures |r| == |cadets| + 1 && r[..|cadets|] == cadets && r[|cadets|] == BlankCadet()
  {
    cadets + [BlankCadet()]
  }

  /** A new cadet exports as an empty row: its placeholders rank nothing and
      its one degree has an empty key. */
  lemma BlankCadetExport(c: AppCadet)
    requires c == BlankCadet()
    ensures ExportCadet(c) == CadetRow("", "", "", "", "", "", "", 0.0, "FALSE", "", "", "")
  {
    var row := ExportCadet(c);
    forall k | 1 <= k <= 6
      ensures RankColumn(row, k) == ""
    {
      BlankRanksNothing(c, k);
    }
    assert row.p1 == RankColumn(row, 1) && row.p2 == RankColumn(row, 2) && row.p3 == RankColumn(row, 3);
    assert row.p4 == RankColumn(row, 4) && row.p5 == RankColumn(row, 5) && row.p6 == RankColumn(row, 6);
    BlankDegreeColumns(c.cadetDegrees);
  }

  lemma BlankRanksNothing(c: AppCadet, k: nat)
    requires c == BlankCadet() && 1 <= k <= 6
    ensures RankColumn(ExportCadet(c), k) == ""
  {
    var prefs := c.cadetPreferences;
    forall j | 0 <= j < |prefs| ensures ValueKey(prefs[j].1) != NatToString(k) {
      assert ValueKey(prefs[j].1) == "";
    }
    ExportedRankMissing(c, k);
  }

  lemma BlankDegreeColumns(d: Degrees)
    requires d == BlankCadet().cadetDegrees
    ensures DegreeColumn(d, MANDATORY) == ""
    ensures DegreeColumn(d, DESIRED) == ""
    ensures DegreeColumn(d, PERMITTED) == ""
  {
    assert d[..0] == [];
    assert KeysWithTier(d, PERMITTED) == [""];
    assert KeysWithTier(d, MANDATORY) == [];
    assert KeysWithTier(d, DESIRED) == [];
  }

  /** `newCadets.splice(index, 1)` on a copy: element `index` goes, the rest
      keep their order; an index past the end removes nothing. */
  function DeleteCadet(cadets: seq<AppCadet>, index: nat): (r: seq<AppCadet>)
    ensures index < |cadets| ==> |r| == |cadets| - 1
    ensures index < |cadets| ==> forall k :: 0 <= k < index ==> r[k] == cadets[k]
    ensures index < |cadets| ==> forall k :: index <= k < |r| ==> r[k] == cadets[k + 1]
    ensures index >= |cadets| ==> r == cadets
  {
    if index < |cadets| then cadets[..index] + cadets[index + 1..] else cadets
  }

  /** The delete button of row `row` as written: it passes the row's position
      on the page, not in the list. */
  function DeleteRowAsWritten(cadets: seq<AppCadet>, page: nat, row: nat): seq<AppCadet>
    requires page >= 1
  {
    DeleteCadet(cadets, row)
  }

  /** The delete button of row `row` with the page offset added. */
  function DeleteRow(cadets: seq<AppCadet>, page: nat, row: nat): seq<AppCadet>
    requires page >= 1
  {
    DeleteCadet(cadets, RowPosition(page, row))
  }

  predicate DistinctCadets(cadets: seq<AppCadet>) {
    forall i, j :: 0 <= i < j < |cadets| ==> cadets[i] != cadets[j]
  }

  /** Element `i` of a list of distinct cadets is gone after deleting it. */
  lemma DeletedIsGone(cadets: seq<AppCadet>, i: nat)
    requires DistinctCadets(cadets) && i < |cadets|
    ensures cadets[i] !in DeleteCadet(cadets, i)
  {
    var r := DeleteCadet(cadets, i);
    forall k | 0 <= k < |r| ensures r[k] != cadets[i] {
      if k >= i {
        assert r[k] == cadets[k + 1];
      }
    }
  }

  /** On any page after the first, the delete button of row `row` as written
      removes the cadet at list position `row`, on an earlier page, and the
      cadet the row shows stays. */
  lemma DeleteRowAsWrittenMissesRow(cadets: seq<AppCadet>, page: nat, row: nat)
    requires page >= 2 && row < |PageSlice(cadets, page)| && DistinctCadets(cadets)
    ensures row < RowPosition(page, row) < |cadets|
    ensures PageSlice(cadets, page)[row] in DeleteRowAsWritten(cadets, page, row)
    ensures cadets[row] !in DeleteRowAsWritten(cadets, page, row)
  {
    RowPositionShown(cadets, page, row);
    DeletedIsGone(cadets, row);
    var p := RowPosition(page, row);
    assert DeleteRowAsWritten(cadets, page, row)[p - 1] == cadets[p];
  }

  /** With the offset, deleting row `row` removes exactly the cadet the row shows. */
  lemma DeleteRowRemovesShownCadet(cadets: seq<AppCadet>, page: nat, row: nat)
    requires page >= 1 && row < |PageSlice(cadets, page)|
    ensures RowPosition(page, row) < |cadets|
    ensures DeleteRow(cadets, page, row)
            == cadets[..RowPosition(page, row)] + cadets[RowPosition(page, row) + 1..]
    ensures cadets[RowPosition(page, row)] == PageSlice(cadets, page)[row]
    ensures DistinctCadets(cadets) ==> PageSlice(cadets, page)[row] !in DeleteRow(cadets, page, row)
  {
    RowPositionShown(cadets, page, row);
    if DistinctCadets(cadets) {
      DeletedIsGone(cadets, RowPosition(page, row));
    }
  }

  // ---------------------------------------------------------------------------
  // The cell handlers of a row

  /** `newCadets[index].name = value`. */
  function SetName(cadets: seq<AppCadet>, index: nat, value: string): (r: seq<AppCadet>)
    requires index < |cadets|
    ensures |r| == |cadets| && forall k :: 0 <= k < |cadets| && k != index ==> r[k] == cadets[k]
    ensures r[index].name == value
    ensures r[index].cadetPreferences == cadets[index].cadetPreferences
    ensures r[index].cadetPercentile == cadets[index].cadetPercentile
    ensures r[index].cadetFromUSAFA == cadets[index].cadetFromUSAFA
    ensures r[index].cadetDegrees == cadets[index].cadetDegrees
  {
    cadets[index := cadets[index].(name := value)]
  }

  /** `newCadets[index].cadetPercentile = value`, with the number the input's text stands for. */
  function SetPercentile(cadets: seq<AppCadet>, index: nat, value: real): (r: seq<AppCadet>)
    requires index < |cadets|
    ensures |r| == |cadets| && forall k :: 0 <= k < |cadets| && k != index ==> r[k] == cadets[k]
    ensures r[index].cadetPercentile == value
    ensures r[index].name == cadets[index].name
    ensures r[index].cadetPreferences == cadets[index].cadetPreferences
    ensures r[index].cadetFromUSAFA == cadets[index].cadetFromUSAFA
    ensures r[index].cadetDegrees == cadets[index].cadetDegrees
  {
    cadets[index := cadets[index].(cadetPercentile := value)]
  }

  /** `newCadets[index].cadetFromUSAFA = checked`. */
  function SetFromUsafa(cadets: seq<AppCadet>, index: nat, checked: bool): (r: seq<AppCadet>)
    requires index < |cadets|
    ensures |r| == |cadets| && forall k :: 0 <= k < |cadets| && k != index ==> r[k] == cadets[k]
    ensures r[index].cadetFromUSAFA == checked
    ensures r[index].name == cadets[index].name
    ensures r[index].cadetPreferences == cadets[index].cadetPreferences
    ensures r[index].cadetPercentile == cadets[index].cadetPercentile
    ensures r[index].cadetDegrees == cadets[index].cadetDegrees
  {
    cadets[index := cadets[index].(cadetFromUSAFA := checked)]
  }

  // ---------------------------------------------------------------------------
  // The preferences cell

  /** `Object.keys(cadet.cadetPreferences).join(", ")`: the text the cell starts with. */
  function PreferencesText(prefs: Prefs): string {
    Join(Keys(prefs), ", ")
  }

  /** The object after the first `n` items were assigned their ranks. */
  function RankedItems(items: seq<string>, n: nat): Prefs
    requires n <= |items|
  {
    if n == 0 then [] else Put(RankedItems(items, n - 1), items[n - 1], RankValue(n))
  }

  /** `text.split(",").map((pref) => pref.trim())`. */
  function PreferenceItems(text: string): seq<string> {
    TrimAll(Split(text, ','))
  }

  /** The first six items, or all of them when there are fewer. */
  function RankedCount(items: seq<string>): nat {
    Min(|items|, 6)
  }

  /** The object the preferences cell produces from `text`. */
  function PreferencesOf(text: string): Prefs {
    RankedItems(PreferenceItems(text), RankedCount(PreferenceItems(text)))
  }

  /** Lines 219-226: the `forEach` that ranks the items and skips those after the sixth. */
  method ParsePreferences(text: string) returns (newPreferences: Prefs)
    ensures newPreferences == PreferencesOf(text)
  {
    var preferences := TrimAll(Split(text, ','));
    newPreferences := [];
    for index := 0 to |preferences|
      invariant newPreferences == RankedItems(preferences, Min(index, 6))
    {
      if index <= 5 {
        newPreferences := Put(newPreferences, preferences[index], RankValue(index + 1));
      }
    }
  }

  /** An item among the first `n` reads the rank of its last occurrence there;
      any other name is absent. */
  lemma {:induction false} RankedItemsGet(items: seq<string>, n: nat, k: string)
    requires n <= |items|
    ensures Get(RankedItems(items, n), k) == RankOf(items[..n], k)
  {
    if n > 0 {
      var init, x := items[..n - 1], items[n - 1];
      var prev := RankedItems(items, n - 1);
      TakeSnoc(items, n);
      RankedItemsGet(items, n - 1, k);
      RankStep(prev, init, x, n, k);
    }
  }

  /** The rank a list of items gives `k`: the position, counted from one, of
      its last occurrence. */
  function RankOf(items: seq<string>, k: string): Option<PrefValue>
    decreases |items|
  {
    if items == [] then None
    else if items[|items| - 1] == k then Some(RankValue(|items|))
    else RankOf(items[..|items| - 1], k)
  }

  lemma RankOfSnoc(init: seq<string>, x: string, k: string)
    ensures RankOf(init + [x], k) == if k == x then Some(RankValue(|init| + 1)) else RankOf(init, k)
  {
    var s := init + [x];
    assert s[|s| - 1] == x;
    assert s[..|s| - 1] == init;
  }

  /** `RankOf` in terms of the last index of `k`. */
  lemma {:induction false} RankOfLastIndex(items: seq<string>, k: string)
    ensures RankOf(items, k) == if k in items then Some(RankValue(CsvParse.LastIndex(items, k) + 1)) else None
  {
    if items != [] {
      var init, x := items[..|items| - 1], items[|items| - 1];
      assert items == init + [x];
      RankOfLastIndex(init, k);
      RankOfSnoc(init, x, k);
      LastIndexSnoc(init, x, k);
    }
  }

  /** Ranking one more item `x` as `n`. */
  lemma RankStep(prev: Prefs, init: seq<string>, x: string, n: nat, k: string)
    requires n == |init| + 1
    requires Get(prev, k) == RankOf(init, k)
    ensures Get(Put(prev, x, RankValue(n)), k) == RankOf(init + [x], k)
  {
    PutGet(prev, x, RankValue(n));
    RankOfSnoc(init, x, k);
  }

  /** The last index of `k` after appending `x`. */
  lemma LastIndexSnoc(init: seq<string>, x: string, k: string)
    ensures k in init + [x] <==> k == x || k in init
    ensures k == x ==> CsvParse.LastIndex(init + [x], k) == |init|
    ensures k != x && k in init ==> CsvParse.LastIndex(init + [x], k) == CsvParse.LastIndex(init, k)
  {
    var s := init + [x];
    assert s[|s| - 1] == x;
    assert s[..|s| - 1] == init;
  }

  /** The object never has more than `n` keys, nor a key twice. */
  lemma {:induction false} RankedItemsSize(items: seq<string>, n: nat)
    requires n <= |items|
    ensures |RankedItems(items, n)| <= n
  {
    if n > 0 {
      var prev := RankedItems(items, n - 1);
      assert RankedItems(items, n) == Put(prev, items[n - 1], RankValue(n));
      RankedItemsSize(items, n - 1);
      PutLength(prev, items[n - 1], RankValue(n));
    }
  }

  lemma {:induction false} RankedItemsDistinct(items: seq<string>, n: nat)
    requires n <= |items|
    ensures DistinctKeys(RankedItems(items, n))
  {
    if n > 0 {
      var prev := RankedItems(items, n - 1);
      assert RankedItems(items, n) == Put(prev, items[n - 1], RankValue(n));
      RankedItemsDistinct(items, n - 1);
      PutDistinct(prev, items[n - 1], RankValue(n));
    }
  }

  /** The cell keeps at most six names, none twice. */
  lemma ParsedPreferencesSize(text: string)
    ensures |PreferencesOf(text)| <= 6 && DistinctKeys(PreferencesOf(text))
  {
    RankedItemsSize(PreferenceItems(text), RankedCount(PreferenceItems(text)));
    RankedItemsDistinct(PreferenceItems(text), RankedCount(PreferenceItems(text)));
  }

  /** Each of the first six items reads the rank of its last occurrence among
      them (so ranks may have gaps) and nothing after the sixth item counts. */
  lemma ParsedPreferencesGet(text: string, k: string)
    ensures var items := PreferenceItems(text)[..RankedCount(PreferenceItems(text))];
            Get(PreferencesOf(text), k) == if k in items then Some(RankValue(CsvParse.LastIndex(items, k) + 1)) else None
  {
    var all := PreferenceItems(text);
    RankedItemsGet(all, RankedCount(all), k);
    RankOfLastIndex(all[..RankedCount(all)], k);
  }

  /** Every name the cell keeps is trimmed. */
  lemma ParsedPreferencesTrimmed(text: string, k: string)
    requires k in Keys(PreferencesOf(text))
    ensures Trimmed(k)
  {
    var all := PreferenceItems(text);
    var n := RankedCount(all);
    RankedItemsGet(all, n, k);
    RankOfLastIndex(all[..n], k);
    assert k in all[..n];
    var i :| 0 <= i < n && all[i] == k;
    TrimIsTrimmed(Split(text, ',')[i]);
  }

  /** With distinct keys, the key of entry `i` is not among the keys before it. */
  lemma KeyNotBefore<V>(d: Dict<V>, i: nat)
    requires DistinctKeys(d) && i < |d|
    ensures d[i].0 !in Keys(d[..i])
  {
    var ks := Keys(d[..i]);
    forall j | 0 <= j < i ensures ks[j] != d[i].0 {
      assert d[..i][j] == d[j];
    }
  }

  /** Ranking distinct names one after another gives one fresh entry each. */
  lemma {:induction false} RankedDistinctItems(prefs: Prefs, n: nat)
    requires n <= |prefs| && DistinctKeys(prefs)
    requires forall i :: 0 <= i < |prefs| ==> prefs[i].1 == RankValue(i + 1)
    ensures RankedItems(Keys(prefs), n) == prefs[..n]
  {
    if n > 0 {
      var ks := Keys(prefs);
      RankedDistinctItems(prefs, n - 1);
      KeyNotBefore(prefs, n - 1);
      PutNewKey(prefs[..n - 1], ks[n - 1], RankValue(n));
      TakeSnoc(prefs, n);
    }
  }

  /** The cell's own text parses back to the object it shows: one to six
      distinct trimmed names without commas, ranked 1, 2, … in order. None
      of them may be integer-like, or JavaScript would list it first. */
  lemma PreferencesRoundTrip(prefs: Prefs)
    requires 1 <= |prefs| <= 6 && DistinctKeys(prefs)
    requires forall i :: 0 <= i < |prefs| ==> prefs[i].1 == RankValue(i + 1)
    requires forall i :: 0 <= i < |prefs| ==> Trimmed(prefs[i].0) && ',' !in prefs[i].0
    requires forall i :: 0 <= i < |prefs| ==> !IntegerLike(prefs[i].0)
    ensures PreferencesOf(PreferencesText(prefs)) == prefs
  {
    var ks := Keys(prefs);
    ItemsOfJoin(ks);
    assert PreferenceItems(PreferencesText(prefs)) == ks;
    RankedDistinctItems(prefs, |prefs|);
    assert prefs[..|prefs|] == prefs;
  }

  /** Trimmed, comma-free pieces joined by ", " split and trim back to themselves. */
  lemma ItemsOfJoin(ks: seq<string>)
    requires |ks| >= 1
    requires forall i :: 0 <= i < |ks| ==> Trimmed(ks[i]) && ',' !in ks[i]
    ensures TrimAll(Split(Join(ks, ", "), ',')) == ks
  {
    assert [','] + " " == ", ";
    SplitJoin(ks, ',', " ");
    TrimPadded(ks);
  }

  /** Trimming drops the space put in front of every trimmed piece but the first. */
  lemma TrimPadded(ks: seq<string>)
    requires forall i :: 0 <= i < |ks| ==> Trimmed(ks[i])
    ensures TrimAll(PadTail(ks, " ")) == ks
  {
    var pieces := PadTail(ks, " ");
    var items := TrimAll(pieces);
    forall i | 0 <= i < |ks| ensures items[i] == ks[i] {
      if i == 0 {
        TrimmedIsFixpoint(ks[0]);
      } else {
        TrimAfterSpace(ks[i]);
      }
    }
  }

  /** `newCadets[index].cadetPreferences = newPreferences` after the cell loses focus. */
  function SetPreferences(cadets: seq<AppCadet>, index: nat, text: string): (r: seq<AppCadet>)
    requires index < |cadets|
    ensures |r| == |cadets| && forall k :: 0 <= k < |cadets| && k != index ==> r[k] == cadets[k]
    ensures r[index].cadetPreferences == PreferencesOf(text)
    ensures r[index].name == cadets[index].name
    ensures r[index].cadetPercentile == cadets[index].cadetPercentile
    ensures r[index].cadetFromUSAFA == cadets[index].cadetFromUSAFA
    ensures r[index].cadetDegrees == cadets[index].cadetDegrees
  {
    cadets[index := cadets[index].(cadetPreferences := PreferencesOf(text))]
  }

  // ---------------------------------------------------------------------------
  // The degrees cell

  /** `value !== "Mandatory" || value !== "Desired" || value !== "Permitted" ? value : DegreeEnum.PERMITTED`:
      no string equals two different tiers, so the test always holds and the
      value is kept as typed, whether or not it names a tier. */
  function TierChoice(value: string): (t: string)
    ensures t == value
  {
    if value != "Mandatory" || value != "Desired" || value != "Permitted" then value else PERMITTED
  }

  /** `degree.split(":").map((d) => d.trim())` destructured to `[key, value]` and
      kept when both are non-empty (a missing `value` is `undefined`). */
  function DegreeEntry(degree: string): Option<(string, string)> {
    var parts := TrimAll(Split(degree, ':'));
    if parts[0] != "" && |parts| > 1 && parts[1] != "" then Some((parts[0], TierChoice(parts[1]))) else None
  }

  /** `.filter((degree) => degree !== "")`. */
  function NonEmpty(items: seq<string>): (r: seq<string>)
    ensures forall x :: x in r <==> x in items && x != ""
  {
    if items == [] then []
    else
      var init := items[..|items| - 1];
      assert items == init + [items[|items| - 1]];
      NonEmpty(init) + if items[|items| - 1] != "" then [items[|items| - 1]] else []
  }

  lemma {:induction false} NonEmptyKeepsAll(items: seq<string>)
    requires forall i :: 0 <= i < |items| ==> items[i] != ""
    ensures NonEmpty(items) == items
  {
    if items != [] {
      var init := items[..|items| - 1];
      NonEmptyKeepsAll(init);
      assert items == init + [items[|items| - 1]];
    }
  }

  /** The object after the items were visited: each kept entry assigned in turn. */
  function DegreesFrom(items: seq<string>): Degrees {
    if items == [] then []
    else
      var prev := DegreesFrom(items[..|items| - 1]);
      match DegreeEntry(items[|items| - 1])
      case Some(e) => Put(prev, e.0, e.1)
      case None => prev
  }

  /** `text.split(",").map((degree) => degree.trim()).filter((degree) => degree !== "")`. */
  function DegreeItems(text: string): seq<string> {
    NonEmpty(TrimAll(Split(text, ',')))
  }

  /** The object the degrees cell produces from `text`. */
  function DegreesOf(text: string): Degrees {
    DegreesFrom(DegreeItems(text))
  }

  /** Lines 269-282: the `forEach` that fills `newDegrees`. */
  method ParseDegrees(text: string) returns (newDegrees: Degrees)
    ensures newDegrees == DegreesOf(text)
  {
    var degrees := NonEmpty(TrimAll(Split(text, ',')));
    newDegrees := [];
    for i := 0 to |degrees|
      invariant newDegrees == DegreesFrom(degrees[..i])
    {
      DegreesFromStep(degrees, i + 1);
      var parts := TrimAll(Split(degrees[i], ':'));
      var key := parts[0];
      if key != "" && |parts| > 1 && parts[1] != "" {
        newDegrees := Put(newDegrees, key, TierChoice(parts[1]));
      }
    }
    assert degrees[..|degrees|] == degrees;
  }

  /** The value the last kept item with key `k` gives, if any. */
  function LastDegree(items: seq<string>, k: string): Option<string> {
    if items == [] then None
    else
      var e := DegreeEntry(items[|items| - 1]);
      if e.Some? && e.value.0 == k then Some(e.value.1) else LastDegree(items[..|items| - 1], k)
  }

  /** A key reads the value of its last item; an item without a key or a value
      leaves no trace. */
  lemma {:induction false} DegreesFromGet(items: seq<string>, k: string)
    ensures Get(DegreesFrom(items), k) == LastDegree(items, k)
  {
    if items != [] {
      var init := items[..|items| - 1];
      DegreesFromGet(init, k);
      var e := DegreeEntry(items[|items| - 1]);
      if e.Some? {
        PutGet(DegreesFrom(init), e.value.0, e.value.1);
      }
    }
  }

  /** `Object.entries(cadet.cadetDegrees).map(([degree, value]) => `${degree}: ${value}`)`. */
  function DegreeTexts(degrees: Degrees): (items: seq<string>)
    ensures |items| == |degrees|
    ensures forall i :: 0 <= i < |degrees| ==> items[i] == degrees[i].0 + ": " + degrees[i].1
  {
    seq(|degrees|, i requires 0 <= i < |degrees| => degrees[i].0 + ": " + degrees[i].1)
  }

  /** The text the degrees cell starts with: the entries joined by ", ". */
  function DegreesText(degrees: Degrees): string {
    Join(DegreeTexts(degrees), ", ")
  }

  /** A key and a value a degree text can carry back: non-empty, trimmed, no "," and no ":". */
  predicate PlainText(s: string) {
    s != "" && Trimmed(s) && ',' !in s && ':' !in s
  }

  /** One displayed entry parses back to the entry. */
  lemma DegreeEntryOfText(k: string, v: string)
    requires PlainText(k) && PlainText(v)
    ensures DegreeEntry(k + ": " + v) == Some((k, v))
  {
    SplitEntryText(k, v);
    var parts := TrimAll(Split(k + ": " + v, ':'));
    TrimmedIsFixpoint(k);
    TrimAfterSpace(v);
    assert parts[0] == k && parts[1] == v && |parts| == 2;
  }

  lemma SplitEntryText(k: string, v: string)
    requires ':' !in k && ':' !in v
    ensures Split(k + ": " + v, ':') == [k, " " + v]
  {
    var rest := " " + v;
    assert k + ": " + v == k + [':'] + rest;
    SplitAt(k, ':', rest);
    assert ':' !in rest by {
      assert forall i :: 1 <= i < |rest| ==> rest[i] == v[i - 1];
    }
    assert Split(rest, ':') == [rest];
  }

  /** The degrees cell's own text parses back to the object it shows, tier or
      not, when keys and values are plain and no key repeats. */
  lemma DegreesRoundTrip(degrees: Degrees)
    requires DistinctKeys(degrees)
    requires forall i :: 0 <= i < |degrees| ==> PlainText(degrees[i].0) && PlainText(degrees[i].1)
    ensures DegreesOf(DegreesText(degrees)) == degrees
  {
    if degrees == [] {
      EmptyDegreesText(degrees);
    } else {
      DegreeItemsOfText(degrees);
      DegreesFromTexts(degrees, |degrees|);
      assert DegreeTexts(degrees)[..|degrees|] == DegreeTexts(degrees);
      assert degrees[..|degrees|] == degrees;
    }
  }

  lemma EmptyDegreesText(degrees: Degrees)
    requires degrees == []
    ensures DegreesOf(DegreesText(degrees)) == []
  {
    assert DegreesText(degrees) == "";
    assert Split("", ',') == [""];
    assert TrimAll([""]) == [""];
  }

  /** The displayed entries come back as the cell's items, in order. */
  lemma DegreeItemsOfText(degrees: Degrees)
    requires degrees != []
    requires forall i :: 0 <= i < |degrees| ==> PlainText(degrees[i].0) && PlainText(degrees[i].1)
    ensures DegreeItems(DegreesText(degrees)) == DegreeTexts(degrees)
  {
    var texts := DegreeTexts(degrees);
    forall i | 0 <= i < |texts| ensures Trimmed(texts[i]) && ',' !in texts[i] && texts[i] != "" {
      DegreeTextPlain(degrees[i].0, degrees[i].1);
    }
    ItemsOfJoin(texts);
    NonEmptyKeepsAll(texts);
  }

  lemma DegreeTextPlain(k: string, v: string)
    requires PlainText(k) && PlainText(v)
    ensures Trimmed(k + ": " + v) && ',' !in k + ": " + v && k + ": " + v != ""
  {
    TrimmedConcat(k, ": ", v);
    assert ',' !in ": ";
  }

  lemma {:induction false} DegreesFromTexts(degrees: Degrees, n: nat)
    requires n <= |degrees| && DistinctKeys(degrees)
    requires forall i :: 0 <= i < |degrees| ==> PlainText(degrees[i].0) && PlainText(degrees[i].1)
    ensures DegreesFrom(DegreeTexts(degrees)[..n]) == degrees[..n]
  {
    if n > 0 {
      var texts := DegreeTexts(degrees);
      DegreesFromTexts(degrees, n - 1);
      KeyNotBefore(degrees, n - 1);
      TextStep(texts, n, degrees[..n - 1], degrees[n - 1]);
      TakeSnoc(degrees, n);
    }
  }

  /** One displayed entry with a fresh key appends that entry. */
  lemma TextStep(texts: seq<string>, n: nat, prev: Degrees, e: (string, string))
    requires 0 < n <= |texts| && DegreesFrom(texts[..n - 1]) == prev
    requires texts[n - 1] == e.0 + ": " + e.1 && PlainText(e.0) && PlainText(e.1) && e.0 !in Keys(prev)
    ensures DegreesFrom(texts[..n]) == prev + [e]
  {
    DegreeEntryOfText(e.0, e.1);
    FreshEntryStep(texts, n, prev, e.0, e.1);
  }

  /** The first `n` elements are the first `n - 1` and element `n - 1`. */
  lemma TakeSnoc<T>(s: seq<T>, n: nat)
    requires 0 < n <= |s|
    ensures s[..n] == s[..n - 1] + [s[n - 1]]
  {
  }

  lemma DegreesFromStep(items: seq<string>, n: nat)
    requires 0 < n <= |items|
    ensures var e := DegreeEntry(items[n - 1]);
            DegreesFrom(items[..n])
            == if e.Some? then Put(DegreesFrom(items[..n - 1]), e.value.0, e.value.1) else DegreesFrom(items[..n - 1])
  {
    assert items[..n][..n - 1] == items[..n - 1];
  }

  lemma FreshEntryStep(items: seq<string>, n: nat, prev: Degrees, k: string, v: string)
    requires 0 < n <= |items| && DegreesFrom(items[..n - 1]) == prev
    requires DegreeEntry(items[n - 1]) == Some((k, v)) && k !in Keys(prev)
    ensures DegreesFrom(items[..n]) == prev + [(k, v)]
  {
    DegreesFromStep(items, n);
    PutNewKey(prev, k, v);
  }

  /** `newCadets[index].cadetDegrees = newDegrees`. The handler never calls
      `setCadets`; the new object lands in the cadet object both lists share. */
  function SetDegrees(cadets: seq<AppCadet>, index: nat, text: string): (r: seq<AppCadet>)
    requires index < |cadets|
    ensures |r| == |cadets| && forall k :: 0 <= k < |cadets| && k != index ==> r[k] == cadets[k]
    ensures r[index].cadetDegrees == DegreesOf(text)
    ensures r[index].name == cadets[index].name
    ensures r[index].cadetPreferences == cadets[index].cadetPreferences
    ensures r[index].cadetPercentile == cadets[index].cadetPercentile
    ensures r[index].cadetFromUSAFA == cadets[index].cadetFromUSAFA
  {
    cadets[index := cadets[index].(cadetDegrees := DegreesOf(text))]
  }

  // ---------------------------------------------------------------------------
  // Which cadet a row's cells edit

  /** The cell handlers as written receive the row's position on the page as
      `index`. On any page after the first, every cell of row `row` edits the
      cadet at list position `row`, on an earlier page, and the page shows
      exactly the rows it showed before. */
  lemma CellEditsAsWrittenMissRow(cadets: seq<AppCadet>, page: nat, row: nat, name: string, percentile: real,
                                  checked: bool, prefsText: string, degreesText: string)
    requires page >= 2 && row < |PageSlice(cadets, page)|
    ensures row < RowPosition(page, row) < |cadets|
    ensures PageSlice(SetName(cadets, row, name), page) == PageSlice(cadets, page)
    ensures PageSlice(SetPercentile(cadets, row, percentile), page) == PageSlice(cadets, page)
    ensures PageSlice(SetFromUsafa(cadets, row, checked), page) == PageSlice(cadets, page)
    ensures PageSlice(SetPreferences(cadets, row, prefsText), page) == PageSlice(cadets, page)
    ensures PageSlice(SetDegrees(cadets, row, degreesText), page) == PageSlice(cadets, page)
    ensures SetName(cadets, row, name)[row].name == name
    ensures SetPercentile(cadets, row, percentile)[row].cadetPercentile == percentile
    ensures SetFromUsafa(cadets, row, checked)[row].cadetFromUSAFA == checked
    ensures SetPreferences(cadets, row, prefsText)[row].cadetPreferences == PreferencesOf(prefsText)
    ensures SetDegrees(cadets, row, degreesText)[row].cadetDegrees == DegreesOf(degreesText)
  {
    RowPositionShown(cadets, page, row);
    var c := cadets[row];
    PageSliceUpdateEarlier(cadets, page, row, c.(name := name));
    PageSliceUpdateEarlier(cadets, page, row, c.(cadetPercentile := percentile));
    PageSliceUpdateEarlier(cadets, page, row, c.(cadetFromUSAFA := checked));
    PageSliceUpdateEarlier(cadets, page, row, c.(cadetPreferences := PreferencesOf(prefsText)));
    PageSliceUpdateEarlier(cadets, page, row, c.(cadetDegrees := DegreesOf(degreesText)));
  }

  /** With the page offset added, every cell of row `row` edits the cadet the
      row shows: the page shows the same rows, with that one field of row
      `row` replaced. */
  lemma CellEditsChangeShownCadet(cadets: seq<AppCadet>, page: nat, row: nat, name: string, percentile: real,
                                  checked: bool, prefsText: string, degreesText: string)
    requires page >= 1 && row < |PageSlice(cadets, page)|
    ensures RowPosition(page, row) < |cadets|
    ensures PageSlice(SetName(cadets, RowPosition(page, row), name), page)
            == PageSlice(cadets, page)[row := PageSlice(cadets, page)[row].(name := name)]
    ensures PageSlice(SetPercentile(cadets, RowPosition(page, row), percentile), page)
            == PageSlice(cadets, page)[row := PageSlice(cadets, page)[row].(cadetPercentile := percentile)]
    ensures PageSlice(SetFromUsafa(cadets, RowPosition(page, row), checked), page)
            == PageSlice(cadets, page)[row := PageSlice(cadets, page)[row].(cadetFromUSAFA := checked)]
    ensures PageSlice(SetPreferences(cadets, RowPosition(page, row), prefsText), page)
            == PageSlice(cadets, page)[row := PageSlice(cadets, page)[row].(cadetPreferences := PreferencesOf(prefsText))]
    ensures PageSlice(SetDegrees(cadets, RowPosition(page, row), degreesText), page)
            == PageSlice(cadets, page)[row := PageSlice(cadets, page)[row].(cadetDegrees := DegreesOf(degreesText))]
  {
    RowPositionShown(cadets, page, row);
    var c := PageSlice(cadets, page)[row];
    PageSliceUpdateShown(cadets, page, row, c.(name := name));
    PageSliceUpdateShown(cadets, page, row, c.(cadetPercentile := percentile));
    PageSliceUpdateShown(cadets, page, row, c.(cadetFromUSAFA := checked));
    PageSliceUpdateShown(cadets, page, row, c.(cadetPreferences := PreferencesOf(prefsText)));
    PageSliceUpdateShown(cadets, page, row, c.(cadetDegrees := DegreesOf(degreesText)));
  }
}
