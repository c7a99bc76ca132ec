/**
 The language a caller is answered in: the entries of an Accept-Language header ranked by weight
 (sections 12.4.2 and 12.5.4 of RFC 9110), and the message picked from those available.
 */
module Language {
  import opened Wrappers
  import opened Sorting
  import opened Text

  const DEFAULT_LANG := "en"

  /** Lower case and number syntax; what is no number, and what is no finite one, is `None`. */
  datatype Syntax = Syntax(lower: string -> string, weight: string -> Option<real>)

  /******* The text of a header *******/

  datatype Entry = Entry(lang: string, q: real)

  const WEIGHT := "q="

  /** The last parameter that is a well-formed weight decides. */
  function WeightOf(syn: Syntax, params: seq<string>): real {
    if params == [] then 1.0
    else
      var p := Trim(params[|params| - 1]);
      var q := if WEIGHT <= p then syn.weight(Trim(p[|WEIGHT|..])) else None;
      if q.Some? then q.value else WeightOf(syn, params[..|params| - 1])
  }

  /** A language is named by its primary subtag, in lower case; a part without text names none. */
  function EntryOf(syn: Syntax, text: string): Entry {
    var part := Trim(text);
    if part == "" then Entry("", 1.0)
    else
      var range := if ';' in part then Trim(Cut(part, ';').0) else part;
      Entry(
        syn.lower(Trim(Cut(range, '-').0)),
        if ';' in part then WeightOf(syn, Split(Cut(part, ';').1, ';')) else 1.0)
  }

  function EntryEach(syn: Syntax, parts: seq<string>): seq<Entry> {
    seq(|parts|, i requires 0 <= i < |parts| => EntryOf(syn, parts[i]))
  }

  function EntriesOf(syn: Syntax, header: string): seq<Entry> {
    var text := Trim(header);
    if text == "" then [] else EntryEach(syn, Split(text, ','))
  }

  method ReadWeight(syn: Syntax, params: seq<string>) returns (q: real)
    ensures q == WeightOf(syn, params)
  {
    q := 1.0;
    for i := 0 to |params|
      invariant q == WeightOf(syn, params[..i])
    {
      assert params[..i + 1][..i] == params[..i];
      var p := Trim(params[i]);
      if WEIGHT <= p {
        var parsed := syn.weight(Trim(p[|WEIGHT|..]));
        if parsed.Some? {
          q := parsed.value;
        }
      }
    }
    assert params[..|params|] == params;
  }

  method ReadEntry(syn: Syntax, part: string) returns (e: Entry)
    requires part != "" && Trim(part) == part
    ensures e == EntryOf(syn, part)
  {
    var lang, q := part, 1.0;
    if ';' in part {
      var (before, after) := Cut(part, ';');
      lang := Trim(before);
      q := ReadWeight(syn, Split(after, ';'));
    }
    if '-' in lang {
      lang := Cut(lang, '-').0;
    } else {
      CutWithoutSeparator(lang, '-');
    }
    e := Entry(syn.lower(Trim(lang)), q);
  }

  /** A parameter of a language range: a weight, or another. */
  datatype Param = Param(spaced: bool, weighted: bool, value: string)

  /** A language range with its further subtags ("-JP", or none) and its parameters. */
  datatype Item = Item(tag: string, subtags: string, spaced: bool, params: seq<Param>)

  predicate Free(s: string) {
    ',' !in s && ';' !in s && Tight(s)
  }

  predicate WellFormedParam(p: Param) {
    Free(p.value) && (!p.weighted ==> p.value != "" && !(WEIGHT <= p.value))
  }

  predicate WellFormed(item: Item) {
    && item.tag != "" && Free(item.tag) && '-' !in item.tag
    && (item.subtags != "" ==> item.subtags[0] == '-' && Free(item.subtags))
    && forall k :: 0 <= k < |item.params| ==> WellFormedParam(item.params[k])
  }

  function Space(spaced: bool): string {
    if spaced then " " else ""
  }

  function ParamText(p: Param): string {
    if p.weighted then WEIGHT + p.value else p.value
  }

  function ParamTexts(params: seq<Param>): seq<string> {
    seq(|params|, k requires 0 <= k < |params| => Space(params[k].spaced) + ParamText(params[k]))
  }

  function Range(item: Item): string {
    item.tag + item.subtags
  }

  function ItemText(item: Item): string {
    if item.params == [] then Range(item)
    else (Range(item) + Space(item.spaced)) + ";" + Joined(ParamTexts(item.params), ';')
  }

  /** The parameter is a weight, and a well-formed one. */
  predicate Weighs(syn: Syntax, p: Param) {
    p.weighted && syn.weight(p.value).Some?
  }

  predicate NoneWeighs(syn: Syntax, params: seq<Param>, from: nat) {
    forall k :: from <= k < |params| ==> !Weighs(syn, params[k])
  }

  /** The last well-formed weight decides; without one the weight is 1. */
  ghost predicate DecidedBy(syn: Syntax, params: seq<Param>, q: real) {
    && (forall k :: 0 <= k < |params| && Weighs(syn, params[k]) && NoneWeighs(syn, params, k + 1) ==>
          syn.weight(params[k].value) == Some(q))
    && (NoneWeighs(syn, params, 0) ==> q == 1.0)
  }

  ghost predicate ReadsAs(syn: Syntax, item: Item, e: Entry) {
    e.lang == syn.lower(item.tag) && DecidedBy(syn, item.params, e.q)
  }

  /** A header as a client writes it: entries separated by a comma and a space. */
  function HeaderText(items: seq<Item>): string
    requires items != []
  {
    Joined(Parts(items), ',')
  }

  function Parts(items: seq<Item>): seq<string> {
    seq(|items|, i requires 0 <= i < |items| => (if i == 0 then "" else " ") + ItemText(items[i]))
  }

  lemma RangeIsFree(item: Item)
    requires WellFormed(item)
    ensures Range(item) != "" && Free(Range(item))
    ensures Cut(Range(item), '-').0 == item.tag
  {
    if item.subtags == "" {
      assert Range(item) == item.tag;
      CutWithoutSeparator(item.tag, '-');
    } else {
      assert Range(item) == item.tag + ['-'] + item.subtags[1..];
      CutAtFirst(item.tag, item.subtags[1..], '-');
    }
  }

  lemma ParamIsTight(p: Param)
    requires WellFormedParam(p)
    ensures ParamText(p) != "" && Free(ParamText(p))
    ensures Trim(Space(p.spaced) + ParamText(p)) == ParamText(p)
  {
    TightTrims(ParamText(p));
    assert "" + ParamText(p) == ParamText(p);
  }

  lemma {:induction false} ParamsJoin(params: seq<Param>)
    requires params != [] && forall k :: 0 <= k < |params| ==> WellFormedParam(params[k])
    ensures var text := Joined(ParamTexts(params), ';'); text != "" && ',' !in text && !IsSpace(text[|text| - 1])
    decreases |params|
  {
    ParamIsTight(params[0]);
    if 1 < |params| {
      ParamsJoin(params[1..]);
      assert ParamTexts(params)[1..] == ParamTexts(params[1..]);
    }
  }

  lemma ItemIsTight(item: Item)
    requires WellFormed(item)
    ensures ItemText(item) != "" && Tight(ItemText(item)) && ',' !in ItemText(item)
  {
    RangeIsFree(item);
    if item.params != [] {
      ParamsJoin(item.params);
    }
  }

  lemma {:induction false} WeightIsDecided(syn: Syntax, params: seq<Param>)
    requires forall k :: 0 <= k < |params| ==> WellFormedParam(params[k])
    ensures DecidedBy(syn, params, WeightOf(syn, ParamTexts(params)))
    decreases |params|
  {
    if params != [] {
      var before, last := params[..|params| - 1], params[|params| - 1];
      WeightIsDecided(syn, before);
      TextsAppend(before, last);
      WeightOfLast(syn, ParamTexts(before), last);
      DecidedByLast(syn, before, last, WeightOf(syn, ParamTexts(before)));
      assert params == before + [last];
    }
  }

  lemma TextsAppend(before: seq<Param>, last: Param)
    ensures ParamTexts(before + [last]) == ParamTexts(before) + [Space(last.spaced) + ParamText(last)]
  {
  }

  lemma WeightOfLast(syn: Syntax, before: seq<string>, last: Param)
    requires WellFormedParam(last)
    ensures WeightOf(syn, before + [Space(last.spaced) + ParamText(last)]) ==
            if Weighs(syn, last) then syn.weight(last.value).value else WeightOf(syn, before)
  {
    ParamIsTight(last);
    TightTrims(last.value);
    var all := before + [Space(last.spaced) + ParamText(last)];
    assert all[..|all| - 1] == before;
    if last.weighted {
      assert ParamText(last)[|WEIGHT|..] == last.value;
    }
  }

  lemma DecidedByLast(syn: Syntax, before: seq<Param>, last: Param, q: real)
    requires DecidedBy(syn, before, q)
    ensures DecidedBy(syn, before + [last], if Weighs(syn, last) then syn.weight(last.value).value else q)
  {
    var all := before + [last];
    assert all[|before|] == last;
    forall from: nat | NoneWeighs(syn, all, from)
      ensures NoneWeighs(syn, before, from)
    {
      forall k | from <= k < |before|
        ensures !Weighs(syn, before[k])
      {
        assert all[k] == before[k];
      }
    }
  }

  /** An entry is read as it was meant, with or without a space before it. */
  lemma ItemReadsBack(syn: Syntax, item: Item)
    requires WellFormed(item)
    ensures EntryOf(syn, ItemText(item)) == EntryOf(syn, " " + ItemText(item))
    ensures ReadsAs(syn, item, EntryOf(syn, ItemText(item)))
  {
    var text := ItemText(item);
    ItemIsTight(item);
    RangeIsFree(item);
    TightTrims(text);
    TightTrims(Range(item));
    TightTrims(item.tag);
    if item.params != [] {
      var range := Range(item) + Space(item.spaced);
      var params := Joined(ParamTexts(item.params), ';');
      assert text == range + [';'] + params;
      assert range == Range(item) || range == Range(item) + " ";
      CutAtFirst(range, params, ';');
      ParamsSplit(item.params);
      WeightIsDecided(syn, item.params);
    }
  }

  lemma ParamsSplit(params: seq<Param>)
    requires params != [] && forall k :: 0 <= k < |params| ==> WellFormedParam(params[k])
    ensures Split(Joined(ParamTexts(params), ';'), ';') == ParamTexts(params)
  {
    forall k | 0 <= k < |params|
      ensures ';' !in ParamTexts(params)[k]
    {
      ParamIsTight(params[k]);
    }
    JoinedSplits(ParamTexts(params), ';');
  }

  /** A well-formed header is read as it was meant, entry by entry. */
  lemma HeaderReadsBack(syn: Syntax, items: seq<Item>)
    requires items != [] && forall item :: item in items ==> WellFormed(item)
    ensures |EntriesOf(syn, HeaderText(items))| == |items|
    ensures forall i :: 0 <= i < |items| ==> ReadsAs(syn, items[i], EntriesOf(syn, HeaderText(items))[i])
  {
    HeaderIsTight(items);
    TightTrims(HeaderText(items));
    HeaderSplits(items);
    forall i | 0 <= i < |items|
      ensures ReadsAs(syn, items[i], EntryOf(syn, Parts(items)[i]))
    {
      PartReadsBack(syn, items, i);
    }
  }

  lemma PartReadsBack(syn: Syntax, items: seq<Item>, i: nat)
    requires i < |items| && WellFormed(items[i])
    ensures ReadsAs(syn, items[i], EntryOf(syn, Parts(items)[i]))
  {
    ItemReadsBack(syn, items[i]);
    assert "" + ItemText(items[i]) == ItemText(items[i]);
  }

  lemma HeaderSplits(items: seq<Item>)
    requires items != [] && forall item :: item in items ==> WellFormed(item)
    ensures Split(HeaderText(items), ',') == Parts(items)
  {
    forall i | 0 <= i < |items|
      ensures ',' !in Parts(items)[i]
    {
      assert items[i] in items;
      ItemIsTight(items[i]);
    }
    JoinedSplits(Parts(items), ',');
  }

  lemma {:induction false} JoinedEnds(parts: seq<string>, sep: char)
    requires parts != [] && forall i :: 0 <= i < |parts| ==> parts[i] != ""
    ensures Joined(parts, sep) != "" && Joined(parts, sep)[0] == parts[0][0]
    ensures var last := parts[|parts| - 1]; Joined(parts, sep)[|Joined(parts, sep)| - 1] == last[|last| - 1]
    decreases |parts|
  {
    if 1 < |parts| {
      JoinedEnds(parts[1..], sep);
    }
  }

  lemma HeaderIsTight(items: seq<Item>)
    requires items != [] && forall item :: item in items ==> WellFormed(item)
    ensures HeaderText(items) != "" && Tight(HeaderText(items))
  {
    var parts := Parts(items);
    forall i | 0 <= i < |items|
      ensures parts[i] != "" && !IsSpace(parts[i][|parts[i]| - 1])
    {
      assert items[i] in items;
      ItemIsTight(items[i]);
    }
    assert items[0] in items;
    ItemIsTight(items[0]);
    JoinedEnds(parts, ',');
  }

  /******* Ranking the entries *******/

  /** An entry kept, with its place in the header. The place is what a stable sort preserves; nothing
      compares it. */
  datatype Kept = Kept(lang: string, q: real, place: nat)

  predicate Counts(e: Entry) {
    e.lang != "" && e.lang != "*" && e.q > 0.0
  }

  /** Entry `k` is where its language first reaches its largest weight. */
  ghost predicate IsPeak(header: seq<Entry>, k: int) {
    && 0 <= k < |header| && Counts(header[k])
    && forall m :: 0 <= m < |header| && Counts(header[m]) && header[m].lang == header[k].lang ==>
         header[m].q < header[k].q || (header[m].q == header[k].q && k <= m)
  }

  ghost predicate Outranks(header: seq<Entry>, k: int, m: int) {
    && 0 <= k < |header|
    && 0 <= m < |header|
    && (header[k].q > header[m].q || (header[k].q == header[m].q && k < m))
  }

  /** `peaks` are all the peaks, in order, and `langs` their languages: each accepted language once. */
  ghost predicate RankedBy(header: seq<Entry>, langs: seq<string>, peaks: seq<int>) {
    && |peaks| == |langs|
    && (forall i :: 0 <= i < |peaks| ==> IsPeak(header, peaks[i]) && header[peaks[i]].lang == langs[i])
    && (forall i, j :: 0 <= i < j < |peaks| ==> Outranks(header, peaks[i], peaks[j]))
    && (forall k :: IsPeak(header, k) ==> k in peaks)
  }

  /** The languages accepted, best first. */
  ghost predicate IsRanking(header: seq<Entry>, langs: seq<string>) {
    exists peaks :: RankedBy(header, langs, peaks)
  }

  predicate HeavierFirst(a: Kept, b: Kept) {
    a.q >= b.q
  }

  predicate Before(a: Kept, b: Kept) {
    a.q > b.q || (a.q == b.q && a.place <= b.place)
  }

  ghost predicate PlacesRise(s: seq<Kept>) {
    forall i, j :: 0 <= i < j < |s| ==> s[i].place < s[j].place
  }

  /** Sorting by weight alone, stably, sorts by weight and then by place. */
  lemma {:induction false} InsertIsStable(x: Kept, s: seq<Kept>)
    requires Ordered(Before, s) && forall y :: y in s ==> x.place < y.place
    ensures Ordered(Before, Insert(HeavierFirst, x, s))
  {
    if s != [] && !HeavierFirst(x, s[0]) {
      InsertIsStable(x, s[1..]);
      var rest := Insert(HeavierFirst, x, s[1..]);
      forall j | 0 <= j < |rest|
        ensures Before(s[0], rest[j])
      {
        InsertKeepsElements(HeavierFirst, x, s[1..]);
        assert rest[j] in multiset(rest);
        assert rest[j] == x || rest[j] in s[1..];
      }
    }
  }

  lemma {:induction false} SortIsStable(s: seq<Kept>)
    requires PlacesRise(s)
    ensures Ordered(Before, Sort(HeavierFirst, s))
    decreases |s|
  {
    if s != [] {
      SortIsStable(s[1..]);
      SortKeepsElements(HeavierFirst, s[1..]);
      SameElements(Sort(HeavierFirst, s[1..]), s[1..]);
      InsertIsStable(s[0], Sort(HeavierFirst, s[1..]));
    }
  }

  /** What the first `count` entries of the header contribute. */
  ghost predicate KeptFrom(header: seq<Entry>, count: nat, kept: seq<Kept>)
    requires count <= |header|
  {
    && PlacesRise(kept)
    && (forall e :: e in kept ==> e.place < count && Counts(header[e.place]) && header[e.place] == Entry(e.lang, e.q))
    && (forall k :: 0 <= k < count && Counts(header[k]) ==> Kept(header[k].lang, header[k].q, k) in kept)
  }

  /** The same, of a list in any order. */
  ghost predicate KeepsAll(header: seq<Entry>, sorted: seq<Kept>) {
    && (forall e :: e in sorted ==> e.place < |header| && Counts(header[e.place]) && header[e.place] == Entry(e.lang, e.q))
    && (forall k :: 0 <= k < |header| && Counts(header[k]) ==> Kept(header[k].lang, header[k].q, k) in sorted)
  }

  lemma SortedKeepsAll(header: seq<Entry>, entries: seq<Kept>)
    requires KeptFrom(header, |header|, entries)
    ensures Ordered(Before, Sort(HeavierFirst, entries)) && KeepsAll(header, Sort(HeavierFirst, entries))
  {
    SortIsStable(entries);
    SortKeepsElements(HeavierFirst, entries);
    SameElements(entries, Sort(HeavierFirst, entries));
  }

  lemma KeepOneMore(header: seq<Entry>, k: nat, kept: seq<Kept>)
    requires k < |header| && KeptFrom(header, k, kept)
    ensures KeptFrom(header, k + 1, if Counts(header[k]) then kept + [Kept(header[k].lang, header[k].q, k)] else kept)
  {
  }

  method ParseAcceptLanguage(syn: Syntax, text: string) returns (langs: seq<string>)
    ensures IsRanking(EntriesOf(syn, text), langs)
  {
    ghost var header := EntriesOf(syn, text);
    var trimmed := Trim(text);
    if trimmed == "" {
      assert RankedBy(header, [], []);
      return [];
    }
    var parts := Split(trimmed, ',');
    var entries: seq<Kept> := [];
    for k := 0 to |parts|
      invariant KeptFrom(header, k, entries)
    {
      KeepOneMore(header, k, entries);
      var part := Trim(parts[k]);
      if part == "" {
        continue;
      }
      TrimIsTight(parts[k]);
      TightTrims(part);
      var e := ReadEntry(syn, part);
      if Counts(e) {
        entries := entries + [Kept(e.lang, e.q, k)];
      }
    }
    var sorted := Sort(HeavierFirst, entries);
    SortedKeepsAll(header, entries);
    langs := Deduplicate(sorted);
    FirstsAreRanking(header, sorted, langs);
  }

  ghost predicate IsFirst(sorted: seq<Kept>, a: int) {
    0 <= a < |sorted| && forall b :: 0 <= b < a ==> sorted[b].lang != sorted[a].lang
  }

  /** `firsts` says where each language of the list first occurs, and `langs` names them in that order. */
  ghost predicate FirstsAre(sorted: seq<Kept>, count: nat, langs: seq<string>, firsts: seq<int>) {
    && |firsts| == |langs|
    && (forall i :: 0 <= i < |firsts| ==>
          firsts[i] < count && IsFirst(sorted, firsts[i]) && sorted[firsts[i]].lang == langs[i])
    && (forall i, j :: 0 <= i < j < |firsts| ==> firsts[i] < firsts[j])
    && (forall a :: IsFirst(sorted, a) && a < count ==> a in firsts)
  }

  /** Keeps the first entry of each language. */
  method Deduplicate(sorted: seq<Kept>) returns (langs: seq<string>)
    ensures exists firsts :: FirstsAre(sorted, |sorted|, langs, firsts)
  {
    var seen: set<string> := {};
    langs := [];
    ghost var firsts: seq<int> := [];
    for k := 0 to |sorted|
      invariant forall l :: l in seen <==> exists b :: 0 <= b < k && sorted[b].lang == l
      invariant FirstsAre(sorted, k, langs, firsts)
    {
      if sorted[k].lang !in seen {
        seen, langs, firsts := seen + {sorted[k].lang}, langs + [sorted[k].lang], firsts + [k];
      }
    }
  }

  /** The first entry of a language in the sorted list is its peak. */
  lemma FirstIsPeak(header: seq<Entry>, sorted: seq<Kept>, a: int)
    requires Ordered(Before, sorted) && KeepsAll(header, sorted) && IsFirst(sorted, a)
    ensures IsPeak(header, sorted[a].place) && header[sorted[a].place] == Entry(sorted[a].lang, sorted[a].q)
  {
    assert sorted[a] in sorted;
    forall m | 0 <= m < |header| && Counts(header[m]) && header[m].lang == sorted[a].lang
      ensures header[m].q < sorted[a].q || (header[m].q == sorted[a].q && sorted[a].place <= m)
    {
      var e := Kept(header[m].lang, header[m].q, m);
      var b :| 0 <= b < |sorted| && sorted[b] == e;
      assert a <= b;
      assert a < b ==> Before(sorted[a], sorted[b]);
    }
  }

  lemma PeakIsFirst(header: seq<Entry>, sorted: seq<Kept>, k: int) returns (a: int)
    requires Ordered(Before, sorted) && KeepsAll(header, sorted) && IsPeak(header, k)
    ensures IsFirst(sorted, a) && sorted[a].place == k
  {
    var i :| 0 <= i < |sorted| && sorted[i] == Kept(header[k].lang, header[k].q, k);
    a := FirstOf(sorted, i);
    FirstIsPeak(header, sorted, a);
  }

  lemma FirstOf(sorted: seq<Kept>, i: int) returns (a: int)
    requires 0 <= i < |sorted|
    ensures 0 <= a <= i && IsFirst(sorted, a) && sorted[a].lang == sorted[i].lang
    decreases i
  {
    if b :| 0 <= b < i && sorted[b].lang == sorted[i].lang {
      a := FirstOf(sorted, b);
    } else {
      a := i;
    }
  }

  lemma FirstsGivePeaks(header: seq<Entry>, sorted: seq<Kept>, langs: seq<string>, firsts: seq<int>)
    returns (peaks: seq<int>)
    requires Ordered(Before, sorted) && KeepsAll(header, sorted)
    requires FirstsAre(sorted, |sorted|, langs, firsts)
    ensures RankedBy(header, langs, peaks)
  {
    peaks := seq(|firsts|, i requires 0 <= i < |firsts| => sorted[firsts[i]].place);
    forall i | 0 <= i < |peaks|
      ensures IsPeak(header, peaks[i]) && header[peaks[i]] == Entry(langs[i], sorted[firsts[i]].q)
    {
      FirstIsPeak(header, sorted, firsts[i]);
    }
    forall i, j | 0 <= i < j < |peaks|
      ensures Outranks(header, peaks[i], peaks[j])
    {
      assert Before(sorted[firsts[i]], sorted[firsts[j]]);
      assert langs[i] != langs[j];
    }
    forall k | IsPeak(header, k)
      ensures k in peaks
    {
      var a := PeakIsFirst(header, sorted, k);
      var i :| 0 <= i < |firsts| && firsts[i] == a;
      assert peaks[i] == k;
    }
  }

  lemma FirstsAreRanking(header: seq<Entry>, sorted: seq<Kept>, langs: seq<string>)
    requires Ordered(Before, sorted) && KeepsAll(header, sorted)
    requires exists firsts :: FirstsAre(sorted, |sorted|, langs, firsts)
    ensures IsRanking(header, langs)
  {
    var firsts :| FirstsAre(sorted, |sorted|, langs, firsts);
    var peaks := FirstsGivePeaks(header, sorted, langs, firsts);
  }

  lemma PeaksAreDistinct(header: seq<Entry>, langs: seq<string>, peaks: seq<int>)
    requires RankedBy(header, langs, peaks)
    ensures Distinct(peaks) && forall k :: k in peaks <==> IsPeak(header, k)
  {
    forall i, j | 0 <= i < j < |peaks|
      ensures peaks[i] != peaks[j]
    {
      assert Outranks(header, peaks[i], peaks[j]);
    }
  }

  lemma SamePeaks(header: seq<Entry>, a: seq<string>, p: seq<int>, b: seq<string>, q: seq<int>)
    requires RankedBy(header, a, p) && RankedBy(header, b, q)
    ensures p == q
  {
    PeaksAreDistinct(header, a, p);
    PeaksAreDistinct(header, b, q);
    DistinctSameElements(p, q);
    SameElements(p, q);
    forall i | 0 <= i < |p|
      ensures p[i] == q[i]
    {
      SamePlace(header, a, p, b, q, i);
    }
  }

  /** The header decides the ranking. */
  lemma RankingIsUnique(header: seq<Entry>, a: seq<string>, b: seq<string>)
    requires IsRanking(header, a) && IsRanking(header, b)
    ensures a == b
  {
    var p :| RankedBy(header, a, p);
    var q :| RankedBy(header, b, q);
    SamePeaks(header, a, p, b, q);
    forall i | 0 <= i < |a|
      ensures a[i] == b[i]
    {
      assert header[p[i]].lang == a[i] && header[q[i]].lang == b[i];
    }
  }

  lemma {:induction false} SamePlace(
    header: seq<Entry>, a: seq<string>, p: seq<int>, b: seq<string>, q: seq<int>, i: nat)
    requires RankedBy(header, a, p) && RankedBy(header, b, q) && i < |p| == |q|
    ensures p[i] == q[i]
    decreases i
  {
    forall k: nat | k < i
      ensures p[k] == q[k]
    {
      SamePlace(header, a, p, b, q, k);
    }
    var j :| 0 <= j < |q| && q[j] == p[i];
    var k :| 0 <= k < |p| && p[k] == q[i];
  }

  /** The languages returned are the accepted ones, each once: none that was refused. */
  lemma RankingIsTheAccepted(header: seq<Entry>, langs: seq<string>)
    requires IsRanking(header, langs)
    ensures forall l :: l in langs <==> Accepted(header, l)
    ensures Distinct(langs)
  {
    var peaks :| RankedBy(header, langs, peaks);
    forall l | l in langs
      ensures Accepted(header, l)
    {
      var i :| 0 <= i < |langs| && langs[i] == l;
      assert IsPeak(header, peaks[i]);
    }
    forall l | Accepted(header, l)
      ensures l in langs
    {
      AcceptedIsListed(header, langs, peaks, l);
    }
    forall i, j | 0 <= i < j < |langs|
      ensures langs[i] != langs[j]
    {
      assert IsPeak(header, peaks[i]) && IsPeak(header, peaks[j]) && Outranks(header, peaks[i], peaks[j]);
    }
  }

  lemma AcceptedIsListed(header: seq<Entry>, langs: seq<string>, peaks: seq<int>, l: string)
    requires RankedBy(header, langs, peaks) && Accepted(header, l)
    ensures l in langs
  {
    var k :| 0 <= k < |header| && header[k].lang == l && header[k].q > 0.0;
    var peak := PeakExists(header, k);
    var i :| 0 <= i < |peaks| && peaks[i] == peak;
    assert langs[i] == l;
  }

  /** Some entry gives the language a positive weight; "*" names none. */
  ghost predicate Accepted(header: seq<Entry>, l: string) {
    l != "" && l != "*" && exists k :: 0 <= k < |header| && header[k].lang == l && header[k].q > 0.0
  }

  /** A language stands before another only if some entry of it outweighs every entry of the other, or
      weighs as much as the best of them and comes before it. */
  lemma RankingIsByWeight(header: seq<Entry>, langs: seq<string>, i: nat, j: nat)
    requires IsRanking(header, langs) && i < j < |langs|
    ensures exists k ::
              && 0 <= k < |header| && header[k].lang == langs[i] && header[k].q > 0.0
              && forall m :: 0 <= m < |header| && header[m].lang == langs[j] ==>
                   header[m].q < header[k].q || (header[m].q == header[k].q && k < m)
  {
    var peaks :| RankedBy(header, langs, peaks);
    var k, p := peaks[i], peaks[j];
    assert IsPeak(header, k) && IsPeak(header, p) && Outranks(header, k, p);
    forall m | 0 <= m < |header| && header[m].lang == langs[j]
      ensures header[m].q < header[k].q || (header[m].q == header[k].q && k < m)
    {
      assert Counts(header[m]) || header[m].q <= 0.0;
    }
  }

  method PreferredLangs(syn: Syntax, text: string) returns (langs: seq<string>)
    ensures |langs| > 0 && langs[|langs| - 1] == "en"
    ensures IsRanking(EntriesOf(syn, text), langs[..|langs| - 1])
  {
    var ranked := ParseAcceptLanguage(syn, text);
    langs := ranked + [DEFAULT_LANG];
    assert langs[..|langs| - 1] == ranked;
  }

  ghost predicate IsFirstAvailable(messages: map<string, string>, langs: seq<string>, i: int) {
    0 <= i < |langs| && langs[i] in messages && forall j :: 0 <= j < i ==> langs[j] !in messages
  }

  /** Any message rather than none, when no language asked for has one. */
  method PickMessage(messages: map<string, string>, langs: seq<string>) returns (msg: string)
    ensures forall i :: IsFirstAvailable(messages, langs, i) ==> msg == messages[langs[i]]
    ensures (forall l :: l in langs ==> l !in messages) && messages != map[] ==> msg in messages.Values
    ensures messages == map[] ==> msg == ""
  {
    for i := 0 to |langs|
      invariant forall j :: 0 <= j < i ==> langs[j] !in messages
    {
      if langs[i] in messages {
        return messages[langs[i]];
      }
    }
    if messages != map[] {
      assert messages.Keys != {};
      var any :| any in messages;
      return messages[any];
    }
    msg := "";
  }

  /** Of any entries one outranks the others. */
  lemma {:induction false} TopOf(header: seq<Entry>, ks: set<int>) returns (top: int)
    requires (exists k :: k in ks) && forall k :: k in ks ==> 0 <= k < |header|
    ensures top in ks && forall m :: m in ks ==> m == top || Outranks(header, top, m)
    decreases |ks|
  {
    var k :| k in ks;
    var others := ks - {k};
    if other :| other in others {
      var best := TopOf(header, others);
      top := if Outranks(header, k, best) then k else best;
    } else {
      top := k;
    }
    assert forall m :: m in ks ==> m == k || m in others;
  }

  /** Every accepted language has a peak. */
  lemma PeakExists(header: seq<Entry>, k: int) returns (peak: int)
    requires 0 <= k < |header| && Counts(header[k])
    ensures IsPeak(header, peak) && header[peak].lang == header[k].lang
  {
    var same := set m | 0 <= m < |header| && Counts(header[m]) && header[m].lang == header[k].lang;
    assert k in same;
    peak := TopOf(header, same);
    assert forall m :: 0 <= m < |header| && Counts(header[m]) && header[m].lang == header[k].lang ==> m in same;
  }

  /** There is a best available entry exactly when some accepted language has a message. */
  lemma BestAvailableExists(header: seq<Entry>, messages: map<string, string>)
    ensures (exists best :: IsBestAvailable(header, messages, best))
            <==> (exists k :: 0 <= k < |header| && Counts(header[k]) && header[k].lang in messages)
    ensures (exists best :: IsBestAvailable(header, messages, best)) <==> !NoneAvailable(header, messages)
  {
    if k :| 0 <= k < |header| && Counts(header[k]) && header[k].lang in messages {
      var peak := PeakExists(header, k);
      var available := set m | 0 <= m < |header| && IsPeak(header, m) && header[m].lang in messages;
      assert peak in available;
      var best := TopOf(header, available);
      assert forall m :: IsPeak(header, m) && header[m].lang in messages ==> m in available;
      assert IsBestAvailable(header, messages, best);
    }
  }

  /** The message of the best-ranked language that has one; failing all of them, the English one.
      With an English message present, nothing is left to the order a map is walked in. */
  method MessageFor(syn: Syntax, text: string, messages: map<string, string>) returns (msg: string)
    ensures var header := EntriesOf(syn, text);
            forall k :: IsBestAvailable(header, messages, k) ==> msg == messages[header[k].lang]
    ensures "en" in messages && NoneAvailable(EntriesOf(syn, text), messages) ==> msg == messages["en"]
  {
    ghost var header := EntriesOf(syn, text);
    var langs := PreferredLangs(syn, text);
    msg := PickMessage(messages, langs);
    ghost var peaks :| RankedBy(header, langs[..|langs| - 1], peaks);
    forall k | IsBestAvailable(header, messages, k)
      ensures msg == messages[header[k].lang]
    {
      var i := BestIsFirstAvailable(header, messages, langs, peaks, k);
    }
    if DEFAULT_LANG in messages && NoneAvailable(header, messages) {
      DefaultIsFirstAvailable(header, messages, langs, peaks);
    }
  }

  lemma BestIsFirstAvailable(
    header: seq<Entry>, messages: map<string, string>, langs: seq<string>, peaks: seq<int>, k: int) returns (i: int)
    requires langs != [] && RankedBy(header, langs[..|langs| - 1], peaks)
    requires IsBestAvailable(header, messages, k)
    ensures IsFirstAvailable(messages, langs, i) && langs[i] == header[k].lang
  {
    var ranked := langs[..|langs| - 1];
    assert k in peaks;
    i :| 0 <= i < |peaks| && peaks[i] == k;
    assert ranked[i] == langs[i];
    forall j | 0 <= j < i
      ensures langs[j] !in messages
    {
      assert Outranks(header, peaks[j], peaks[i]);
      assert IsPeak(header, peaks[j]) && header[peaks[j]].lang == ranked[j] == langs[j];
    }
  }

  lemma DefaultIsFirstAvailable(header: seq<Entry>, messages: map<string, string>, langs: seq<string>, peaks: seq<int>)
    requires langs != [] && langs[|langs| - 1] == DEFAULT_LANG && RankedBy(header, langs[..|langs| - 1], peaks)
    requires DEFAULT_LANG in messages && NoneAvailable(header, messages)
    ensures IsFirstAvailable(messages, langs, |langs| - 1)
  {
    var ranked := langs[..|langs| - 1];
    forall j | 0 <= j < |ranked|
      ensures langs[j] !in messages
    {
      assert IsPeak(header, peaks[j]) && header[peaks[j]].lang == ranked[j] == langs[j];
    }
  }

  ghost predicate IsBestAvailable(header: seq<Entry>, messages: map<string, string>, k: int) {
    && IsPeak(header, k)
    && header[k].lang in messages
    && forall m :: IsPeak(header, m) && header[m].lang in messages ==> m == k || Outranks(header, k, m)
  }

  ghost predicate NoneAvailable(header: seq<Entry>, messages: map<string, string>) {
    forall k :: IsPeak(header, k) ==> header[k].lang !in messages
  }
}
