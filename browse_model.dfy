/** Model of src/knowledgeCards/browseModel.ts: the browsing view narrows the cards to a
    heading path and lists either the folders one level down, with the number of cards in
    each, or the cards themselves. */
module BrowseModel {
  import opened Common
  import opened KnowledgeTypes

  /** The map key under which `groupByCategory` files a null heading. */
  const NullKey: string := "___NULL___"
  /** Titles given to folders of cards without an h2 and without an h3. */
  const NoH2Label: string := "（无二级标题）"
  const NoH3Label: string := "（无三级标题）"

  // ---------------------------------------------------------------------------------------
  // groupByCategory
  // ---------------------------------------------------------------------------------------

  /** `card[level]`: the h1 is always there, h2 and h3 may be null. */
  function LevelValue(c: KnowledgeCard, level: FolderLevel): Option<string> {
    match level
    case H1 => Some(c.h1)
    case H2 => c.h2
    case H3 => c.h3
  }

  /** The map key of a heading value: null is filed under the sentinel. */
  function GroupKey(v: Option<string>): string {
    if v.None? then NullKey else v.value
  }

  /** A heading spelled like the sentinel lands in the same folder as no heading at all. */
  lemma SentinelShared(s: string)
    ensures GroupKey(Some(s)) == GroupKey(None) <==> s == NullKey
  {
  }

  /** One entry of the source's `Map<string, { title, count }>`. */
  datatype Group = Group(key: string, title: Option<string>, count: nat)

  /** `groups.get(key)`: the position of the entry filed under `key`, or -1. */
  function FindGroup(groups: seq<Group>, key: string): (i: int)
    ensures -1 <= i < |groups|
    ensures i >= 0 ==> groups[i].key == key
    ensures i < 0 ==> forall j | 0 <= j < |groups| :: groups[j].key != key
    decreases |groups|
  {
    if groups == [] then -1
    else if groups[0].key == key then 0
    else
      var i := FindGroup(groups[1..], key);
      if i < 0 then -1 else i + 1
  }

  /** One turn of the loop: bump the count of the value's entry, or add an entry that
      keeps the value as its title. */
  function File(groups: seq<Group>, v: Option<string>): seq<Group> {
    var i := FindGroup(groups, GroupKey(v));
    if i >= 0 then groups[i := groups[i].(count := groups[i].count + 1)]
    else groups + [Group(GroupKey(v), v, 1)]
  }

  /** The map after the loop has seen `cards`. */
  function Groups(cards: seq<KnowledgeCard>, level: FolderLevel): seq<Group>
    decreases |cards|
  {
    if cards == [] then []
    else File(Groups(cards[..|cards| - 1], level), LevelValue(cards[|cards| - 1], level))
  }

  /** `Array.from(groups.values()).map(...)`: one folder per entry, in insertion order. */
  function Folders(groups: seq<Group>, level: FolderLevel): (items: seq<KnowledgeBrowseItem>)
    ensures |items| == |groups|
  {
    seq(|groups|, i requires 0 <= i < |groups| => Folder(level, groups[i].title, groups[i].count))
  }

  /** `groupByCategory(cards, level)`. */
  method GroupByCategory(cards: seq<KnowledgeCard>, level: FolderLevel) returns (items: seq<KnowledgeBrowseItem>)
    ensures items == Folders(Groups(cards, level), level)
  {
    var groups: seq<Group> := [];
    for n := 0 to |cards|
      invariant groups == Groups(cards[..n], level)
    {
      var value := LevelValue(cards[n], level);
      var key := GroupKey(value);
      var i := FindGroup(groups, key);
      if i >= 0 {
        groups := groups[i := groups[i].(count := groups[i].count + 1)];
      } else {
        groups := groups + [Group(key, value, 1)];
      }
      assert cards[..n + 1][..n] == cards[..n];
    }
    assert cards[..|cards|] == cards;
    items := Folders(groups, level);
  }

  // ---------------------------------------------------------------------------------------
  // What the folders mean
  // ---------------------------------------------------------------------------------------

  /** The key of every card, in card order. */
  function Keys(cards: seq<KnowledgeCard>, level: FolderLevel): (ks: seq<string>)
    ensures |ks| == |cards|
  {
    seq(|cards|, i requires 0 <= i < |cards| => GroupKey(LevelValue(cards[i], level)))
  }

  /** The position of the first `k` in `ks`. */
  function FirstIndex(ks: seq<string>, k: string): (r: nat)
    requires k in ks
    ensures r < |ks| && ks[r] == k
    ensures forall j | 0 <= j < r :: ks[j] != k
  {
    if ks[0] == k then 0 else 1 + FirstIndex(ks[1..], k)
  }

  lemma FirstIndexSnoc(ks: seq<string>, x: string, k: string)
    requires k in ks + [x]
    ensures FirstIndex(ks + [x], k) == if k in ks then FirstIndex(ks, k) else |ks|
  {
    var f := FirstIndex(ks + [x], k);
    if k in ks {
      var g := FirstIndex(ks, k);
      assert (ks + [x])[g] == k;
    } else {
      assert forall j | 0 <= j < |ks| :: (ks + [x])[j] == ks[j];
    }
  }

  /** Each key once, where it first appears. */
  function Dedup(ks: seq<string>): seq<string>
    decreases |ks|
  {
    if ks == [] then []
    else
      var d := Dedup(ks[..|ks| - 1]);
      if ks[|ks| - 1] in d then d else d + [ks[|ks| - 1]]
  }

  /** `Dedup` keeps every key, each once, in the order of first appearance. */
  lemma {:induction false} DedupFacts(ks: seq<string>)
    ensures forall k :: k in Dedup(ks) <==> k in ks
    ensures forall i, j | 0 <= i < j < |Dedup(ks)| :: Dedup(ks)[i] != Dedup(ks)[j]
    ensures forall i, j | 0 <= i < j < |Dedup(ks)| :: FirstIndex(ks, Dedup(ks)[i]) < FirstIndex(ks, Dedup(ks)[j])
    decreases |ks|
  {
    if ks != [] {
      var p, x := ks[..|ks| - 1], ks[|ks| - 1];
      assert ks == p + [x];
      DedupFacts(p);
      var d := Dedup(p);
      forall k | k in d ensures FirstIndex(ks, k) == FirstIndex(p, k) {
        FirstIndexSnoc(p, x, k);
      }
      if x !in d {
        FirstIndexSnoc(p, x, x);
      }
    }
  }

  /** The map after `cards` holds, in order of first appearance, one entry per distinct
      key; its count is the number of cards with that key and its title the heading value
      of the first of them. */
  predicate Describes(groups: seq<Group>, cards: seq<KnowledgeCard>, level: FolderLevel) {
    var ks := Keys(cards, level);
    && |groups| == |Dedup(ks)|
    && (forall i | 0 <= i < |groups| :: groups[i].key == Dedup(ks)[i] && groups[i].key in ks)
    && (forall i | 0 <= i < |groups| :: groups[i].count == multiset(ks)[groups[i].key])
    && (forall i | 0 <= i < |groups| ::
          groups[i].title == LevelValue(cards[FirstIndex(ks, groups[i].key)], level))
  }

  lemma KeysSnoc(cards: seq<KnowledgeCard>, c: KnowledgeCard, level: FolderLevel)
    ensures Keys(cards + [c], level) == Keys(cards, level) + [GroupKey(LevelValue(c, level))]
  {
  }

  /** One more card: the entries stay in order of first appearance. */
  lemma FileKeys(groups: seq<Group>, cards: seq<KnowledgeCard>, c: KnowledgeCard, level: FolderLevel)
    requires Describes(groups, cards, level)
    ensures var g', ks' := File(groups, LevelValue(c, level)), Keys(cards + [c], level);
      && |g'| == |Dedup(ks')|
      && (forall i | 0 <= i < |g'| :: g'[i].key == Dedup(ks')[i] && g'[i].key in ks')
  {
    var k := GroupKey(LevelValue(c, level));
    var ks, ks' := Keys(cards, level), Keys(cards + [c], level);
    KeysSnoc(cards, c, level);
    assert ks'[..|ks'| - 1] == ks;
    DedupFacts(ks);
    var i := FindGroup(groups, k);
    if i >= 0 {
      assert k in Dedup(ks);
    } else {
      assert k !in Dedup(ks);
    }
  }

  /** One more card: its entry counts one more, the others stay. */
  lemma FileCounts(groups: seq<Group>, cards: seq<KnowledgeCard>, c: KnowledgeCard, level: FolderLevel)
    requires Describes(groups, cards, level)
    ensures var g', ks' := File(groups, LevelValue(c, level)), Keys(cards + [c], level);
      forall i | 0 <= i < |g'| :: g'[i].count == multiset(ks')[g'[i].key]
  {
    var k := GroupKey(LevelValue(c, level));
    var ks, ks' := Keys(cards, level), Keys(cards + [c], level);
    KeysSnoc(cards, c, level);
    assert multiset(ks') == multiset(ks) + multiset{k};
    DedupFacts(ks);
    var i := FindGroup(groups, k);
    if i < 0 {
      assert k !in Dedup(ks);
      assert multiset(ks)[k] == 0;
    }
  }

  /** One more card: a new entry takes the card's value as its title, the others keep
      theirs. */
  lemma FileTitles(groups: seq<Group>, cards: seq<KnowledgeCard>, c: KnowledgeCard, level: FolderLevel)
    requires Describes(groups, cards, level)
    ensures var g', ks' := File(groups, LevelValue(c, level)), Keys(cards + [c], level);
      forall i | 0 <= i < |g'| :: g'[i].key in ks' && g'[i].title == LevelValue((cards + [c])[FirstIndex(ks', g'[i].key)], level)
  {
    var k := GroupKey(LevelValue(c, level));
    var g', ks' := File(groups, LevelValue(c, level)), Keys(cards + [c], level);
    KeysSnoc(cards, c, level);
    forall j | 0 <= j < |groups| ensures g'[j].key == groups[j].key && g'[j].title == groups[j].title {}
    forall j | 0 <= j < |g'|
      ensures g'[j].key in ks' && g'[j].title == LevelValue((cards + [c])[FirstIndex(ks', g'[j].key)], level)
    {
      if j < |groups| {
        KeptTitle(groups, cards, c, level, j);
      } else {
        NewTitle(groups, cards, c, level);
      }
    }
  }

  /** An entry already in the map keeps its first card. */
  lemma KeptTitle(groups: seq<Group>, cards: seq<KnowledgeCard>, c: KnowledgeCard, level: FolderLevel, j: nat)
    requires Describes(groups, cards, level) && j < |groups|
    ensures var ks' := Keys(cards + [c], level);
      groups[j].key in ks' && groups[j].title == LevelValue((cards + [c])[FirstIndex(ks', groups[j].key)], level)
  {
    var k := GroupKey(LevelValue(c, level));
    var ks, ks' := Keys(cards, level), Keys(cards + [c], level);
    KeysSnoc(cards, c, level);
    var key := groups[j].key;
    FirstIndexSnoc(ks, k, key);
    var f := FirstIndex(ks, key);
    assert (cards + [c])[f] == cards[f];
  }

  /** A new entry is the card's own key, first seen at the card. */
  lemma NewTitle(groups: seq<Group>, cards: seq<KnowledgeCard>, c: KnowledgeCard, level: FolderLevel)
    requires Describes(groups, cards, level)
    requires FindGroup(groups, GroupKey(LevelValue(c, level))) < 0
    ensures var g', ks' := File(groups, LevelValue(c, level)), Keys(cards + [c], level);
      |g'| == |groups| + 1 && g'[|groups|].key in ks'
      && g'[|groups|].title == LevelValue((cards + [c])[FirstIndex(ks', g'[|groups|].key)], level)
  {
    var k := GroupKey(LevelValue(c, level));
    var ks, ks' := Keys(cards, level), Keys(cards + [c], level);
    KeysSnoc(cards, c, level);
    DedupFacts(ks);
    assert k !in Dedup(ks);
    FirstIndexSnoc(ks, k, k);
  }

  /** One more card keeps the description. */
  lemma FileDescribes(groups: seq<Group>, cards: seq<KnowledgeCard>, c: KnowledgeCard, level: FolderLevel)
    requires Describes(groups, cards, level)
    ensures Describes(File(groups, LevelValue(c, level)), cards + [c], level)
  {
    FileKeys(groups, cards, c, level);
    FileCounts(groups, cards, c, level);
    FileTitles(groups, cards, c, level);
  }

  /** The map after the loop describes the cards. */
  lemma {:induction false} GroupsDescribe(cards: seq<KnowledgeCard>, level: FolderLevel)
    ensures Describes(Groups(cards, level), cards, level)
    decreases |cards|
  {
    if cards != [] {
      var p := cards[..|cards| - 1];
      GroupsDescribe(p, level);
      FileDescribes(Groups(p, level), p, cards[|cards| - 1], level);
      assert p + [cards[|cards| - 1]] == cards;
    }
  }

  /** The folder counts, added up. */
  function TotalCount(items: seq<KnowledgeBrowseItem>): nat
    decreases |items|
  {
    if items == [] then 0
    else TotalCount(items[..|items| - 1]) + (if items[|items| - 1].Folder? then items[|items| - 1].count else 0)
  }

  lemma {:induction false} TotalCountBump(groups: seq<Group>, i: nat, level: FolderLevel)
    requires i < |groups|
    ensures TotalCount(Folders(groups[i := groups[i].(count := groups[i].count + 1)], level))
            == TotalCount(Folders(groups, level)) + 1
    decreases |groups|
  {
    var g' := groups[i := groups[i].(count := groups[i].count + 1)];
    var n := |groups| - 1;
    assert Folders(g', level)[..n] == Folders(g'[..n], level);
    assert Folders(groups, level)[..n] == Folders(groups[..n], level);
    if i < n {
      assert g'[..n] == groups[..n][i := groups[i].(count := groups[i].count + 1)];
      TotalCountBump(groups[..n], i, level);
    } else {
      assert g'[..n] == groups[..n];
    }
  }

  /** Every card is counted in exactly one folder: the counts add up to the number of cards. */
  lemma {:induction false} GroupsTotal(cards: seq<KnowledgeCard>, level: FolderLevel)
    ensures TotalCount(Folders(Groups(cards, level), level)) == |cards|
    decreases |cards|
  {
    if cards != [] {
      var p := cards[..|cards| - 1];
      var gs := Groups(p, level);
      GroupsTotal(p, level);
      var v := LevelValue(cards[|cards| - 1], level);
      var i := FindGroup(gs, GroupKey(v));
      if i >= 0 {
        TotalCountBump(gs, i, level);
      } else {
        TotalCountNew(gs, Group(GroupKey(v), v, 1), level);
      }
    }
  }

  lemma TotalCountNew(groups: seq<Group>, g: Group, level: FolderLevel)
    ensures TotalCount(Folders(groups + [g], level)) == TotalCount(Folders(groups, level)) + g.count
  {
    var g' := groups + [g];
    assert Folders(g', level)[..|groups|] == Folders(groups, level);
  }

  // ---------------------------------------------------------------------------------------
  // getBrowseItems
  // ---------------------------------------------------------------------------------------

  /** The heading path the view is narrowed to; null where it is not. */
  datatype BrowseFilter = BrowseFilter(h1: Option<string>, h2: Option<string>, h3: Option<string>)

  /** A filter field is in force when it is truthy: present and not empty. */
  predicate IsSet(f: Option<string>) {
    f.Some? && f.value != ""
  }

  /** `cards.filter((c) => c[level] === v)`. */
  function Keep(cards: seq<KnowledgeCard>, level: FolderLevel, v: string): (r: seq<KnowledgeCard>)
    ensures |r| <= |cards|
    decreases |cards|
  {
    if cards == [] then []
    else (if LevelValue(cards[0], level) == Some(v) then [cards[0]] else []) + Keep(cards[1..], level, v)
  }

  /** `if (filter[level]) filtered = filtered.filter(...)`. */
  function Narrow(cards: seq<KnowledgeCard>, field: Option<string>, level: FolderLevel): seq<KnowledgeCard> {
    if IsSet(field) then Keep(cards, level, field.value) else cards
  }

  /** `filtered` after the three narrowings. */
  function Filtered(cards: seq<KnowledgeCard>, f: BrowseFilter): seq<KnowledgeCard> {
    Narrow(Narrow(Narrow(cards, f.h1, H1), f.h2, H2), f.h3, H3)
  }

  /** A card is on the filter's path when it agrees with every field in force. */
  predicate Matches(c: KnowledgeCard, f: BrowseFilter) {
    && (IsSet(f.h1) ==> c.h1 == f.h1.value)
    && (IsSet(f.h2) ==> c.h2 == Some(f.h2.value))
    && (IsSet(f.h3) ==> c.h3 == Some(f.h3.value))
  }

  /** The cards on the filter's path, in their order. */
  function Matching(cards: seq<KnowledgeCard>, f: BrowseFilter): seq<KnowledgeCard>
    decreases |cards|
  {
    if cards == [] then []
    else (if Matches(cards[0], f) then [cards[0]] else []) + Matching(cards[1..], f)
  }

  /** `items.map(c => ({ ...c, title: c.title || fallback }))`: a null or empty folder
      title becomes `fallback`. */
  function Relabel(items: seq<KnowledgeBrowseItem>, fallback: string): (r: seq<KnowledgeBrowseItem>)
    ensures |r| == |items|
  {
    seq(|items|, i requires 0 <= i < |items| =>
      match items[i]
      case Folder(level, title, count) =>
        Folder(level, Some(if title.None? || title.value == "" then fallback else title.value), count)
      case Note(_, _) => items[i])
  }

  /** `categories.some(c => c.type === 'folder' && c.title !== null && c.title !== '未分类')`. */
  predicate HasValidH2(categories: seq<KnowledgeBrowseItem>) {
    exists i | 0 <= i < |categories| ::
      categories[i].Folder? && categories[i].title.Some? && categories[i].title.value != Uncategorized
  }

  /** `categories.some(c => c.type === 'folder' && c.title !== null)`. */
  predicate HasValidH3(categories: seq<KnowledgeBrowseItem>) {
    exists i | 0 <= i < |categories| :: categories[i].Folder? && categories[i].title.Some?
  }

  /** The cards as notes, each under its own title. */
  function Notes(cards: seq<KnowledgeCard>): (items: seq<KnowledgeBrowseItem>)
    ensures |items| == |cards|
  {
    seq(|cards|, i requires 0 <= i < |cards| => Note(cards[i], cards[i].title))
  }

  /** `groupByCategory(cards, level)` as a value. */
  function Grouped(cards: seq<KnowledgeCard>, level: FolderLevel): seq<KnowledgeBrowseItem> {
    Folders(Groups(cards, level), level)
  }

  /** There are never more folders than cards. */
  lemma FewerFolders(cards: seq<KnowledgeCard>, level: FolderLevel)
    ensures |Grouped(cards, level)| <= |cards|
  {
    GroupsDescribe(cards, level);
    DedupShorter(Keys(cards, level));
  }

  lemma {:induction false} DedupShorter(ks: seq<string>)
    ensures |Dedup(ks)| <= |ks|
    decreases |ks|
  {
    if ks != [] {
      DedupShorter(ks[..|ks| - 1]);
    }
  }

  /** `getBrowseItems(cards, filter)`: either the matching cards as notes, or folders, and
      never more items than matching cards. */
  function GetBrowseItems(cards: seq<KnowledgeCard>, f: BrowseFilter): (r: seq<KnowledgeBrowseItem>)
    ensures |r| <= |Matching(cards, f)|
    ensures r == Notes(Matching(cards, f)) || forall i | 0 <= i < |r| :: r[i].Folder?
  {
    var filtered := Filtered(cards, f);
    FilteredMatching(cards, f);
    FewerFolders(filtered, H1);
    FewerFolders(filtered, H2);
    FewerFolders(filtered, H3);
    if |filtered| == 0 then []
    else if !IsSet(f.h1) then Grouped(filtered, H1)
    else
      var byH2 := Grouped(filtered, H2);
      if !IsSet(f.h2) && (HasValidH2(byH2) || |byH2| > 1) then Relabel(byH2, NoH2Label)
      else
        var byH3 := Grouped(filtered, H3);
        if !IsSet(f.h3) && HasValidH3(byH3) then Relabel(byH3, NoH3Label)
        else Notes(filtered)
  }

  // ---------------------------------------------------------------------------------------
  // What getBrowseItems returns
  // ---------------------------------------------------------------------------------------

  lemma {:induction false} KeepAppend(x: seq<KnowledgeCard>, y: seq<KnowledgeCard>, level: FolderLevel, v: string)
    ensures Keep(x + y, level, v) == Keep(x, level, v) + Keep(y, level, v)
    decreases |x|
  {
    if x == [] {
      assert x + y == y;
    } else {
      var h := if LevelValue(x[0], level) == Some(v) then [x[0]] else [];
      assert (x + y)[0] == x[0] && (x + y)[1..] == x[1..] + y;
      assert Keep(x + y, level, v) == h + Keep(x[1..] + y, level, v);
      KeepAppend(x[1..], y, level, v);
      Associates(h, Keep(x[1..], level, v), Keep(y, level, v));
    }
  }

  lemma NarrowAppend(x: seq<KnowledgeCard>, y: seq<KnowledgeCard>, field: Option<string>, level: FolderLevel)
    ensures Narrow(x + y, field, level) == Narrow(x, field, level) + Narrow(y, field, level)
  {
    if IsSet(field) {
      KeepAppend(x, y, level, field.value);
    }
  }

  lemma FilteredAppend(x: seq<KnowledgeCard>, y: seq<KnowledgeCard>, f: BrowseFilter)
    ensures Filtered(x + y, f) == Filtered(x, f) + Filtered(y, f)
  {
    NarrowAppend(x, y, f.h1, H1);
    var x1, y1 := Narrow(x, f.h1, H1), Narrow(y, f.h1, H1);
    NarrowAppend(x1, y1, f.h2, H2);
    NarrowAppend(Narrow(x1, f.h2, H2), Narrow(y1, f.h2, H2), f.h3, H3);
  }

  lemma NarrowOne(c: KnowledgeCard, field: Option<string>, level: FolderLevel)
    ensures Narrow([c], field, level)
            == if !IsSet(field) || LevelValue(c, level) == Some(field.value) then [c] else []
  {
    assert [c][1..] == [];
  }

  /** The three narrowings in turn keep exactly the cards on the filter's path, in order. */
  lemma {:induction false} FilteredMatching(cards: seq<KnowledgeCard>, f: BrowseFilter)
    ensures Filtered(cards, f) == Matching(cards, f)
    decreases |cards|
  {
    if cards != [] {
      var c := cards[0];
      assert cards == [c] + cards[1..];
      FilteredAppend([c], cards[1..], f);
      FilteredMatching(cards[1..], f);
      NarrowOne(c, f.h1, H1);
      NarrowOne(c, f.h2, H2);
      NarrowOne(c, f.h3, H3);
      assert Narrow([], f.h2, H2) == [] && Narrow([], f.h3, H3) == [];
    }
  }

  /** A card is among the matching ones exactly when it is one of the cards and on the
      filter's path. */
  lemma {:induction false} MatchingMembers(cards: seq<KnowledgeCard>, f: BrowseFilter)
    ensures forall c :: c in Matching(cards, f) <==> c in cards && Matches(c, f)
    decreases |cards|
  {
    if cards != [] {
      MatchingMembers(cards[1..], f);
      assert cards == [cards[0]] + cards[1..];
    }
  }

  /** The folders of `groupByCategory`: one per distinct heading key, in order of first
      appearance, each with the number of cards under that key (at least one), the heading
      value of the first of them as title, and counts adding up to the number of cards. */
  lemma GroupedMeaning(cards: seq<KnowledgeCard>, level: FolderLevel)
    ensures var items, ks := Grouped(cards, level), Keys(cards, level);
      && |items| == |Dedup(ks)|
      && (forall i | 0 <= i < |items| ::
            && items[i].Folder? && items[i].level == level
            && Dedup(ks)[i] in ks
            && items[i].title == LevelValue(cards[FirstIndex(ks, Dedup(ks)[i])], level)
            && items[i].count == multiset(ks)[Dedup(ks)[i]] >= 1)
      && (forall i, j | 0 <= i < j < |items| :: FirstIndex(ks, Dedup(ks)[i]) < FirstIndex(ks, Dedup(ks)[j]))
      && TotalCount(items) == |cards|
  {
    var ks := Keys(cards, level);
    GroupsDescribe(cards, level);
    DedupFacts(ks);
    GroupsTotal(cards, level);
  }

  /** There is a folder as soon as there is a card. */
  lemma GroupedNonEmpty(cards: seq<KnowledgeCard>, level: FolderLevel)
    ensures |Grouped(cards, level)| == 0 <==> cards == []
  {
    GroupsDescribe(cards, level);
    var ks := Keys(cards, level);
    DedupFacts(ks);
    if cards != [] {
      assert ks[0] in Dedup(ks);
    }
  }

  /** Relabelling keeps each folder's level and count and gives it a title: its own when
      that is present and not empty, `fallback` otherwise. */
  lemma RelabelMeaning(items: seq<KnowledgeBrowseItem>, fallback: string)
    requires forall i | 0 <= i < |items| :: items[i].Folder?
    ensures var r := Relabel(items, fallback);
      forall i | 0 <= i < |items| ::
        && r[i].Folder? && r[i].level == items[i].level && r[i].count == items[i].count
        && r[i].title.Some?
        && (r[i].title == Some(fallback) || r[i].title == items[i].title)
        && (items[i].title.None? || items[i].title == Some("") ==> r[i].title == Some(fallback))
  {
  }

  /** Relabelling keeps the total count. */
  lemma {:induction false} RelabelTotal(items: seq<KnowledgeBrowseItem>, fallback: string)
    ensures TotalCount(Relabel(items, fallback)) == TotalCount(items)
    decreases |items|
  {
    if items != [] {
      var n := |items| - 1;
      assert Relabel(items, fallback)[..n] == Relabel(items[..n], fallback);
      RelabelTotal(items[..n], fallback);
    }
  }

  /** The list is empty exactly when no card is on the filter's path. */
  lemma BrowseEmpty(cards: seq<KnowledgeCard>, f: BrowseFilter)
    ensures GetBrowseItems(cards, f) == [] <==> forall c | c in cards :: !Matches(c, f)
  {
    var m := Matching(cards, f);
    FilteredMatching(cards, f);
    MatchingMembers(cards, f);
    GroupedNonEmpty(m, H1);
    GroupedNonEmpty(m, H2);
    GroupedNonEmpty(m, H3);
    if m != [] {
      assert m[0] in m;
    }
  }

  /** Without an h1 in force, the list is the h1 folders of the matching cards. */
  lemma BrowseTopLevel(cards: seq<KnowledgeCard>, f: BrowseFilter)
    requires !IsSet(f.h1)
    ensures GetBrowseItems(cards, f) == Grouped(Matching(cards, f), H1)
  {
    FilteredMatching(cards, f);
  }

  /** Two cards under different keys make two folders. */
  lemma TwoKeysTwoFolders(cards: seq<KnowledgeCard>, level: FolderLevel, i: nat, j: nat)
    requires i < |cards| && j < |cards|
    requires GroupKey(LevelValue(cards[i], level)) != GroupKey(LevelValue(cards[j], level))
    ensures |Grouped(cards, level)| > 1
  {
    var ks := Keys(cards, level);
    assert ks[i] in ks && ks[j] in ks && ks[i] != ks[j];
    TwoKeysKept(ks, ks[i], ks[j]);
    GroupsDescribe(cards, level);
  }

  /** Two different keys are both among the distinct keys. */
  lemma TwoKeysKept(ks: seq<string>, a: string, b: string)
    requires a in ks && b in ks && a != b
    ensures |Dedup(ks)| > 1
  {
    DedupMembers(ks, a);
    DedupMembers(ks, b);
    TwoMembers(Dedup(ks), a, b);
  }

  lemma DedupMembers(ks: seq<string>, k: string)
    requires k in ks
    ensures k in Dedup(ks)
  {
    DedupFacts(ks);
  }

  lemma TwoMembers<T>(s: seq<T>, a: T, b: T)
    requires a in s && b in s && a != b
    ensures |s| > 1
  {
    var i :| 0 <= i < |s| && s[i] == a;
    var j :| 0 <= j < |s| && s[j] == b;
    assert i != j;
  }

  /** A folder has title `s`. */
  predicate Titled(items: seq<KnowledgeBrowseItem>, s: string) {
    exists q | 0 <= q < |items| :: items[q].Folder? && items[q].title == Some(s)
  }

  /** A card whose heading is not spelled like the sentinel gives its folder that heading as
      title. */
  lemma HeadingTitlesFolder(cards: seq<KnowledgeCard>, level: FolderLevel, i: nat)
    requires i < |cards| && LevelValue(cards[i], level).Some? && LevelValue(cards[i], level).value != NullKey
    ensures Titled(Grouped(cards, level), LevelValue(cards[i], level).value)
  {
    var ks, gs := Keys(cards, level), Groups(cards, level);
    var s := LevelValue(cards[i], level).value;
    assert ks[i] == s;
    DedupFacts(ks);
    assert s in Dedup(ks);
    var q :| 0 <= q < |Dedup(ks)| && Dedup(ks)[q] == s;
    GroupsDescribe(cards, level);
    assert gs[q].key == s;
    var v := LevelValue(cards[FirstIndex(ks, s)], level);
    assert gs[q].title == v && GroupKey(v) == s;
    assert Folders(gs, level)[q].title == Some(s);
  }

  /** With an h1 in force and no h2, two matching cards under different h2 keys are enough
      for the h2 folders, relabelled. */
  lemma BrowseTwoH2Keys(cards: seq<KnowledgeCard>, f: BrowseFilter, i: nat, j: nat)
    requires IsSet(f.h1) && !IsSet(f.h2)
    requires var m := Matching(cards, f);
      i < |m| && j < |m| && GroupKey(m[i].h2) != GroupKey(m[j].h2)
    ensures GetBrowseItems(cards, f) == Relabel(Grouped(Matching(cards, f), H2), NoH2Label)
  {
    FilteredMatching(cards, f);
    TwoKeysTwoFolders(Matching(cards, f), H2, i, j);
  }

  /** With an h1 in force and no h2, a matching card with an h2 other than `未分类` (and
      not spelled like the sentinel) is enough for the h2 folders, relabelled. */
  lemma BrowseValidH2(cards: seq<KnowledgeCard>, f: BrowseFilter, i: nat)
    requires IsSet(f.h1) && !IsSet(f.h2)
    requires var m := Matching(cards, f);
      i < |m| && m[i].h2.Some? && m[i].h2.value != Uncategorized && m[i].h2.value != NullKey
    ensures GetBrowseItems(cards, f) == Relabel(Grouped(Matching(cards, f), H2), NoH2Label)
  {
    var m := Matching(cards, f);
    FilteredMatching(cards, f);
    HeadingTitlesFolder(m, H2, i);
    assert HasValidH2(Grouped(m, H2));
  }

  /** The cards give no h2 folders worth showing: they all share one h2 key, and the first
      of them, whose heading titles the only folder, has no h2 or `未分类`. */
  predicate SharedPlainH2(m: seq<KnowledgeCard>) {
    m != [] ==>
      && (forall i | 0 <= i < |m| :: GroupKey(m[i].h2) == GroupKey(m[0].h2))
      && (m[0].h2.None? || m[0].h2 == Some(Uncategorized))
  }

  /** The first folder is the first card's. */
  lemma FirstFolder(cards: seq<KnowledgeCard>, level: FolderLevel)
    requires cards != []
    ensures var items := Grouped(cards, level);
      |items| > 0 && items[0] == Folder(level, LevelValue(cards[0], level), items[0].count)
  {
    var ks := Keys(cards, level);
    GroupedMeaning(cards, level);
    DedupFacts(ks);
    var d := Dedup(ks);
    assert ks[0] in d;
    var j :| 0 <= j < |d| && d[j] == ks[0];
    assert FirstIndex(ks, ks[0]) == 0;
    var first := FirstIndex(ks, d[0]);
    assert j == 0;
  }

  /** Cards that all share one key make one folder. */
  lemma {:induction false} DedupOneKey(ks: seq<string>)
    requires ks != [] && forall i | 0 <= i < |ks| :: ks[i] == ks[0]
    ensures Dedup(ks) == [ks[0]]
    decreases |ks|
  {
    if |ks| > 1 {
      var p := ks[..|ks| - 1];
      DedupOneKey(p);
    }
  }

  /** The test of lines 31-32 fails exactly when the cards share one plain h2 key. */
  lemma {:induction false} H2PassedExactly(m: seq<KnowledgeCard>)
    ensures !(HasValidH2(Grouped(m, H2)) || |Grouped(m, H2)| > 1) <==> SharedPlainH2(m)
  {
    var items, ks := Grouped(m, H2), Keys(m, H2);
    GroupedMeaning(m, H2);
    DedupFacts(ks);
    GroupedNonEmpty(m, H2);
    if m != [] {
      FirstFolder(m, H2);
      var d := Dedup(ks);
      if |items| == 1 {
        forall i | 0 <= i < |m| ensures GroupKey(m[i].h2) == GroupKey(m[0].h2) {
          assert ks[i] in d && ks[0] in d;
        }
        if !HasValidH2(items) {
          assert items[0].title == m[0].h2;
        } else {
          var q :| 0 <= q < |items| && items[q].Folder? && items[q].title.Some? && items[q].title.value != Uncategorized;
          assert q == 0;
        }
      }
      if SharedPlainH2(m) {
        DedupOneKey(ks);
        assert !HasValidH2(items);
      }
    }
  }

  /** With an h1 in force, no h2, and some matching card, the list is the h2 folders,
      relabelled, exactly when the matching cards do not share one plain h2 key. */
  lemma BrowseH2Folders(cards: seq<KnowledgeCard>, f: BrowseFilter)
    requires IsSet(f.h1) && !IsSet(f.h2) && Matching(cards, f) != []
    ensures GetBrowseItems(cards, f) == Relabel(Grouped(Matching(cards, f), H2), NoH2Label)
            <==> !SharedPlainH2(Matching(cards, f))
  {
    var m := Matching(cards, f);
    FilteredMatching(cards, f);
    H2PassedExactly(m);
    FirstFolder(m, H2);
    FirstFolder(m, H3);
    var byH2 := Relabel(Grouped(m, H2), NoH2Label);
    assert byH2[0].Folder? && byH2[0].level == H2;
    assert Notes(m)[0].Note?;
    assert Relabel(Grouped(m, H3), NoH3Label)[0].level == H3;
  }

  /** Once the h2 level is in force or passed over, and no h3 is, matching cards that all
      lack an h3 are listed as notes: unlike the h2 level, a single folder of cards without
      a heading is skipped. */
  lemma BrowseNoH3(cards: seq<KnowledgeCard>, f: BrowseFilter)
    requires IsSet(f.h1) && !IsSet(f.h3)
    requires IsSet(f.h2) || SharedPlainH2(Matching(cards, f))
    requires forall c | c in Matching(cards, f) :: c.h3.None?
    ensures GetBrowseItems(cards, f) == Notes(Matching(cards, f))
  {
    var m := Matching(cards, f);
    FilteredMatching(cards, f);
    H2PassedExactly(m);
    UntitledH3Folders(m);
  }

  /** Cards without an h3 make h3 folders without a title. */
  lemma UntitledH3Folders(m: seq<KnowledgeCard>)
    requires forall c | c in m :: c.h3.None?
    ensures forall q | 0 <= q < |Grouped(m, H3)| :: Grouped(m, H3)[q].title.None?
  {
    var ks := Keys(m, H3);
    GroupedMeaning(m, H3);
    var items := Grouped(m, H3);
    forall q | 0 <= q < |items| ensures items[q].title.None? {
      assert m[FirstIndex(ks, Dedup(ks)[q])] in m;
    }
  }

  /** Once the h2 level is in force or passed over, and no h3 is, a matching card with an
      h3 (not spelled like the sentinel) is enough for the h3 folders, relabelled. */
  lemma BrowseValidH3(cards: seq<KnowledgeCard>, f: BrowseFilter, i: nat)
    requires IsSet(f.h1) && !IsSet(f.h3)
    requires IsSet(f.h2) || SharedPlainH2(Matching(cards, f))
    requires var m := Matching(cards, f);
      i < |m| && m[i].h3.Some? && m[i].h3.value != NullKey
    ensures GetBrowseItems(cards, f) == Relabel(Grouped(Matching(cards, f), H3), NoH3Label)
  {
    var m := Matching(cards, f);
    FilteredMatching(cards, f);
    H2PassedExactly(m);
    HeadingTitlesFolder(m, H3, i);
    assert HasValidH3(Grouped(m, H3));
  }

  /** With the h1 and h3 filters in force, and the h2 filter in force or the h2 level passed
      over, the matching cards are listed as notes, in order, each under its own title. */
  lemma BrowseLeaf(cards: seq<KnowledgeCard>, f: BrowseFilter)
    requires IsSet(f.h1) && IsSet(f.h3)
    requires IsSet(f.h2) || SharedPlainH2(Matching(cards, f))
    ensures GetBrowseItems(cards, f) == Notes(Matching(cards, f))
    ensures var r, m := GetBrowseItems(cards, f), Matching(cards, f);
      |r| == |m| && forall i | 0 <= i < |m| :: r[i] == Note(m[i], m[i].title)
  {
    FilteredMatching(cards, f);
    H2PassedExactly(Matching(cards, f));
  }

  /** When the list is folders, their counts add up to the number of matching cards. */
  lemma BrowseTotal(cards: seq<KnowledgeCard>, f: BrowseFilter)
    requires var r := GetBrowseItems(cards, f);
      r != [] && r[0].Folder?
    ensures TotalCount(GetBrowseItems(cards, f)) == |Matching(cards, f)|
  {
    var m := Matching(cards, f);
    FilteredMatching(cards, f);
    GroupedMeaning(m, H1);
    GroupedMeaning(m, H2);
    GroupedMeaning(m, H3);
    RelabelTotal(Grouped(m, H2), NoH2Label);
    RelabelTotal(Grouped(m, H3), NoH3Label);
  }
}
