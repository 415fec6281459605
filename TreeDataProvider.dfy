/** The state behind the tree view of tree-data-provider.ts: the pending
    (Korean) and applied (i18n) texts of the active document, the IDs of the
    texts excluded from the pending list, and the sections the view shows. */
module TreeDataProvider {
  import opened Wrappers
  import opened JsStrings
  import opened Seqs

  /** A document range, as offsets. */
  datatype TextRange = TextRange(start: nat, end: nat)

  /** The kind of a text reported to `updateData`. */
  datatype TextType = Korean | I18n

  /** One text reported to `updateData`. */
  datatype TextInfo = TextInfo(text: string, textType: TextType, range: Option<TextRange>)

  /** The type of a tree item. */
  datatype ItemType = KoreanText | I18nText | PendingSection | CompletedSection

  /** A tree item: its label (`text`), its type, the range of its text and, for a
      section, its children. */
  datatype Item = Item(text: string, itemType: ItemType, range: Option<TextRange>, children: seq<Item>)

  function IsKorean(t: TextInfo): bool { t.textType == Korean }

  /** The item of a reported text. */
  function TextItem(itemType: ItemType): TextInfo -> Item {
    (t: TextInfo) => Item(t.text, itemType, t.range, [])
  }

  /** The pending items: those of the Korean texts, in order. */
  function KoreanItems(texts: seq<TextInfo>): seq<Item> {
    Map(Keep(texts, IsKorean), TextItem(KoreanText))
  }

  /** The applied items: those of the i18n texts, in order. */
  function I18nItems(texts: seq<TextInfo>): seq<Item> {
    Map(Keep(texts, Not(IsKorean)), TextItem(I18nText))
  }

  /** An item whose ID is not excluded. */
  function Visible(uniqueId: Item -> string, excluded: set<string>): Item -> bool {
    (item: Item) => uniqueId(item) !in excluded
  }

  function Label(item: Item): string { item.text }

  /** The labels of `items`, in order. */
  function Labels(items: seq<Item>): (labels: seq<string>)
    ensures |labels| == |items| && forall i :: 0 <= i < |items| ==> labels[i] == items[i].text
  {
    Map(items, Label)
  }

  /** The items of the texts satisfying `p` are exactly the items of those
      texts. */
  lemma ItemsOfTexts(texts: seq<TextInfo>, p: TextInfo -> bool, itemType: ItemType)
    ensures forall t :: t in texts && p(t) ==> TextItem(itemType)(t) in Map(Keep(texts, p), TextItem(itemType))
    ensures forall item :: item in Map(Keep(texts, p), TextItem(itemType)) ==>
      exists t :: t in texts && p(t) && item == TextItem(itemType)(t)
  {
    KeepMembers(texts, p);
    var kept := Keep(texts, p);
    var items := Map(kept, TextItem(itemType));
    forall t | t in texts && p(t)
      ensures TextItem(itemType)(t) in items
    {
      var k :| 0 <= k < |kept| && kept[k] == t;
      assert items[k] == TextItem(itemType)(t);
    }
    forall item | item in items
      ensures exists t :: t in texts && p(t) && item == TextItem(itemType)(t)
    {
      var k :| 0 <= k < |items| && items[k] == item;
      assert kept[k] in kept;
    }
  }

  /** Every reported text becomes exactly one item: the Korean ones pending,
      the others applied, each list in the order of the texts, with the text
      as label and its range. */
  lemma UpdatedItems(texts: seq<TextInfo>)
    ensures |KoreanItems(texts)| + |I18nItems(texts)| == |texts|
    ensures forall t :: t in texts && t.textType == Korean ==> Item(t.text, KoreanText, t.range, []) in KoreanItems(texts)
    ensures forall t :: t in texts && t.textType == I18n ==> Item(t.text, I18nText, t.range, []) in I18nItems(texts)
    ensures forall item :: item in KoreanItems(texts) ==>
      exists t :: t in texts && t.textType == Korean && item == Item(t.text, KoreanText, t.range, [])
    ensures forall item :: item in I18nItems(texts) ==>
      exists t :: t in texts && t.textType == I18n && item == Item(t.text, I18nText, t.range, [])
  {
    KeepSplits(texts, IsKorean);
    ItemsOfTexts(texts, IsKorean, KoreanText);
    ItemsOfTexts(texts, Not(IsKorean), I18nText);
  }

  /** The visible items are those of `items` whose ID is not excluded, in
      their order. */
  lemma VisibleItems(items: seq<Item>, uniqueId: Item -> string, excluded: set<string>)
    ensures forall item :: item in Keep(items, Visible(uniqueId, excluded)) <==>
      item in items && uniqueId(item) !in excluded
    ensures Subsequence(Keep(items, Visible(uniqueId, excluded)), items)
  {
    KeepMembers(items, Visible(uniqueId, excluded));
    KeepIsSubsequence(items, Visible(uniqueId, excluded));
  }

  /** Excluding one more ID hides exactly the visible items with that ID. */
  lemma {:induction false} ExcludeHides(items: seq<Item>, uniqueId: Item -> string, excluded: set<string>, id: string)
    ensures Keep(items, Visible(uniqueId, excluded + {id}))
         == Keep(Keep(items, Visible(uniqueId, excluded)), Visible(uniqueId, {id}))
    decreases |items|
  {
    if items != [] {
      var init := items[..|items| - 1];
      var last := items[|items| - 1];
      assert items == init + [last];
      ExcludeHides(init, uniqueId, excluded, id);
      KeepSnoc(Keep(init, Visible(uniqueId, excluded)), last, Visible(uniqueId, {id}));
    }
  }

  /** With nothing excluded every item is visible. */
  lemma NothingExcluded(items: seq<Item>, uniqueId: Item -> string)
    ensures Keep(items, Visible(uniqueId, {})) == items
  {
    KeepAll(items, Visible(uniqueId, {}));
  }

  /** The tree data provider. */
  class I18nTreeDataProvider {
    var koreanTexts: seq<Item>
    var i18nTexts: seq<Item>
    var isActive: bool
    var excludedTextIds: set<string>
    /** `I18nItem.getUniqueId`. */
    const uniqueId: Item -> string

    constructor(uniqueId: Item -> string)
      ensures koreanTexts == [] && i18nTexts == [] && !isActive && excludedTextIds == {}
      ensures this.uniqueId == uniqueId
    {
      koreanTexts := [];
      i18nTexts := [];
      isActive := false;
      excludedTextIds := {};
      this.uniqueId := uniqueId;
    }

    /** The pending items not excluded. */
    function FilteredItems(): seq<Item>
      reads this
    {
      Keep(koreanTexts, Visible(uniqueId, excludedTextIds))
    }

    /** `getAllKoreanTexts`. */
    function GetAllKoreanTexts(): seq<string>
      reads this
    {
      Labels(koreanTexts)
    }

    /** `getFilteredKoreanTexts`. */
    function GetFilteredKoreanTexts(): seq<string>
      reads this
    {
      Labels(FilteredItems())
    }

    function GetExcludedTexts(): set<string>
      reads this
    {
      excludedTextIds
    }

    function GetActive(): bool
      reads this
    {
      isActive
    }

    /** `getChildren`: at the root the pending section, counting and holding
        the items not excluded, and the applied section holding the i18n
        items; below a section its items; below anything else nothing. */
    function GetChildren(element: Option<Item>): (children: seq<Item>)
      reads this
      ensures element.None? ==>
        |children| == 2
        && children[0].itemType == PendingSection && children[0].children == FilteredItems()
        && children[0].text == "\U{1F310} Pending (" + NatToString(|FilteredItems()|) + ")"
        && children[1].itemType == CompletedSection && children[1].children == i18nTexts
        && children[1].text == "✅ Applied (" + NatToString(|i18nTexts|) + ")"
      ensures element.Some? && element.value.itemType == PendingSection ==> children == FilteredItems()
      ensures element.Some? && element.value.itemType == CompletedSection ==> children == i18nTexts
      ensures element.Some? && element.value.itemType !in {PendingSection, CompletedSection} ==> children == []
    {
      match element
      case None =>
        var filtered := FilteredItems();
        [Item("\U{1F310} Pending (" + NatToString(|filtered|) + ")", PendingSection, None, filtered),
         Item("✅ Applied (" + NatToString(|i18nTexts|) + ")", CompletedSection, None, i18nTexts)]
      case Some(e) =>
        if e.itemType == PendingSection then FilteredItems()
        else if e.itemType == CompletedSection then i18nTexts
        else []
    }

    /** `updateData`: the two lists rebuilt from the reported texts; the
        exclusions stay. */
    method UpdateData(texts: seq<TextInfo>)
      modifies this
      ensures koreanTexts == KoreanItems(texts) && i18nTexts == I18nItems(texts)
      ensures GetAllKoreanTexts() == Map(Keep(texts, IsKorean), (t: TextInfo) => t.text)
      ensures excludedTextIds == old(excludedTextIds) && isActive == old(isActive)
    {
      koreanTexts := KoreanItems(texts);
      i18nTexts := I18nItems(texts);
    }

    method SetActive(active: bool)
      modifies this
      ensures isActive == active
      ensures koreanTexts == old(koreanTexts) && i18nTexts == old(i18nTexts)
      ensures excludedTextIds == old(excludedTextIds)
    {
      isActive := active;
    }

    /** `excludeText`: the item's ID is excluded, which hides exactly the
        pending items with that ID. */
    method ExcludeText(item: Item)
      modifies this
      ensures excludedTextIds == old(excludedTextIds) + {uniqueId(item)}
      ensures FilteredItems() == Keep(old(FilteredItems()), Visible(uniqueId, {uniqueId(item)}))
      ensures koreanTexts == old(koreanTexts) && i18nTexts == old(i18nTexts) && isActive == old(isActive)
    {
      ExcludeHides(koreanTexts, uniqueId, excludedTextIds, uniqueId(item));
      excludedTextIds := excludedTextIds + {uniqueId(item)};
    }

    /** `includeText`: the item's ID is no longer excluded, so every pending
        item with that ID is listed again. */
    method IncludeText(item: Item)
      modifies this
      ensures excludedTextIds == old(excludedTextIds) - {uniqueId(item)}
      ensures forall x :: x in koreanTexts && uniqueId(x) == uniqueId(item) ==> x in FilteredItems()
      ensures koreanTexts == old(koreanTexts) && i18nTexts == old(i18nTexts) && isActive == old(isActive)
    {
      excludedTextIds := excludedTextIds - {uniqueId(item)};
      VisibleItems(koreanTexts, uniqueId, excludedTextIds);
    }

    /** `clearExcludedTexts`: nothing is excluded, so the filtered texts are
        all the texts. */
    method ClearExcludedTexts()
      modifies this
      ensures excludedTextIds == {}
      ensures GetFilteredKoreanTexts() == GetAllKoreanTexts()
      ensures koreanTexts == old(koreanTexts) && i18nTexts == old(i18nTexts) && isActive == old(isActive)
    {
      excludedTextIds := {};
      NothingExcluded(koreanTexts, uniqueId);
    }
  }

  /** What the pending texts show: the labels of the pending items whose ID
      is not excluded, in their order, every one of them. */
  lemma FilteredKoreanTexts(p: I18nTreeDataProvider)
    ensures |p.GetFilteredKoreanTexts()| <= |p.GetAllKoreanTexts()|
    ensures forall item :: item in p.FilteredItems() <==> item in p.koreanTexts && p.uniqueId(item) !in p.excludedTextIds
    ensures Subsequence(p.FilteredItems(), p.koreanTexts)
    ensures p.excludedTextIds == {} ==> p.GetFilteredKoreanTexts() == p.GetAllKoreanTexts()
  {
    VisibleItems(p.koreanTexts, p.uniqueId, p.excludedTextIds);
    KeepSplits(p.koreanTexts, Visible(p.uniqueId, p.excludedTextIds));
    NothingExcluded(p.koreanTexts, p.uniqueId);
  }
}
