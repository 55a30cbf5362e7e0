/**
 * The model editor panel: a tree of model entities and their attributes,
 * filtered and highlighted by a filter text, with the import merge and the
 * removal cascade.
 *
 * The tree widget is abstracted to its item sequence (in insertion order),
 * the "name" and "type" property of each item, the parent of each child item
 * and the selection. Items are the entity and attribute objects themselves.
 * Calls to the configuration service are recorded in the order they are made.
 */
module EditModel {
  import opened Common

  /** A model entity's attribute. Only its entity back-pointer changes here. */
  class ModelAttribute {
    const id: string
    const name: string
    const dataType: string
    var entity: ModelEntity?

    constructor (id: string, name: string, dataType: string)
      ensures this.id == id && this.name == name && this.dataType == dataType && entity == null
    {
      this.id := id;
      this.name := name;
      this.dataType := dataType;
      entity := null;
    }
  }

  /** A model entity. Only its attribute list changes here. */
  class ModelEntity {
    const id: string
    const name: string
    var modelAttributes: seq<ModelAttribute>

    constructor (id: string, name: string, modelAttributes: seq<ModelAttribute>)
      ensures this.id == id && this.name == name && this.modelAttributes == modelAttributes
    {
      this.id := id;
      this.name := name;
      this.modelAttributes := modelAttributes;
    }

    /** getModelAttributeByName: the first attribute with exactly this name. */
    function GetModelAttributeByName(attributeName: string): Option<ModelAttribute>
      reads this
    {
      AttributeNamed(modelAttributes, attributeName)
    }

    /** addModelAttribute: appends the attribute. */
    method AddModelAttribute(a: ModelAttribute)
      modifies this`modelAttributes
      ensures modelAttributes == old(modelAttributes) + [a]
    {
      modelAttributes := modelAttributes + [a];
    }

    /** removeModelAttribute: the attribute is no longer in the list. */
    method RemoveModelAttribute(a: ModelAttribute)
      modifies this`modelAttributes
      ensures modelAttributes == Without(old(modelAttributes), {a})
    {
      modelAttributes := Without(modelAttributes, {a});
    }
  }

  /** The first attribute with the given name. */
  function AttributeNamed(attrs: seq<ModelAttribute>, attributeName: string): (r: Option<ModelAttribute>)
    ensures r.None? <==> forall j :: 0 <= j < |attrs| ==> attrs[j].name != attributeName
    ensures r.Some? ==> r.value in attrs && r.value.name == attributeName
  {
    if attrs == [] then None
    else if attrs[0].name == attributeName then Some(attrs[0])
    else
      var r := AttributeNamed(attrs[1..], attributeName);
      assert forall j :: 1 <= j < |attrs| ==> attrs[j] == attrs[1..][j - 1];
      r
  }

  /** The elements that are not in `gone`, in order: an attribute list or
      the tree's item sequence after a removal. */
  function Without<T(==)>(attrs: seq<T>, gone: set<T>): (r: seq<T>)
    ensures forall j :: 0 <= j < |r| ==> r[j] in attrs && r[j] !in gone
    ensures forall j :: 0 <= j < |attrs| && attrs[j] !in gone ==> attrs[j] in r
  {
    if attrs == [] then []
    else
      var last := attrs[|attrs| - 1];
      Without(attrs[..|attrs| - 1], gone) + (if last in gone then [] else [last])
  }

  // ---- The highlighter ----

  const HighlightOpen: string := "<span class='highlight'>"
  const HighlightClose: string := "</span>"

  /** getName: the label of an item. A non-blank filter found in the name
      has its first occurrence wrapped in a highlight span. */
  function GetName(filter: string, name: string): string
  {
    if !IsBlank(filter) && Contains(name, filter) then
      var start := IndexOf(name, filter);
      var pre := if start < |name| then name[..start] else "";
      var highlighted := name[start..start + |filter|];
      var post := if start + |filter| < |name| then name[start + |filter|..] else "";
      pre + HighlightOpen + highlighted + HighlightClose + post
    else name
  }

  /** The label is the plain name exactly when the filter is blank or not
      found in the name. */
  lemma GetNamePlainIffNoMatch(filter: string, name: string)
    ensures GetName(filter, name) == name <==> IsBlank(filter) || !Contains(name, filter)
  {
    if !IsBlank(filter) && Contains(name, filter) {
      assert |GetName(filter, name)| > |name|;
    }
  }

  /** A highlighted label is the text before the first occurrence, the
      opening span, the filter, the closing span and the rest; taking the
      spans out gives back the name. */
  lemma GetNameHighlightsFirstOccurrence(filter: string, name: string)
    requires !IsBlank(filter) && Contains(name, filter)
    ensures var start := IndexOf(name, filter);
            && 0 <= start && start + |filter| <= |name|
            && (forall j :: 0 <= j < start ==> !OccursAt(name, filter, j))
            && name[..start] + filter + name[start + |filter|..] == name
            && GetName(filter, name)
               == name[..start] + HighlightOpen + filter + HighlightClose + name[start + |filter|..]
  {
    var start := IndexOf(name, filter);
    assert IsBlank("");
    assert name[start..start + |filter|] == filter;
    if start + |filter| == |name| {
      assert name[start + |filter|..] == "";
    }
    assert name[..start] + name[start..start + |filter|] + name[start + |filter|..] == name;
  }

  /** With the blank filter every label is the plain name. */
  lemma BlankFilterLabelsPlain(name: string)
    ensures GetName("", name) == name
  {
  }

  // ---- Listings ----

  /** An entity with the attribute list it has at one moment: the pure view
      of the entities that the functions below describe the tree by. */
  datatype Listing = Listing(entity: ModelEntity, attributes: seq<ModelAttribute>)

  function ListingOf(e: ModelEntity): Listing
    reads e
  {
    Listing(e, e.modelAttributes)
  }

  /** The listings of a sequence of entities. */
  function Snapshot(es: seq<ModelEntity>): (ls: seq<Listing>)
    reads es
    ensures |ls| == |es| && forall j :: 0 <= j < |es| ==> ls[j] == ListingOf(es[j])
  {
    if es == [] then [] else Snapshot(es[..|es| - 1]) + [ListingOf(es[|es| - 1])]
  }

  // ---- The filter of addAll ----

  /** The addAll test: the filter is blank, or the entity's name or one of
      its attributes' names contains it. */
  predicate Matches(filter: string, l: Listing)
  {
    || IsBlank(filter)
    || Contains(l.entity.name, filter)
    || exists j :: 0 <= j < |l.attributes| && Contains(l.attributes[j].name, filter)
  }

  /** The entities addAll puts in the tree, in collection order. */
  function Included(filter: string, ls: seq<Listing>): seq<Listing>
  {
    if ls == [] then []
    else
      Included(filter, ls[..|ls| - 1]) + (if Matches(filter, ls[|ls| - 1]) then [ls[|ls| - 1]] else [])
  }

  /** An entity is included exactly when it is in the collection and matches. */
  lemma {:induction false} IncludedIffMatches(filter: string, ls: seq<Listing>)
    ensures forall l :: l in Included(filter, ls) <==> l in ls && Matches(filter, l)
    decreases |ls|
  {
    if ls != [] {
      var init := ls[..|ls| - 1];
      IncludedIffMatches(filter, init);
      assert ls == init + [ls[|ls| - 1]];
    }
  }

  /** With the blank filter every entity is included. */
  lemma {:induction false} BlankFilterIncludesAll(ls: seq<Listing>)
    ensures Included("", ls) == ls
    decreases |ls|
  {
    if ls != [] {
      BlankFilterIncludesAll(ls[..|ls| - 1]);
      assert ls == ls[..|ls| - 1] + [ls[|ls| - 1]];
    }
  }

  // ---- The tree ----

  /** A tree item: a model entity or a model attribute. */
  datatype TreeItem = EntityItem(entity: ModelEntity) | AttributeItem(attribute: ModelAttribute)

  function ItemName(it: TreeItem): string
  {
    match it
    case EntityItem(e) => e.name
    case AttributeItem(a) => a.name
  }

  /** Adding an item the tree already holds leaves the item sequence as it is. */
  function Inserted(items: seq<TreeItem>, it: TreeItem): seq<TreeItem>
  {
    if it in items then items else items + [it]
  }

  /** The item sequence after adding each of `news` in turn. */
  function InsertAll(items: seq<TreeItem>, news: seq<TreeItem>): (r: seq<TreeItem>)
    ensures |items| <= |r| && r[..|items|] == items
  {
    if news == [] then items
    else Inserted(InsertAll(items, news[..|news| - 1]), news[|news| - 1])
  }

  /** The items for a list of attributes. */
  function AttributeItems(attrs: seq<ModelAttribute>): (r: seq<TreeItem>)
    ensures |r| == |attrs|
    ensures forall j :: 0 <= j < |attrs| ==> r[j] == AttributeItem(attrs[j])
  {
    if attrs == [] then [] else AttributeItems(attrs[..|attrs| - 1]) + [AttributeItem(attrs[|attrs| - 1])]
  }

  /** The items add puts in the tree for an entity: the entity, then all of
      its attributes. */
  function Rows(l: Listing): seq<TreeItem>
  {
    [EntityItem(l.entity)] + AttributeItems(l.attributes)
  }

  /** The items for a sequence of entities. */
  function AllRows(ls: seq<Listing>): seq<TreeItem>
  {
    if ls == [] then [] else AllRows(ls[..|ls| - 1]) + Rows(ls[|ls| - 1])
  }

  /** The properties of a tree item: its "name" label, its "type" label and
      its parent. */
  datatype Row = Row(nameLabel: string, typeLabel: string, parent: Option<TreeItem>)

  /** The entity an attribute points back at, if any. */
  function Owner(a: ModelAttribute): Option<ModelEntity>
    reads a
  {
    if a.entity == null then None else Some(a.entity)
  }

  /** The row addModelEntity writes. */
  function EntityRow(filter: string, e: ModelEntity): Row
  {
    Row(GetName(filter, e.name), "", None)
  }

  /** The row addModelAttribute writes for an attribute with the given owner. */
  function AttributeRow(filter: string, a: ModelAttribute, owner: Option<ModelEntity>): Row
  {
    Row(GetName(filter, a.name), a.dataType, if owner.Some? then Some(EntityItem(owner.value)) else None)
  }

  /** The rows add writes for `rows`, its attributes pointed back at `e`. */
  function OwnedRows(filter: string, e: ModelEntity, rows: seq<TreeItem>): map<TreeItem, Row>
  {
    map it | it in rows :: if it.EntityItem? then EntityRow(filter, it.entity) else AttributeRow(filter, it.attribute, Some(e))
  }

  /** The rows addAll writes for the entities it adds: each attribute is
      placed under the last of them that lists it. */
  function ShownRows(filter: string, ls: seq<Listing>): map<TreeItem, Row>
  {
    map it | it in AllRows(ls) ::
      if it.EntityItem? then EntityRow(filter, it.entity) else AttributeRow(filter, it.attribute, LastListing(ls, it.attribute))
  }

  lemma OwnedRowsSnoc(filter: string, e: ModelEntity, rows: seq<TreeItem>, a: ModelAttribute)
    ensures OwnedRows(filter, e, rows + [AttributeItem(a)])
            == OwnedRows(filter, e, rows)[AttributeItem(a) := AttributeRow(filter, a, Some(e))]
  {
  }

  /** Updating a union at one key is updating its right operand there. */
  lemma UnionUpdate<K, V>(m: map<K, V>, n: map<K, V>, k: K, v: V)
    ensures (m + n)[k := v] == m + n[k := v]
  {
  }

  lemma UnionAssoc<K, V>(m: map<K, V>, n: map<K, V>, p: map<K, V>)
    ensures m + n + p == m + (n + p)
  {
  }

  /** Adding items keeps the earlier ones, adds each new item once, and adds
      nothing else. */
  lemma {:induction false} InsertAllContents(items: seq<TreeItem>, news: seq<TreeItem>)
    ensures forall it :: it in InsertAll(items, news) <==> it in items || it in news
    ensures (forall i, j :: 0 <= i < j < |items| ==> items[i] != items[j]) ==>
              forall i, j :: 0 <= i < j < |InsertAll(items, news)| ==> InsertAll(items, news)[i] != InsertAll(items, news)[j]
    decreases |news|
  {
    if news != [] {
      var init := news[..|news| - 1];
      InsertAllContents(items, init);
      assert news == init + [news[|news| - 1]];
    }
  }

  /** Adding two runs of items is adding their concatenation. */
  lemma {:induction false} InsertAllAppend(items: seq<TreeItem>, xs: seq<TreeItem>, ys: seq<TreeItem>)
    ensures InsertAll(InsertAll(items, xs), ys) == InsertAll(items, xs + ys)
    decreases |ys|
  {
    if ys == [] {
      assert xs + ys == xs;
    } else {
      var init := ys[..|ys| - 1];
      InsertAllAppend(items, xs, init);
      assert (xs + ys)[..|xs + ys| - 1] == xs + init;
      assert (xs + ys)[|xs + ys| - 1] == ys[|ys| - 1];
    }
  }

  /** The position of the last listing of `a` in `ls`, or -1. */
  function LastIndex(ls: seq<Listing>, a: ModelAttribute): (k: int)
    ensures -1 <= k < |ls|
    ensures k == -1 <==> forall j :: 0 <= j < |ls| ==> a !in ls[j].attributes
    ensures 0 <= k ==> a in ls[k].attributes && forall j :: k < j < |ls| ==> a !in ls[j].attributes
  {
    if ls == [] then -1
    else if a in ls[|ls| - 1].attributes then |ls| - 1
    else
      var k := LastIndex(ls[..|ls| - 1], a);
      assert forall j :: 0 <= j < |ls| - 1 ==> ls[j] == ls[..|ls| - 1][j];
      k
  }

  /** The entity among `ls` that lists `a` last: the one whose add ran last
      for `a` and so set its back-pointer. */
  function LastListing(ls: seq<Listing>, a: ModelAttribute): Option<ModelEntity>
  {
    var k := LastIndex(ls, a);
    if k < 0 then None else Some(ls[k].entity)
  }

  /** The attributes the listings list. */
  function AttributesIn(ls: seq<Listing>): set<ModelAttribute>
  {
    set l, a | l in ls && a in l.attributes :: a
  }

  lemma AttributesInSnoc(ls: seq<Listing>, l: Listing)
    ensures AttributesIn(ls + [l]) == AttributesIn(ls) + set a | a in l.attributes
  {
  }

  /** An entity that addAll adds lists only attributes it may change. */
  lemma IncludedAttributes(filter: string, ls: seq<Listing>, i: nat)
    requires i < |ls|
    ensures Matches(filter, ls[i]) ==> forall a :: a in ls[i].attributes ==> a in AttributesIn(Included(filter, ls))
  {
    if Matches(filter, ls[i]) {
      IncludedIffMatches(filter, ls);
      assert ls[i] in Included(filter, ls);
    }
  }

  /** Included grows by the next listing exactly when that listing matches. */
  lemma IncludedSnoc(filter: string, ls: seq<Listing>, i: nat)
    requires i < |ls|
    ensures Included(filter, ls[..i + 1])
            == if Matches(filter, ls[i]) then Included(filter, ls[..i]) + [ls[i]] else Included(filter, ls[..i])
  {
    assert ls[..i + 1][..i] == ls[..i];
  }

  /** A listing appended to `ls` takes over the attributes it lists. */
  lemma LastListingSnoc(ls: seq<Listing>, l: Listing, a: ModelAttribute)
    ensures LastListing(ls + [l], a) == if a in l.attributes then Some(l.entity) else LastListing(ls, a)
  {
    assert (ls + [l])[..|ls|] == ls;
  }

  // ---- The removal cascade ----

  /** The items the tree holds under `it`. */
  function Children(rows: map<TreeItem, Row>, it: TreeItem): set<TreeItem>
  {
    set c | c in rows && rows[c].parent == Some(it)
  }

  /** The items Remove deletes: the selected ones and the children of each. */
  function Cascade(rows: map<TreeItem, Row>, selected: set<TreeItem>): set<TreeItem>
  {
    selected + set c | c in rows && rows[c].parent.Some? && rows[c].parent.value in selected
  }

  /** The attribute items among `c`. */
  function AttributeItemsIn(c: set<TreeItem>): set<TreeItem>
  {
    set it | it in c && it.AttributeItem?
  }

  /** The entity items among `c`. */
  function EntityItemsIn(c: set<TreeItem>): set<TreeItem>
  {
    set it | it in c && it.EntityItem?
  }

  /** The attributes whose items are among `c`. */
  function AttributesOfItems(c: set<TreeItem>): set<ModelAttribute>
  {
    set it | it in c && it.AttributeItem? :: it.attribute
  }

  /** `ownerOf` records the entity each of `attrs` points back at, and
      `lists0` has a list for each of those entities. */
  ghost predicate OwnersRecorded(attrs: set<ModelAttribute>, ownerOf: map<ModelAttribute, ModelEntity>,
                                 lists0: map<ModelEntity, seq<ModelAttribute>>)
    reads attrs
  {
    forall a :: a in attrs ==> a in ownerOf && a.entity == ownerOf[a] && ownerOf[a] in lists0
  }

  /** The entity each attribute among `c` points back at. */
  function OwnerOf(c: set<TreeItem>): (ownerOf: map<ModelAttribute, ModelEntity>)
    reads AttributesOfItems(c)
    ensures forall a :: a in ownerOf ==> a in AttributesOfItems(c) && ownerOf[a] == a.entity
    ensures forall a :: a in AttributesOfItems(c) && a.entity != null ==> a in ownerOf
  {
    map a | a in AttributesOfItems(c) && a.entity != null :: a.entity
  }

  /** The entities the attributes among `c` point back at. */
  function Owners(c: set<TreeItem>): set<ModelEntity>
    reads AttributesOfItems(c)
  {
    OwnerOf(c).Values
  }

  /** The attributes among `attrs` that point back at `e`. */
  function OwnedBy(attrs: set<ModelAttribute>, ownerOf: map<ModelAttribute, ModelEntity>, e: ModelEntity): set<ModelAttribute>
  {
    set a | a in attrs && a in ownerOf && ownerOf[a] == e
  }

  /** The attribute list of each owner once the attributes among `c` are
      taken out of it. */
  function ListsAfterRemoval(c: set<TreeItem>): map<ModelEntity, seq<ModelAttribute>>
    reads AttributesOfItems(c), Owners(c)
  {
    map e | e in Owners(c) :: Without(e.modelAttributes, OwnedBy(AttributesOfItems(c), OwnerOf(c), e))
  }

  /** One more item for the cascade sets. */
  lemma ItemsInInsert(done: set<TreeItem>, x: TreeItem)
    ensures AttributeItemsIn(done + {x}) == AttributeItemsIn(done) + (if x.AttributeItem? then {x} else {})
    ensures EntityItemsIn(done + {x}) == EntityItemsIn(done) + (if x.EntityItem? then {x} else {})
    ensures AttributesOfItems(done + {x}) == AttributesOfItems(done) + (if x.AttributeItem? then {x.attribute} else {})
  {
  }

  /** The cascade of one more selected item. */
  lemma CascadeInsert(rows: map<TreeItem, Row>, selected: set<TreeItem>, s: TreeItem)
    ensures Cascade(rows, selected + {s}) == Cascade(rows, selected) + Children(rows, s) + {s}
  {
  }

  lemma AttributesOfAttributeItems(c: set<TreeItem>)
    ensures AttributesOfItems(AttributeItemsIn(c)) == AttributesOfItems(c)
  {
  }

  /** One turn of the cascade's collection: `s` leaves the to-do set. */
  lemma CascadeTurn(rows: map<TreeItem, Row>, selected: set<TreeItem>, todo: set<TreeItem>, s: TreeItem)
    requires s in todo && todo <= selected
    ensures Cascade(rows, selected - (todo - {s})) == Cascade(rows, selected - todo) + Children(rows, s) + {s}
  {
    assert selected - (todo - {s}) == (selected - todo) + {s};
    CascadeInsert(rows, selected - todo, s);
  }

  /** Taking one more item off the to-do set of a removal pass. */
  lemma PickedEntity(all: set<TreeItem>, todo: set<TreeItem>, removed: set<TreeItem>, x: TreeItem)
    requires x in todo && todo <= all && removed == EntityItemsIn(all) - todo
    ensures (if x.EntityItem? then removed + {x} else removed) == EntityItemsIn(all) - (todo - {x})
  {
  }

  lemma PickedAttribute(all: set<TreeItem>, todo: set<TreeItem>, removed: set<TreeItem>, x: TreeItem)
    requires x in todo && todo <= all && removed == AttributeItemsIn(all) - todo
    ensures (if x.AttributeItem? then removed + {x} else removed) == AttributeItemsIn(all) - (todo - {x})
  {
  }

  /** `d` lists every item of `s` exactly once, and nothing else. */
  predicate ListsOnce(d: seq<TreeItem>, s: set<TreeItem>)
  {
    && (forall j :: 0 <= j < |d| ==> d[j] in s)
    && (forall it :: it in s ==> it in d)
    && forall i, j :: 0 <= i < j < |d| ==> d[i] != d[j]
  }

  /** No attribute comes after an entity. */
  predicate AttributesFirst(d: seq<TreeItem>)
  {
    forall i, j :: 0 <= i < j < |d| && d[i].EntityItem? ==> d[j].EntityItem?
  }

  lemma ListsOnceSnoc(d: seq<TreeItem>, s: set<TreeItem>, it: TreeItem)
    requires ListsOnce(d, s) && it !in s
    ensures ListsOnce(d + [it], s + {it})
  {
  }

  /** Two removal passes over disjoint item sets list their union, with the
      first pass's items first. */
  lemma ListsOnceConcat(d1: seq<TreeItem>, s1: set<TreeItem>, d2: seq<TreeItem>, s2: set<TreeItem>)
    requires ListsOnce(d1, s1) && ListsOnce(d2, s2) && s1 !! s2
    ensures ListsOnce(d1 + d2, s1 + s2)
  {
    forall i, j | 0 <= i < j < |d1 + d2|
      ensures (d1 + d2)[i] != (d1 + d2)[j]
    {
      if i < |d1| && |d1| <= j {
        assert (d1 + d2)[i] in s1 && (d1 + d2)[j] in s2;
      }
    }
  }

  /** Removing one set of elements and then another is removing their union. */
  lemma {:induction false} WithoutTwice<T>(attrs: seq<T>, a: set<T>, b: set<T>)
    ensures Without(Without(attrs, a), b) == Without(attrs, a + b)
    decreases |attrs|
  {
    if attrs != [] {
      var init, last := attrs[..|attrs| - 1], attrs[|attrs| - 1];
      assert attrs == init + [last];
      WithoutTwice(init, a, b);
      WithoutSnoc(init, last, a);
      WithoutSnoc(init, last, a + b);
      if last in a {
        assert Without(init, a) + [] == Without(init, a);
        assert Without(init, a + b) + [] == Without(init, a + b);
      } else {
        WithoutSnoc(Without(init, a), last, b);
      }
    }
  }

  lemma WithoutSnoc<T>(xs: seq<T>, x: T, g: set<T>)
    ensures Without(xs + [x], g) == Without(xs, g) + (if x in g then [] else [x])
  {
    assert (xs + [x])[..|xs|] == xs;
  }

  /** Removing nothing keeps every element. */
  lemma {:induction false} WithoutNothing<T>(attrs: seq<T>)
    ensures Without(attrs, {}) == attrs
    decreases |attrs|
  {
    if attrs != [] {
      WithoutNothing(attrs[..|attrs| - 1]);
    }
  }

  /** The tree (items, rows) and the deletions `deleted` after removing
      `removed` from the tree (items0, rows0) with deletions `deleted0`:
      the deletions since then list `removed`. */
  predicate Removal(items0: seq<TreeItem>, rows0: map<TreeItem, Row>, deleted0: seq<TreeItem>, removed: set<TreeItem>,
                    items: seq<TreeItem>, rows: map<TreeItem, Row>, deleted: seq<TreeItem>)
  {
    && items == Without(items0, removed)
    && rows == rows0 - removed
    && |deleted0| <= |deleted| && deleted[..|deleted0|] == deleted0
    && ListsOnce(deleted[|deleted0|..], removed)
  }

  lemma NothingRemoved(items: seq<TreeItem>, rows: map<TreeItem, Row>, deleted: seq<TreeItem>)
    ensures Removal(items, rows, deleted, {}, items, rows, deleted)
  {
    WithoutNothing(items);
    assert rows - {} == rows;
    assert deleted[|deleted|..] == [];
  }

  /** Deleting and removing one more item. */
  lemma RemovalStep(items0: seq<TreeItem>, rows0: map<TreeItem, Row>, deleted0: seq<TreeItem>, removed: set<TreeItem>,
                    items: seq<TreeItem>, rows: map<TreeItem, Row>, deleted: seq<TreeItem>, it: TreeItem)
    requires Removal(items0, rows0, deleted0, removed, items, rows, deleted) && it !in removed
    ensures Removal(items0, rows0, deleted0, removed + {it}, Without(items, {it}), rows - {it}, deleted + [it])
  {
    WithoutTwice(items0, removed, {it});
    assert (deleted + [it])[..|deleted0|] == deleted0;
    assert (deleted + [it])[|deleted0|..] == deleted[|deleted0|..] + [it];
    ListsOnceSnoc(deleted[|deleted0|..], removed, it);
  }

  /** The attribute pass followed by the entity pass removes the whole
      cascade, attributes first. */
  lemma BothPasses(items0: seq<TreeItem>, rows0: map<TreeItem, Row>, deleted0: seq<TreeItem>, mid: seq<TreeItem>,
                   itemIds: set<TreeItem>, items: seq<TreeItem>, rows: map<TreeItem, Row>, deleted: seq<TreeItem>)
    requires Removal(items0, rows0, deleted0, AttributeItemsIn(itemIds),
                     Without(items0, AttributeItemsIn(itemIds)), rows0 - AttributeItemsIn(itemIds), mid)
    requires forall j :: |deleted0| <= j < |mid| ==> mid[j].AttributeItem?
    requires Removal(Without(items0, AttributeItemsIn(itemIds)), rows0 - AttributeItemsIn(itemIds), mid,
                     EntityItemsIn(itemIds), items, rows, deleted)
    requires forall j :: |mid| <= j < |deleted| ==> deleted[j].EntityItem?
    ensures Removal(items0, rows0, deleted0, itemIds, items, rows, deleted)
    ensures AttributesFirst(deleted[|deleted0|..])
  {
    var attributeItems, entityItems := AttributeItemsIn(itemIds), EntityItemsIn(itemIds);
    assert attributeItems + entityItems == itemIds;
    WithoutTwice(items0, attributeItems, entityItems);
    assert rows == rows0 - itemIds;
    var d1, d2 := mid[|deleted0|..], deleted[|mid|..];
    assert deleted[..|deleted0|] == deleted0;
    assert deleted[|deleted0|..] == d1 + d2;
    ListsOnceConcat(d1, attributeItems, d2, entityItems);
  }

  // ---- The import merge ----

  /** The key an entity is matched by on import: its upper-cased name. */
  function MatchKey(e: ModelEntity): string
  {
    ToUpper(e.name)
  }

  /** The entities the tree shows by match key, a later item winning over an
      earlier one with the same key. */
  function Registry(items: seq<TreeItem>): map<string, ModelEntity>
  {
    if items == [] then map[]
    else
      var r := Registry(items[..|items| - 1]);
      var last := items[|items| - 1];
      if last.EntityItem? then r[MatchKey(last.entity) := last.entity] else r
  }

  /** The registry holds the key of every entity in the tree, each key
      mapped to the last entity item with that key. */
  lemma RegistryContents(items: seq<TreeItem>)
    ensures forall k :: k in Registry(items) ==>
              EntityItem(Registry(items)[k]) in items && MatchKey(Registry(items)[k]) == k
    ensures forall i :: 0 <= i < |items| && items[i].EntityItem? ==> MatchKey(items[i].entity) in Registry(items)
    ensures forall i :: 0 <= i < |items| && items[i].EntityItem? && IsLastWithKey(items, i) ==>
              Registry(items)[MatchKey(items[i].entity)] == items[i].entity
  {
    RegistryValues(items);
    forall i | 0 <= i < |items| && items[i].EntityItem?
      ensures MatchKey(items[i].entity) in Registry(items)
    {
      RegistryHas(items, i);
    }
    forall i | 0 <= i < |items| && items[i].EntityItem? && IsLastWithKey(items, i)
      ensures Registry(items)[MatchKey(items[i].entity)] == items[i].entity
    {
      RegistryLast(items, i);
    }
  }

  lemma {:induction false} RegistryValues(items: seq<TreeItem>)
    ensures forall k :: k in Registry(items) ==>
              EntityItem(Registry(items)[k]) in items && MatchKey(Registry(items)[k]) == k
    decreases |items|
  {
    if items != [] {
      var init := items[..|items| - 1];
      RegistryValues(init);
      assert items == init + [items[|items| - 1]];
    }
  }

  lemma {:induction false} RegistryHas(items: seq<TreeItem>, i: int)
    requires 0 <= i < |items| && items[i].EntityItem?
    ensures MatchKey(items[i].entity) in Registry(items)
    decreases |items|
  {
    if i < |items| - 1 {
      var init := items[..|items| - 1];
      assert init[i] == items[i];
      RegistryHas(init, i);
    }
  }

  lemma {:induction false} RegistryLast(items: seq<TreeItem>, i: int)
    requires 0 <= i < |items| && items[i].EntityItem? && IsLastWithKey(items, i)
    ensures MatchKey(items[i].entity) in Registry(items)
    ensures Registry(items)[MatchKey(items[i].entity)] == items[i].entity
    decreases |items|
  {
    if i < |items| - 1 {
      var init := items[..|items| - 1];
      assert init[i] == items[i];
      forall j | i < j < |init| && init[j].EntityItem?
        ensures MatchKey(init[j].entity) != MatchKey(init[i].entity)
      {
        assert init[j] == items[j];
      }
      assert IsLastWithKey(init, i);
      RegistryLast(init, i);
    }
  }

  /** No entity item after position `i` has the key of the entity at `i`. */
  predicate IsLastWithKey(items: seq<TreeItem>, i: nat)
    requires i < |items| && items[i].EntityItem?
  {
    forall j :: i < j < |items| && items[j].EntityItem? ==> MatchKey(items[j].entity) != MatchKey(items[i].entity)
  }

  /** The attributes the entities list. */
  function AttributesOfEntities(ents: set<ModelEntity>): set<ModelAttribute>
    reads ents
  {
    set e, a | e in ents && a in e.modelAttributes :: a
  }

  /** What the import listener has done so far: the key registry, the
      attribute list of each entity involved, the back-pointer of each
      attribute involved, the tree and the saved objects. */
  datatype ImportState = ImportState(registry: map<string, ModelEntity>,
                                     lists: map<ModelEntity, seq<ModelAttribute>>,
                                     owners: map<ModelAttribute, ModelEntity?>,
                                     items: seq<TreeItem>, rows: map<TreeItem, Row>, saved: seq<TreeItem>)

  /** Every registered entity has a list, and every listed attribute a
      back-pointer. */
  predicate Closed(s: ImportState)
  {
    && (forall k :: k in s.registry ==> s.registry[k] in s.lists)
    && (forall e, a :: e in s.lists && a in s.lists[e] ==> a in s.owners)
  }

  /** The inner turn of a merge into `target`: an attribute whose name the
      target does not have yet is pointed at the target, saved, appended to
      the target's list and added to the tree under it. */
  function MergeAttribute(s: ImportState, target: ModelEntity, a: ModelAttribute): (r: ImportState)
    requires target in s.lists
    ensures r.registry == s.registry && r.lists.Keys == s.lists.Keys
    ensures s.owners.Keys <= r.owners.Keys <= s.owners.Keys + {a}
  {
    if AttributeNamed(s.lists[target], a.name).Some? then s
    else
      s.(lists := s.lists[target := s.lists[target] + [a]],
         owners := s.owners[a := target],
         items := Inserted(s.items, AttributeItem(a)),
         rows := s.rows[AttributeItem(a) := AttributeRow("", a, Some(target))],
         saved := s.saved + [AttributeItem(a)])
  }

  /** A merge of the attributes `attrs` into `target`, in order. */
  function Merge(s: ImportState, target: ModelEntity, attrs: seq<ModelAttribute>): (r: ImportState)
    requires target in s.lists
    ensures r.registry == s.registry && r.lists.Keys == s.lists.Keys
    ensures s.owners.Keys <= r.owners.Keys <= s.owners.Keys + set a | a in attrs
  {
    if attrs == [] then s
    else MergeAttribute(Merge(s, target, attrs[..|attrs| - 1]), target, attrs[|attrs| - 1])
  }

  lemma MergeSnoc(s: ImportState, target: ModelEntity, attrs: seq<ModelAttribute>, k: int)
    requires target in s.lists && 0 <= k < |attrs|
    ensures target in Merge(s, target, attrs[..k]).lists
    ensures Merge(s, target, attrs[..k + 1]) == MergeAttribute(Merge(s, target, attrs[..k]), target, attrs[k])
  {
    assert attrs[..k + 1][..k] == attrs[..k];
  }

  /** The outer turn of the import: an entity whose key is not registered is
      saved, registered and added with all its attributes; otherwise its
      attributes are merged into the registered entity. */
  function ImportEntity(s: ImportState, e: ModelEntity): (r: ImportState)
    requires e in s.lists && Closed(s)
    ensures r.lists.Keys == s.lists.Keys && r.owners.Keys == s.owners.Keys && Closed(r)
  {
    var key := MatchKey(e);
    if key !in s.registry then Registered(s, e)
    else
      var r := Merge(s, s.registry[key], s.lists[e]);
      MergeClosed(s, s.registry[key], s.lists[e]);
      r
  }

  /** An unmatched entity: registered under its key, saved, shown with all
      of its attributes, each pointed back at it. */
  function Registered(s: ImportState, e: ModelEntity): (r: ImportState)
    requires e in s.lists
  {
    var added := Rows(Listing(e, s.lists[e]));
    s.(registry := s.registry[MatchKey(e) := e],
       owners := s.owners + map a | a in s.lists[e] :: e,
       items := InsertAll(s.items, added),
       rows := s.rows + OwnedRows("", e, added),
       saved := s.saved + [EntityItem(e)])
  }

  lemma {:induction false} MergeClosed(s: ImportState, target: ModelEntity, attrs: seq<ModelAttribute>)
    requires target in s.lists && Closed(s) && forall a :: a in attrs ==> a in s.owners
    ensures Merge(s, target, attrs).owners.Keys == s.owners.Keys && Closed(Merge(s, target, attrs))
    decreases |attrs|
  {
    if attrs != [] {
      MergeClosed(s, target, attrs[..|attrs| - 1]);
    }
  }

  /** The import of the entities `es`, in collection order. */
  function ImportAll(s: ImportState, es: seq<ModelEntity>): (r: ImportState)
    requires Closed(s) && forall e :: e in es ==> e in s.lists
    ensures r.lists.Keys == s.lists.Keys && r.owners.Keys == s.owners.Keys && Closed(r)
  {
    if es == [] then s
    else ImportEntity(ImportAll(s, es[..|es| - 1]), es[|es| - 1])
  }

  /** The back-pointers after an entity takes over the attributes `attrs`. */
  lemma OwnersTakenOver(owners: map<ModelAttribute, ModelEntity?>, attrs: seq<ModelAttribute>, e: ModelEntity)
    requires forall a :: a in attrs ==> a.entity == e
    requires forall a :: a in owners && a !in attrs ==> a.entity == owners[a]
    ensures forall a :: a in owners + (map a | a in attrs :: e) ==> a.entity == (owners + map a | a in attrs :: e)[a]
  {
  }

  lemma ImportAllSnoc(s: ImportState, es: seq<ModelEntity>, i: int)
    requires Closed(s) && (forall e :: e in es ==> e in s.lists) && 0 <= i < |es|
    ensures es[i] in ImportAll(s, es[..i]).lists
    ensures ImportAll(s, es[..i + 1]) == ImportEntity(ImportAll(s, es[..i]), es[i])
  {
    assert es[..i + 1][..i] == es[..i];
  }

  /** `after` is `before` with attributes appended, each with a name no
      earlier attribute of the list has. */
  predicate AppendedFresh(before: seq<ModelAttribute>, after: seq<ModelAttribute>)
  {
    && |before| <= |after| && after[..|before|] == before
    && forall i, j :: 0 <= i < j < |after| && |before| <= j ==> after[i].name != after[j].name
  }

  lemma AppendedFreshTrans(a: seq<ModelAttribute>, b: seq<ModelAttribute>, c: seq<ModelAttribute>)
    requires AppendedFresh(a, b) && AppendedFresh(b, c)
    ensures AppendedFresh(a, c)
  {
    assert c[..|a|] == c[..|b|][..|a|];
    forall i, j | 0 <= i < j < |c| && |a| <= j
      ensures c[i].name != c[j].name
    {
      if j < |b| {
        assert c[i] == b[i] && c[j] == b[j];
      }
    }
  }

  /** Every list the import touches is the old list with attributes of fresh
      names appended: no attribute is replaced or dropped, and no merge
      brings in a second attribute of a name already there. */
  lemma {:induction false} MergeAppendsFresh(s: ImportState, target: ModelEntity, attrs: seq<ModelAttribute>)
    requires target in s.lists
    ensures forall e :: e in s.lists ==> AppendedFresh(s.lists[e], Merge(s, target, attrs).lists[e])
    ensures |s.saved| <= |Merge(s, target, attrs).saved| && Merge(s, target, attrs).saved[..|s.saved|] == s.saved
    ensures forall j :: |s.saved| <= j < |Merge(s, target, attrs).saved| ==>
              Merge(s, target, attrs).saved[j] in AttributeItems(attrs)
    ensures forall e :: e in s.lists && e != target ==> Merge(s, target, attrs).lists[e] == s.lists[e]
    ensures |s.lists[target]| <= |Merge(s, target, attrs).lists[target]| &&
            Merge(s, target, attrs).saved
              == s.saved + AttributeItems(Merge(s, target, attrs).lists[target][|s.lists[target]|..])
    decreases |attrs|
  {
    var n, r := |s.lists[target]|, Merge(s, target, attrs);
    assert n <= |r.lists[target]| && r.saved == s.saved + AttributeItems(r.lists[target][n..]) by {
      MergeSaved(s, target, attrs);
    }
    if attrs != [] {
      var init, a := attrs[..|attrs| - 1], attrs[|attrs| - 1];
      var m := Merge(s, target, init);
      MergeAppendsFresh(s, target, init);
      MergeAttributeAppendsFresh(m, target, a);
      assert r == MergeAttribute(m, target, a);
      forall e | e in s.lists
        ensures AppendedFresh(s.lists[e], r.lists[e])
      {
        AppendedFreshTrans(s.lists[e], m.lists[e], r.lists[e]);
      }
      assert AttributeItems(attrs) == AttributeItems(init) + [AttributeItem(a)];
      SavedGrowsWithin(s.saved, m.saved, r.saved, AttributeItems(init), AttributeItem(a));
    }
  }

  /** A step that saves nothing or the one item `x` keeps the saved objects a
      prefix-extension whose new items come from `xs + [x]`. */
  lemma SavedGrowsWithin(s0: seq<TreeItem>, s1: seq<TreeItem>, s2: seq<TreeItem>, xs: seq<TreeItem>, x: TreeItem)
    requires |s0| <= |s1| && s1[..|s0|] == s0 && forall j :: |s0| <= j < |s1| ==> s1[j] in xs
    requires s2 in {s1, s1 + [x]}
    ensures |s0| <= |s2| && s2[..|s0|] == s0 && forall j :: |s0| <= j < |s2| ==> s2[j] in xs + [x]
  {
    assert s2[..|s1|] == s1;
    assert s2[..|s0|] == s1[..|s0|];
  }

  /** The objects a merge saves are exactly the attributes it appends to the
      target's list, in the order it appends them. */
  lemma {:induction false} MergeSaved(s: ImportState, target: ModelEntity, attrs: seq<ModelAttribute>)
    requires target in s.lists
    ensures |s.lists[target]| <= |Merge(s, target, attrs).lists[target]| &&
            Merge(s, target, attrs).lists[target][..|s.lists[target]|] == s.lists[target] &&
            Merge(s, target, attrs).saved
              == s.saved + AttributeItems(Merge(s, target, attrs).lists[target][|s.lists[target]|..])
    decreases |attrs|
  {
    var n0 := |s.lists[target]|;
    if attrs == [] {
      assert s.lists[target][n0..] == [];
    } else {
      var init, a := attrs[..|attrs| - 1], attrs[|attrs| - 1];
      var m := Merge(s, target, init);
      MergeSaved(s, target, init);
      MergeAttributeSaved(m, target, a);
      var r := MergeAttribute(m, target, a);
      SavedAppendsTrans(s.saved, m.saved, r.saved, s.lists[target], m.lists[target], r.lists[target]);
    }
  }

  /** Two steps that each save exactly what they append make one such step. */
  lemma SavedAppendsTrans(s0: seq<TreeItem>, s1: seq<TreeItem>, s2: seq<TreeItem>,
                          l0: seq<ModelAttribute>, l1: seq<ModelAttribute>, l2: seq<ModelAttribute>)
    requires |l0| <= |l1| && l1[..|l0|] == l0 && s1 == s0 + AttributeItems(l1[|l0|..])
    requires |l1| <= |l2| && l2[..|l1|] == l1 && s2 == s1 + AttributeItems(l2[|l1|..])
    ensures |l0| <= |l2| && l2[..|l0|] == l0 && s2 == s0 + AttributeItems(l2[|l0|..])
  {
    var d1, d2 := l1[|l0|..], l2[|l1|..];
    assert l2[..|l0|] == l0 && l2[|l0|..] == d1 + d2 by {
      SliceSplit(l1, l2, |l0|);
    }
    var i1, i2 := AttributeItems(d1), AttributeItems(d2);
    assert AttributeItems(d1 + d2) == i1 + i2 by {
      AttributeItemsAppend(d1, d2);
    }
    ConcatAssoc(s0, i1, i2);
  }

  lemma ConcatAssoc(a: seq<TreeItem>, b: seq<TreeItem>, c: seq<TreeItem>)
    ensures (a + b) + c == a + (b + c)
  {
  }

  /** Cutting a sequence at `n` within a prefix `l1` of it. */
  lemma SliceSplit(l1: seq<ModelAttribute>, l2: seq<ModelAttribute>, n: nat)
    requires n <= |l1| <= |l2| && l2[..|l1|] == l1
    ensures l2[..n] == l1[..n] && l2[n..] == l1[n..] + l2[|l1|..]
  {
    assert l2[..n] == l2[..|l1|][..n];
    assert l2 == l1 + l2[|l1|..];
  }

  lemma MergeAttributeSaved(s: ImportState, target: ModelEntity, a: ModelAttribute)
    requires target in s.lists
    ensures |s.lists[target]| <= |MergeAttribute(s, target, a).lists[target]| &&
            MergeAttribute(s, target, a).lists[target][..|s.lists[target]|] == s.lists[target] &&
            MergeAttribute(s, target, a).saved
              == s.saved + AttributeItems(MergeAttribute(s, target, a).lists[target][|s.lists[target]|..])
  {
    var r, n := MergeAttribute(s, target, a), |s.lists[target]|;
    if AttributeNamed(s.lists[target], a.name).None? {
      assert r.lists[target][..n] == s.lists[target];
      assert r.lists[target][n..] == [a];
      assert AttributeItems([a]) == [AttributeItem(a)];
    } else {
      assert r.lists[target][n..] == [];
    }
  }

  lemma AttributeItemsAppend(x: seq<ModelAttribute>, y: seq<ModelAttribute>)
    ensures AttributeItems(x + y) == AttributeItems(x) + AttributeItems(y)
  {
    var l, r := AttributeItems(x + y), AttributeItems(x) + AttributeItems(y);
    assert |l| == |r|;
    forall j | 0 <= j < |l|
      ensures l[j] == r[j]
    {
      if j >= |x| {
        assert (x + y)[j] == y[j - |x|];
      }
    }
  }

  /** One turn of a merge appends at most the one attribute, and only when
      its name is new to the target. */
  lemma MergeAttributeAppendsFresh(s: ImportState, target: ModelEntity, a: ModelAttribute)
    requires target in s.lists
    ensures forall e :: e in s.lists ==> AppendedFresh(s.lists[e], MergeAttribute(s, target, a).lists[e])
    ensures MergeAttribute(s, target, a).saved in {s.saved, s.saved + [AttributeItem(a)]}
    ensures forall e :: e in s.lists && e != target ==> MergeAttribute(s, target, a).lists[e] == s.lists[e]
  {
    var r := MergeAttribute(s, target, a);
    if AttributeNamed(s.lists[target], a.name).None? {
      assert r.lists[target][..|s.lists[target]|] == s.lists[target];
    }
  }

  /** No entity before position `i` has the key of the entity at `i`. */
  predicate IsFirstWithKey(es: seq<ModelEntity>, i: nat)
    requires i < |es|
  {
    forall j :: 0 <= j < i ==> MatchKey(es[j]) != MatchKey(es[i])
  }

  /** The match keys of the entities. */
  function KeysOf(es: seq<ModelEntity>): set<string>
  {
    set e | e in es :: MatchKey(e)
  }

  /** An entity whose key is not registered is saved and registered under
      its key, and every one of its attributes is pointed back at it; no
      attribute list changes. */
  lemma ImportUnmatched(s: ImportState, e: ModelEntity)
    requires e in s.lists && Closed(s) && MatchKey(e) !in s.registry
    ensures ImportEntity(s, e).registry == s.registry[MatchKey(e) := e]
    ensures ImportEntity(s, e).saved == s.saved + [EntityItem(e)]
    ensures ImportEntity(s, e).lists == s.lists
    ensures forall a :: a in s.lists[e] ==> ImportEntity(s, e).owners[a] == e
    ensures ImportEntity(s, e).items == InsertAll(s.items, Rows(Listing(e, s.lists[e])))
    ensures ImportEntity(s, e).rows == s.rows + OwnedRows("", e, Rows(Listing(e, s.lists[e])))
  {
  }

  /** An entity whose key is registered is not saved and the registry stays
      as it is: only its attributes with names new to the registered entity
      are appended to that entity's list, and saved. */
  lemma ImportMatched(s: ImportState, e: ModelEntity)
    requires e in s.lists && Closed(s) && MatchKey(e) in s.registry
    ensures ImportEntity(s, e).registry == s.registry
    ensures forall x :: x in s.lists ==> AppendedFresh(s.lists[x], ImportEntity(s, e).lists[x])
    ensures forall x :: x in s.lists && x != s.registry[MatchKey(e)] ==> ImportEntity(s, e).lists[x] == s.lists[x]
    ensures |s.saved| <= |ImportEntity(s, e).saved| && ImportEntity(s, e).saved[..|s.saved|] == s.saved
    ensures forall j :: |s.saved| <= j < |ImportEntity(s, e).saved| ==>
              ImportEntity(s, e).saved[j] in AttributeItems(s.lists[e])
    ensures |s.lists[s.registry[MatchKey(e)]]| <= |ImportEntity(s, e).lists[s.registry[MatchKey(e)]]| &&
            ImportEntity(s, e).saved == s.saved +
              AttributeItems(ImportEntity(s, e).lists[s.registry[MatchKey(e)]][|s.lists[s.registry[MatchKey(e)]]|..])
  {
    MergeAppendsFresh(s, s.registry[MatchKey(e)], s.lists[e]);
  }

  lemma KeysOfSnoc(init: seq<ModelEntity>, e: ModelEntity)
    ensures KeysOf(init + [e]) == KeysOf(init) + {MatchKey(e)}
  {
  }

  /** A key is among the keys of `es` exactly when some entity of `es` has it. */
  lemma KeysOfMembership(es: seq<ModelEntity>, k: string)
    ensures k in KeysOf(es) <==> exists j :: 0 <= j < |es| && MatchKey(es[j]) == k
  {
    if k in KeysOf(es) {
      var e :| e in es && MatchKey(e) == k;
      var j :| 0 <= j < |es| && es[j] == e;
    }
  }

  /** From `s` to `r` the attribute lists only grow, by attributes of fresh
      names, so none is replaced or dropped; and the saved objects only grow. */
  predicate Grown(s: ImportState, r: ImportState)
  {
    && s.lists.Keys <= r.lists.Keys
    && (forall x :: x in s.lists ==> AppendedFresh(s.lists[x], r.lists[x]))
    && |s.saved| <= |r.saved| && r.saved[..|s.saved|] == s.saved
  }

  lemma GrownNothing(s: ImportState)
    ensures Grown(s, s)
  {
    forall x | x in s.lists
      ensures AppendedFresh(s.lists[x], s.lists[x])
    {
      assert s.lists[x][..|s.lists[x]|] == s.lists[x];
    }
  }

  lemma GrownTrans(s: ImportState, m: ImportState, r: ImportState)
    requires Grown(s, m) && Grown(m, r)
    ensures Grown(s, r)
  {
    forall x | x in s.lists
      ensures AppendedFresh(s.lists[x], r.lists[x])
    {
      AppendedFreshTrans(s.lists[x], m.lists[x], r.lists[x]);
    }
    assert r.saved[..|s.saved|] == r.saved[..|m.saved|][..|s.saved|];
  }

  /** One imported entity: attribute lists grow by attributes of fresh
      names, the saved objects grow, and its key is registered to it unless
      it was registered already. */
  lemma ImportEntityOutcome(s: ImportState, e: ModelEntity)
    requires e in s.lists && Closed(s)
    ensures Grown(s, ImportEntity(s, e))
    ensures ImportEntity(s, e).registry
            == if MatchKey(e) in s.registry then s.registry else s.registry[MatchKey(e) := e]
  {
    if MatchKey(e) in s.registry {
      ImportMatched(s, e);
    } else {
      ImportUnmatched(s, e);
      GrownNothing(s);
      assert (s.saved + [EntityItem(e)])[..|s.saved|] == s.saved;
    }
  }

  /** The whole import: attribute lists only grow, by attributes of fresh
      names, so no attribute is replaced or dropped; and the saved objects
      only grow. */
  lemma {:induction false} ImportAllGrows(s: ImportState, es: seq<ModelEntity>)
    requires Closed(s) && forall e :: e in es ==> e in s.lists
    ensures Grown(s, ImportAll(s, es))
    decreases |es|
  {
    if es == [] {
      GrownNothing(s);
    } else {
      var init, e := es[..|es| - 1], es[|es| - 1];
      ImportAllGrows(s, init);
      var m := ImportAll(s, init);
      ImportEntityOutcome(m, e);
      GrownTrans(s, m, ImportEntity(m, e));
    }
  }

  /** The registry after importing `es` into the registry `reg`: each
      imported entity whose key is not registered yet is registered. */
  function RegistryAfter(reg: map<string, ModelEntity>, es: seq<ModelEntity>): map<string, ModelEntity>
  {
    if es == [] then reg
    else
      var m := RegistryAfter(reg, es[..|es| - 1]);
      var e := es[|es| - 1];
      if MatchKey(e) in m then m else m[MatchKey(e) := e]
  }

  /** The import's registry is the one RegistryAfter describes. */
  lemma {:induction false} ImportAllRegistry(s: ImportState, es: seq<ModelEntity>)
    requires Closed(s) && forall e :: e in es ==> e in s.lists
    ensures ImportAll(s, es).registry == RegistryAfter(s.registry, es)
    decreases |es|
  {
    if es != [] {
      ImportAllRegistry(s, es[..|es| - 1]);
      ImportEntityOutcome(ImportAll(s, es[..|es| - 1]), es[|es| - 1]);
    }
  }

  /** A registered key keeps its entity, and the keys registered are the
      old ones and those of the imported entities. */
  lemma {:induction false} RegistryAfterKeys(reg: map<string, ModelEntity>, es: seq<ModelEntity>)
    ensures forall k :: k in reg ==> k in RegistryAfter(reg, es) && RegistryAfter(reg, es)[k] == reg[k]
    ensures RegistryAfter(reg, es).Keys == reg.Keys + KeysOf(es)
    decreases |es|
  {
    if es != [] {
      var init, e := es[..|es| - 1], es[|es| - 1];
      RegistryAfterKeys(reg, init);
      assert es == init + [e];
      KeysOfSnoc(init, e);
    }
  }

  /** A new key is registered to the first imported entity that has it, so
      later ones with the same key merge into that one. */
  lemma RegistryAfterFirst(reg: map<string, ModelEntity>, es: seq<ModelEntity>)
    ensures forall i :: 0 <= i < |es| && MatchKey(es[i]) !in reg && IsFirstWithKey(es, i) ==>
              MatchKey(es[i]) in RegistryAfter(reg, es) && RegistryAfter(reg, es)[MatchKey(es[i])] == es[i]
  {
    forall i | 0 <= i < |es| && MatchKey(es[i]) !in reg && IsFirstWithKey(es, i)
      ensures MatchKey(es[i]) in RegistryAfter(reg, es) && RegistryAfter(reg, es)[MatchKey(es[i])] == es[i]
    {
      RegistryAfterFirstAt(reg, es, i);
    }
  }

  lemma {:induction false} RegistryAfterFirstAt(reg: map<string, ModelEntity>, es: seq<ModelEntity>, i: int)
    requires 0 <= i < |es| && MatchKey(es[i]) !in reg && IsFirstWithKey(es, i)
    ensures MatchKey(es[i]) in RegistryAfter(reg, es) && RegistryAfter(reg, es)[MatchKey(es[i])] == es[i]
    decreases |es|
  {
    var init, e := es[..|es| - 1], es[|es| - 1];
    if i < |init| {
      forall j | 0 <= j < i
        ensures MatchKey(init[j]) != MatchKey(init[i])
      {
        assert init[j] == es[j] && init[i] == es[i];
      }
      assert IsFirstWithKey(init, i);
      RegistryAfterFirstAt(reg, init, i);
    } else {
      forall j | 0 <= j < |init|
        ensures MatchKey(init[j]) != MatchKey(e)
      {
        assert init[j] == es[j];
      }
      KeysOfMembership(init, MatchKey(e));
      RegistryAfterKeys(reg, init);
    }
  }

  class EditModelPanel {
    /** The tree's items, in the order they were added. */
    var items: seq<TreeItem>
    /** The properties of each item. */
    var rows: map<TreeItem, Row>
    /** The selected items. */
    var selection: set<TreeItem>
    var addEntityEnabled: bool
    var addAttributeEnabled: bool
    var editEnabled: bool
    var removeEnabled: bool
    var importEnabled: bool
    /** The objects passed to the configuration service's save, in order. */
    var saved: seq<TreeItem>
    /** The objects passed to the configuration service's delete, in order. */
    var deleted: seq<TreeItem>

    /** A panel on a model: all of its entities are shown, unfiltered. */
    constructor (modelEntities: seq<ModelEntity>)
      modifies AttributesIn(Snapshot(modelEntities))`entity
      ensures items == InsertAll([], AllRows(old(Snapshot(modelEntities))))
      ensures rows == ShownRows("", old(Snapshot(modelEntities)))
      ensures forall a :: a in AttributesIn(old(Snapshot(modelEntities))) ==>
                LastListing(old(Snapshot(modelEntities)), a) == Some(a.entity)
      ensures selection == {} && saved == [] && deleted == []
      ensures addEntityEnabled && addAttributeEnabled && importEnabled
      ensures !editEnabled && !removeEnabled
    {
      ghost var ls := Snapshot(modelEntities);
      items := [];
      rows := map[];
      new;
      SnapshotUnchanged(modelEntities);
      Init(modelEntities, ls);
    }

    /** The constructor's work once the panel exists: addAll with the blank
        filter on the empty tree, then setButtonsEnabled with nothing
        selected; `ls` lists the entities as they are. */
    method Init(modelEntities: seq<ModelEntity>, ghost ls: seq<Listing>)
      requires items == [] && rows == map[]
      requires ls == Snapshot(modelEntities)
      modifies this`items, this`rows, AttributesIn(ls)`entity
      modifies this`selection, this`saved, this`deleted
      modifies this`addEntityEnabled, this`importEnabled, this`addAttributeEnabled,
               this`removeEnabled, this`editEnabled
      ensures items == InsertAll([], AllRows(ls))
      ensures rows == ShownRows("", ls)
      ensures forall a :: a in AttributesIn(ls) ==> LastListing(ls, a) == Some(a.entity)
      ensures selection == {} && saved == [] && deleted == []
      ensures addEntityEnabled && addAttributeEnabled && importEnabled
      ensures !editEnabled && !removeEnabled
    {
      Populate(modelEntities, ls);
      ClearSelection();
    }

    /** The selection and the service calls start empty, and the buttons
        follow from the blank filter. */
    method ClearSelection()
      modifies this`selection, this`saved, this`deleted
      modifies this`addEntityEnabled, this`importEnabled, this`addAttributeEnabled,
               this`removeEnabled, this`editEnabled
      ensures selection == {} && saved == [] && deleted == []
      ensures addEntityEnabled && addAttributeEnabled && importEnabled
      ensures !editEnabled && !removeEnabled
    {
      selection := {};
      saved := [];
      deleted := [];
      SetButtonsEnabled("");
    }

    /** The constructor's call of addAll with the blank filter, on an empty
        tree; `ls` lists the entities as they are. */
    method Populate(modelEntities: seq<ModelEntity>, ghost ls: seq<Listing>)
      requires items == [] && rows == map[]
      requires ls == Snapshot(modelEntities)
      modifies this`items, this`rows, AttributesIn(ls)`entity
      ensures items == InsertAll([], AllRows(ls))
      ensures rows == ShownRows("", ls)
      ensures forall a :: a in AttributesIn(ls) ==> LastListing(ls, a) == Some(a.entity)
    {
      BlankFilterIncludesAll(ls);
      AddAll("", modelEntities);
    }

    /** setButtonsEnabled: adding and importing need a blank filter; edit and
        remove need a selection. */
    method SetButtonsEnabled(filter: string)
      modifies this`addEntityEnabled, this`importEnabled, this`addAttributeEnabled,
               this`removeEnabled, this`editEnabled
      ensures addEntityEnabled == IsBlank(filter) && importEnabled == IsBlank(filter)
      ensures addAttributeEnabled == IsBlank(filter)
      ensures removeEnabled == (|selection| > 0) && editEnabled == (|selection| > 0)
    {
      var noFilter := IsBlank(filter);
      var selected := selection;
      addEntityEnabled := noFilter;
      importEnabled := noFilter;
      addAttributeEnabled := noFilter;
      removeEnabled := |selected| > 0;
      editEnabled := |selected| > 0;
    }

    /** addModelEntity: the entity's item with its (highlighted) name. */
    method AddModelEntity(filter: string, e: ModelEntity)
      modifies this`items, this`rows
      ensures items == Inserted(old(items), EntityItem(e))
      ensures rows == old(rows)[EntityItem(e) := EntityRow(filter, e)]
    {
      items := Inserted(items, EntityItem(e));
      rows := rows[EntityItem(e) := EntityRow(filter, e)];
    }

    /** addModelAttribute: the attribute's item with its (highlighted) name and
        its type, under the entity it points back at. */
    method AddModelAttribute(filter: string, a: ModelAttribute)
      modifies this`items, this`rows
      ensures items == Inserted(old(items), AttributeItem(a))
      ensures rows == old(rows)[AttributeItem(a) := AttributeRow(filter, a, Owner(a))]
    {
      items := Inserted(items, AttributeItem(a));
      var parent := if a.entity == null then None else Some(EntityItem(a.entity));
      rows := rows[AttributeItem(a) := Row(GetName(filter, a.name), a.dataType, parent)];
    }

    /** The tree after adding `added` to the tree (items0, rows0), the
        attributes among them pointed back at `e`. */
    ghost predicate Extended(filter: string, e: ModelEntity, items0: seq<TreeItem>, rows0: map<TreeItem, Row>,
                             added: seq<TreeItem>)
      reads this
    {
      items == InsertAll(items0, added) && rows == rows0 + OwnedRows(filter, e, added)
    }

    /** add: the entity and ALL of its attributes, each attribute pointed back
        at the entity and placed under it. */
    method Add(filter: string, e: ModelEntity)
      modifies this`items, this`rows, e.modelAttributes`entity
      ensures forall a :: a in e.modelAttributes ==> a.entity == e
      ensures items == InsertAll(old(items), Rows(ListingOf(e)))
      ensures rows == old(rows) + OwnedRows(filter, e, Rows(ListingOf(e)))
    {
      ghost var items0, rows0 := items, rows;
      AddModelEntity(filter, e);
      ghost var added := [EntityItem(e)];
      assert Extended(filter, e, items0, rows0, added) by {
        assert added[..0] == [];
        assert OwnedRows(filter, e, added) == map[EntityItem(e) := EntityRow(filter, e)];
      }
      var attrs := e.modelAttributes;
      var k := 0;
      while k < |attrs|
        invariant 0 <= k <= |attrs|
        invariant |added| == k + 1 && added[0] == EntityItem(e)
        invariant forall j :: 0 <= j < k ==> added[j + 1] == AttributeItem(attrs[j]) && attrs[j].entity == e
        invariant Extended(filter, e, items0, rows0, added)
      {
        var modelAttribute := attrs[k];
        AddOwnedAttribute(filter, e, modelAttribute, items0, rows0, added);
        added := added + [AttributeItem(modelAttribute)];
        k := k + 1;
      }
      assert added == Rows(ListingOf(e));
    }

    /** One turn of add's loop: the attribute is pointed back at the entity
        and added under it. */
    method AddOwnedAttribute(filter: string, e: ModelEntity, a: ModelAttribute,
                             ghost items0: seq<TreeItem>, ghost rows0: map<TreeItem, Row>, ghost added: seq<TreeItem>)
      requires Extended(filter, e, items0, rows0, added)
      modifies this`items, this`rows, a`entity
      ensures a.entity == e
      ensures Extended(filter, e, items0, rows0, added + [AttributeItem(a)])
    {
      a.entity := e;
      AddModelAttribute(filter, a);
      OwnedRowsSnoc(filter, e, added, a);
      UnionUpdate(rows0, OwnedRows(filter, e, added), AttributeItem(a), AttributeRow(filter, a, Some(e)));
      assert (added + [AttributeItem(a)])[..|added|] == added;
    }

    /** addAll: adds, in collection order, every entity that matches the
        filter, each with all of its attributes, and points each of those
        attributes back at the last added entity that lists it. No other
        attribute changes. */
    method AddAll(filter: string, modelEntities: seq<ModelEntity>)
      modifies this`items, this`rows, AttributesIn(Included(filter, Snapshot(modelEntities)))`entity
      ensures items == InsertAll(old(items), AllRows(Included(filter, Snapshot(modelEntities))))
      ensures rows == old(rows) + ShownRows(filter, Included(filter, Snapshot(modelEntities)))
      ensures forall a :: a in AttributesIn(Included(filter, Snapshot(modelEntities))) ==>
                LastListing(Included(filter, Snapshot(modelEntities)), a) == Some(a.entity)
      ensures unchanged(modelEntities)
    {
      ghost var ls := Snapshot(modelEntities);
      ghost var shown: seq<Listing> := [];
      var i := 0;
      while i < |modelEntities|
        invariant 0 <= i <= |modelEntities|
        invariant unchanged(modelEntities)
        invariant shown == Included(filter, ls[..i])
        invariant items == InsertAll(old(items), AllRows(shown))
        invariant rows == old(rows) + ShownRows(filter, shown)
        invariant forall a :: a in AttributesIn(shown) ==> LastListing(shown, a) == Some(a.entity)
      {
        assert ls[i] == ListingOf(modelEntities[i]);
        IncludedAttributes(filter, ls, i);
        shown := AddAllTurn(filter, modelEntities, i, ls, shown, old(items), old(rows));
        i := i + 1;
      }
      assert ls[..i] == ls;
      SnapshotUnchanged(modelEntities);
    }

    /** One turn of addAll's loop: the entity at `i` is added when it
        matches, and then owns the attributes it lists. */
    method AddAllTurn(filter: string, modelEntities: seq<ModelEntity>, i: nat, ghost ls: seq<Listing>,
                      ghost shown: seq<Listing>, ghost items0: seq<TreeItem>, ghost rows0: map<TreeItem, Row>)
      returns (ghost shown': seq<Listing>)
      requires i < |modelEntities| == |ls| && ls[i] == ListingOf(modelEntities[i])
      requires shown == Included(filter, ls[..i])
      requires items == InsertAll(items0, AllRows(shown))
      requires rows == rows0 + ShownRows(filter, shown)
      requires forall a :: a in AttributesIn(shown) ==> LastListing(shown, a) == Some(a.entity)
      modifies this`items, this`rows, (if Matches(filter, ls[i]) then set a | a in ls[i].attributes else {})`entity
      ensures unchanged(modelEntities)
      ensures shown' == Included(filter, ls[..i + 1])
      ensures items == InsertAll(items0, AllRows(shown'))
      ensures rows == rows0 + ShownRows(filter, shown')
      ensures forall a :: a in AttributesIn(shown') ==> LastListing(shown', a) == Some(a.entity)
    {
      var modelEntity := modelEntities[i];
      var add := EntityMatches(filter, modelEntity);
      IncludedSnoc(filter, ls, i);
      if add {
        AddAllStep(filter, modelEntity, ls[i], shown, items0, rows0);
        shown' := shown + [ls[i]];
      } else {
        shown' := shown;
      }
    }

    /** A turn of addAll's loop that adds its entity `e`, listed as `l`, to
        the tree showing `prefix`. */
    method AddAllStep(filter: string, e: ModelEntity, ghost l: Listing, ghost prefix: seq<Listing>,
                      ghost items0: seq<TreeItem>, ghost rows0: map<TreeItem, Row>)
      requires l == ListingOf(e)
      requires items == InsertAll(items0, AllRows(prefix))
      requires rows == rows0 + ShownRows(filter, prefix)
      requires forall a :: a in AttributesIn(prefix) ==> LastListing(prefix, a) == Some(a.entity)
      modifies this`items, this`rows, (set a | a in l.attributes)`entity
      ensures items == InsertAll(items0, AllRows(prefix + [l]))
      ensures rows == rows0 + ShownRows(filter, prefix + [l])
      ensures forall a :: a in AttributesIn(prefix + [l]) ==> LastListing(prefix + [l], a) == Some(a.entity)
    {
      AddedEntityRows(filter, items0, rows0, prefix, l);
      Add(filter, e);
      AttributesInSnoc(prefix, l);
      forall a | a in AttributesIn(prefix + [l])
        ensures LastListing(prefix + [l], a) == Some(a.entity)
      {
        LastListingSnoc(prefix, l, a);
      }
    }

    /** The filter test of addAll's loop, with its inner loop over the
        attributes. */
    static method EntityMatches(filter: string, modelEntity: ModelEntity) returns (add: bool)
      ensures add == Matches(filter, ListingOf(modelEntity))
    {
      add := IsBlank(filter) || Contains(modelEntity.name, filter);
      if !add {
        var attrs := modelEntity.modelAttributes;
        var k := 0;
        while k < |attrs|
          invariant 0 <= k <= |attrs|
          invariant add == exists j :: 0 <= j < k && Contains(attrs[j].name, filter)
        {
          add := add || Contains(attrs[k].name, filter);
          k := k + 1;
        }
      }
    }

    /** The remove button: deletes the selected items and their children,
        every attribute before any entity, taking each attribute out of the
        entity it points back at. */
    method Remove()
      requires forall a :: a in AttributesOfItems(Cascade(rows, selection)) ==> a.entity != null
      modifies this`items, this`rows, this`deleted, Owners(Cascade(rows, selection))`modelAttributes
      ensures items == Without(old(items), old(Cascade(rows, selection)))
      ensures rows == old(rows) - old(Cascade(rows, selection))
      ensures |old(deleted)| <= |deleted| && deleted[..|old(deleted)|] == old(deleted)
      ensures ListsOnce(deleted[|old(deleted)|..], old(Cascade(rows, selection)))
      ensures AttributesFirst(deleted[|old(deleted)|..])
      ensures forall e :: e in old(ListsAfterRemoval(Cascade(rows, selection))) ==>
                e.modelAttributes == old(ListsAfterRemoval(Cascade(rows, selection)))[e]
    {
      ghost var cascade := Cascade(rows, selection);
      ghost var ownerOf := OwnerOf(cascade);
      ghost var lists0 := map e | e in ownerOf.Values :: e.modelAttributes;
      ghost var after := ListsAfterRemoval(cascade);
      assert after == map e | e in lists0 :: Without(lists0[e], OwnedBy(AttributesOfItems(cascade), ownerOf, e));
      var itemIds := CollectCascade(rows, selection);
      RemoveCascade(itemIds, ownerOf, lists0, after);
    }

    /** The two passes of Remove over the collected items. */
    method RemoveCascade(itemIds: set<TreeItem>, ghost ownerOf: map<ModelAttribute, ModelEntity>,
                         ghost lists0: map<ModelEntity, seq<ModelAttribute>>, ghost after: map<ModelEntity, seq<ModelAttribute>>)
      requires OwnersRecorded(AttributesOfItems(itemIds), ownerOf, lists0)
      requires forall e :: e in lists0 ==> e.modelAttributes == lists0[e]
      requires after == map e | e in lists0 :: Without(lists0[e], OwnedBy(AttributesOfItems(itemIds), ownerOf, e))
      modifies this`items, this`rows, this`deleted, lists0.Keys`modelAttributes
      ensures Removal(old(items), old(rows), old(deleted), itemIds, items, rows, deleted)
      ensures AttributesFirst(deleted[|old(deleted)|..])
      ensures forall e :: e in after ==> e.modelAttributes == after[e]
    {
      RemoveAttributes(itemIds, ownerOf, lists0);
      ghost var mid := deleted;
      RemoveEntities(itemIds);
      BothPasses(old(items), old(rows), old(deleted), mid, itemIds, items, rows, deleted);
    }

    /** The cascade, collected one selected item at a time. */
    static method CollectCascade(rows: map<TreeItem, Row>, selectedIds: set<TreeItem>) returns (itemIds: set<TreeItem>)
      ensures itemIds == Cascade(rows, selectedIds)
    {
      itemIds := {};
      var todo := selectedIds;
      while todo != {}
        invariant todo <= selectedIds
        invariant itemIds == Cascade(rows, selectedIds - todo)
        decreases |todo|
      {
        var itemId :| itemId in todo;
        CascadeTurn(rows, selectedIds, todo, itemId);
        itemIds := itemIds + Children(rows, itemId) + {itemId};
        todo := todo - {itemId};
      }
      assert selectedIds - todo == selectedIds;
    }

    /** The first pass of Remove: every attribute item of `itemIds` is
        deleted, taken out of its entity and removed from the tree. */
    method RemoveAttributes(itemIds: set<TreeItem>, ghost ownerOf: map<ModelAttribute, ModelEntity>,
                            ghost lists0: map<ModelEntity, seq<ModelAttribute>>)
      requires OwnersRecorded(AttributesOfItems(itemIds), ownerOf, lists0)
      requires forall e :: e in lists0 ==> e.modelAttributes == lists0[e]
      modifies this`items, this`rows, this`deleted, lists0.Keys`modelAttributes
      ensures Removal(old(items), old(rows), old(deleted), AttributeItemsIn(itemIds), items, rows, deleted)
      ensures forall j :: |old(deleted)| <= j < |deleted| ==> deleted[j].AttributeItem?
      ensures forall e :: e in lists0 ==> e.modelAttributes == Without(lists0[e], OwnedBy(AttributesOfItems(itemIds), ownerOf, e))
    {
      var todo := itemIds;
      ghost var removed: set<TreeItem> := {};
      ghost var gone: set<ModelAttribute> := {};
      NothingRemoved(items, rows, deleted);
      assert AttributeItemsIn(itemIds) - todo == {};
      NothingTakenOut(ownerOf, lists0);
      while todo != {}
        invariant todo <= itemIds
        invariant removed == AttributeItemsIn(itemIds) - todo && gone == AttributesOfItems(removed)
        invariant Removal(old(items), old(rows), old(deleted), removed, items, rows, deleted)
        invariant forall j :: |old(deleted)| <= j < |deleted| ==> deleted[j].AttributeItem?
        invariant forall e :: e in lists0 ==> e.modelAttributes == Without(lists0[e], OwnedBy(gone, ownerOf, e))
        decreases |todo|
      {
        var itemId :| itemId in todo;
        removed, gone := RemoveAttributesTurn(itemIds, itemId, todo, ownerOf, lists0, old(items), old(rows), old(deleted),
                                              removed, gone);
        todo := todo - {itemId};
      }
      assert removed == AttributeItemsIn(itemIds);
      AttributesOfAttributeItems(itemIds);
    }

    /** Before the first pass, every entity still lists all its attributes. */
    lemma NothingTakenOut(ownerOf: map<ModelAttribute, ModelEntity>, lists0: map<ModelEntity, seq<ModelAttribute>>)
      requires forall e :: e in lists0 ==> e.modelAttributes == lists0[e]
      ensures forall e :: e in lists0 ==> e.modelAttributes == Without(lists0[e], OwnedBy({}, ownerOf, e))
    {
      forall e | e in lists0
        ensures e.modelAttributes == Without(lists0[e], OwnedBy({}, ownerOf, e))
      {
        WithoutNothing(lists0[e]);
        assert OwnedBy({}, ownerOf, e) == {};
      }
    }

    /** One turn of the first pass: `itemId`, taken off the to-do set, is
        removed if it is an attribute item. */
    method RemoveAttributesTurn(itemIds: set<TreeItem>, itemId: TreeItem, ghost todo: set<TreeItem>,
                                ghost ownerOf: map<ModelAttribute, ModelEntity>,
                                ghost lists0: map<ModelEntity, seq<ModelAttribute>>,
                                ghost items0: seq<TreeItem>, ghost rows0: map<TreeItem, Row>, ghost deleted0: seq<TreeItem>,
                                ghost removed: set<TreeItem>, ghost gone: set<ModelAttribute>)
      returns (ghost removed': set<TreeItem>, ghost gone': set<ModelAttribute>)
      requires OwnersRecorded(AttributesOfItems(itemIds), ownerOf, lists0)
      requires itemId in todo && todo <= itemIds
      requires removed == AttributeItemsIn(itemIds) - todo && gone == AttributesOfItems(removed)
      requires Removal(items0, rows0, deleted0, removed, items, rows, deleted)
      requires forall j :: |deleted0| <= j < |deleted| ==> deleted[j].AttributeItem?
      requires forall e :: e in lists0 ==> e.modelAttributes == Without(lists0[e], OwnedBy(gone, ownerOf, e))
      modifies this`items, this`rows, this`deleted, lists0.Keys`modelAttributes
      ensures removed' == AttributeItemsIn(itemIds) - (todo - {itemId}) && gone' == AttributesOfItems(removed')
      ensures Removal(items0, rows0, deleted0, removed', items, rows, deleted)
      ensures forall j :: |deleted0| <= j < |deleted| ==> deleted[j].AttributeItem?
      ensures forall e :: e in lists0 ==> e.modelAttributes == Without(lists0[e], OwnedBy(gone', ownerOf, e))
    {
      PickedAttribute(itemIds, todo, removed, itemId);
      removed', gone' := removed, gone;
      if itemId.AttributeItem? {
        ItemsInInsert(removed, itemId);
        RemoveAttributeItem(itemId, ownerOf, lists0, items0, rows0, deleted0, removed, gone);
        removed', gone' := removed + {itemId}, gone + {itemId.attribute};
      }
    }

    /** One attribute turn of the first pass. */
    method RemoveAttributeItem(itemId: TreeItem, ghost ownerOf: map<ModelAttribute, ModelEntity>,
                               ghost lists0: map<ModelEntity, seq<ModelAttribute>>,
                               ghost items0: seq<TreeItem>, ghost rows0: map<TreeItem, Row>,
                               ghost deleted0: seq<TreeItem>, ghost removed: set<TreeItem>, ghost gone: set<ModelAttribute>)
      requires itemId.AttributeItem? && itemId !in removed
      requires itemId.attribute in ownerOf && itemId.attribute.entity == ownerOf[itemId.attribute]
      requires ownerOf[itemId.attribute] in lists0
      requires Removal(items0, rows0, deleted0, removed, items, rows, deleted)
      requires forall j :: |deleted0| <= j < |deleted| ==> deleted[j].AttributeItem?
      requires forall e :: e in lists0 ==> e.modelAttributes == Without(lists0[e], OwnedBy(gone, ownerOf, e))
      modifies this`items, this`rows, this`deleted, itemId.attribute.entity`modelAttributes
      ensures Removal(items0, rows0, deleted0, removed + {itemId}, items, rows, deleted)
      ensures forall j :: |deleted0| <= j < |deleted| ==> deleted[j].AttributeItem?
      ensures forall e :: e in lists0 ==> e.modelAttributes == Without(lists0[e], OwnedBy(gone + {itemId.attribute}, ownerOf, e))
    {
      var a := itemId.attribute;
      RemovalStep(items0, rows0, deleted0, removed, items, rows, deleted, itemId);
      deleted := deleted + [itemId];
      TakeOut(a, ownerOf, lists0, gone);
      RemoveItem(itemId);
    }

    /** removeModelAttribute on the entity the attribute points back at. */
    static method TakeOut(a: ModelAttribute, ghost ownerOf: map<ModelAttribute, ModelEntity>,
                          ghost lists0: map<ModelEntity, seq<ModelAttribute>>, ghost gone: set<ModelAttribute>)
      requires a in ownerOf && a.entity == ownerOf[a] && ownerOf[a] in lists0
      requires forall e :: e in lists0 ==> e.modelAttributes == Without(lists0[e], OwnedBy(gone, ownerOf, e))
      modifies a.entity`modelAttributes
      ensures forall e :: e in lists0 ==> e.modelAttributes == Without(lists0[e], OwnedBy(gone + {a}, ownerOf, e))
    {
      var owner := a.entity;
      owner.RemoveModelAttribute(a);
      forall e | e in lists0
        ensures e.modelAttributes == Without(lists0[e], OwnedBy(gone + {a}, ownerOf, e))
      {
        if e == owner {
          WithoutTwice(lists0[e], OwnedBy(gone, ownerOf, e), {a});
          assert OwnedBy(gone + {a}, ownerOf, e) == OwnedBy(gone, ownerOf, e) + {a};
        } else {
          assert OwnedBy(gone + {a}, ownerOf, e) == OwnedBy(gone, ownerOf, e);
        }
      }
    }

    /** The second pass of Remove: every entity item of `itemIds` is deleted
        and removed from the tree. */
    method RemoveEntities(itemIds: set<TreeItem>)
      modifies this`items, this`rows, this`deleted
      ensures Removal(old(items), old(rows), old(deleted), EntityItemsIn(itemIds), items, rows, deleted)
      ensures forall j :: |old(deleted)| <= j < |deleted| ==> deleted[j].EntityItem?
    {
      var todo := itemIds;
      ghost var removed: set<TreeItem> := {};
      NothingRemoved(items, rows, deleted);
      assert EntityItemsIn(itemIds) - todo == {};
      while todo != {}
        invariant todo <= itemIds
        invariant removed == EntityItemsIn(itemIds) - todo
        invariant Removal(old(items), old(rows), old(deleted), removed, items, rows, deleted)
        invariant forall j :: |old(deleted)| <= j < |deleted| ==> deleted[j].EntityItem?
        decreases |todo|
      {
        var itemId :| itemId in todo;
        PickedEntity(itemIds, todo, removed, itemId);
        if itemId.EntityItem? {
          RemoveEntityItem(itemId, old(items), old(rows), old(deleted), removed);
          removed := removed + {itemId};
        }
        todo := todo - {itemId};
      }
      assert removed == EntityItemsIn(itemIds);
    }

    /** One entity turn of the second pass. */
    method RemoveEntityItem(itemId: TreeItem, ghost items0: seq<TreeItem>, ghost rows0: map<TreeItem, Row>,
                            ghost deleted0: seq<TreeItem>, ghost removed: set<TreeItem>)
      requires itemId.EntityItem? && itemId !in removed
      requires Removal(items0, rows0, deleted0, removed, items, rows, deleted)
      requires forall j :: |deleted0| <= j < |deleted| ==> deleted[j].EntityItem?
      modifies this`items, this`rows, this`deleted
      ensures Removal(items0, rows0, deleted0, removed + {itemId}, items, rows, deleted)
      ensures forall j :: |deleted0| <= j < |deleted| ==> deleted[j].EntityItem?
    {
      RemovalStep(items0, rows0, deleted0, removed, items, rows, deleted, itemId);
      deleted := deleted + [itemId];
      RemoveItem(itemId);
    }

    /** The entities an import of `es` involves: those the tree shows and the
        imported ones. */
    function Involved(es: seq<ModelEntity>): set<ModelEntity>
      reads this
    {
      (set it | it in items && it.EntityItem? :: it.entity) + set e | e in es
    }

    /** The state the import listener starts from. */
    function StartState(es: seq<ModelEntity>): (s: ImportState)
      reads this, Involved(es), AttributesOfEntities(Involved(es))
      ensures Closed(s) && forall e :: e in es ==> e in s.lists
    {
      RegistryContents(items);
      ImportState(Registry(items),
                  map e | e in Involved(es) :: e.modelAttributes,
                  map a | a in AttributesOfEntities(Involved(es)) :: a.entity,
                  items, rows, saved)
    }

    /** The panel and the objects it reaches are as `s` records them. */
    ghost predicate Mirrors(s: ImportState)
      reads this, s.lists.Keys, s.owners.Keys
    {
      && items == s.items && rows == s.rows && saved == s.saved
      && (forall e :: e in s.lists ==> e.modelAttributes == s.lists[e])
      && (forall a :: a in s.owners ==> a.entity == s.owners[a])
    }

    /** The import listener's selected: every imported entity is matched by
        upper-cased name against the entities in the tree and the ones
        imported before it; an unmatched one is saved, registered and added,
        a matched one has its attributes merged into the match. */
    method ImportSelected(modelEntityCollection: seq<ModelEntity>)
      modifies this`items, this`rows, this`saved, Involved(modelEntityCollection)`modelAttributes,
               AttributesOfEntities(Involved(modelEntityCollection))`entity
      ensures Mirrors(ImportAll(old(StartState(modelEntityCollection)), modelEntityCollection))
    {
      ghost var s0 := StartState(modelEntityCollection);
      assert s0.lists.Keys == Involved(modelEntityCollection);
      assert s0.owners.Keys == AttributesOfEntities(Involved(modelEntityCollection));
      var existingModelEntities := CollectExisting(items);
      ghost var s := s0;
      var i := 0;
      while i < |modelEntityCollection|
        invariant 0 <= i <= |modelEntityCollection|
        invariant s == ImportAll(s0, modelEntityCollection[..i])
        invariant s.lists.Keys == s0.lists.Keys && s.owners.Keys == s0.owners.Keys
        invariant Mirrors(s) && existingModelEntities == s.registry
      {
        ImportAllSnoc(s0, modelEntityCollection, i);
        existingModelEntities, s := ImportTurn(modelEntityCollection[i], existingModelEntities, s);
        i := i + 1;
      }
      assert modelEntityCollection[..i] == modelEntityCollection;
    }

    /** The registry of the entities the tree shows, collected item by item. */
    static method CollectExisting(itemIds: seq<TreeItem>) returns (existing: map<string, ModelEntity>)
      ensures existing == Registry(itemIds)
    {
      existing := map[];
      var k := 0;
      while k < |itemIds|
        invariant 0 <= k <= |itemIds|
        invariant existing == Registry(itemIds[..k])
      {
        assert itemIds[..k + 1][..k] == itemIds[..k];
        if itemIds[k].EntityItem? {
          var modelEntity := itemIds[k].entity;
          existing := existing[ToUpper(modelEntity.name) := modelEntity];
        }
        k := k + 1;
      }
      assert itemIds[..k] == itemIds;
    }

    /** One imported entity. */
    method ImportTurn(e: ModelEntity, existing: map<string, ModelEntity>, ghost s: ImportState)
      returns (existing': map<string, ModelEntity>, ghost s': ImportState)
      requires Closed(s) && e in s.lists && Mirrors(s) && existing == s.registry
      modifies this`items, this`rows, this`saved, s.lists.Keys`modelAttributes, s.owners.Keys`entity
      ensures s' == ImportEntity(s, e) && Mirrors(s') && existing' == s'.registry
    {
      var key := ToUpper(e.name);
      if key !in existing {
        existing' := existing[key := e];
        s' := ImportNew(e, s);
        assert s' == ImportEntity(s, e);
      } else {
        existing' := existing;
        ghost var merged := MergeInto(existing[key], e, s);
        s' := ImportEntity(s, e);
      }
    }

    /** An imported entity whose key is not registered: it is saved and
        added with all its attributes. */
    method ImportNew(e: ModelEntity, ghost s: ImportState) returns (ghost s': ImportState)
      requires Closed(s) && e in s.lists && Mirrors(s)
      modifies this`items, this`rows, this`saved, s.owners.Keys`entity
      ensures s' == Registered(s, e) && Mirrors(s')
    {
      s' := Registered(s, e);
      saved := saved + [EntityItem(e)];
      AddTakingOver(e, s.owners);
    }

    /** add, for an entity whose attributes are among those `owners` records
        the back-pointers of: they all now point at `e`. */
    method AddTakingOver(e: ModelEntity, ghost owners: map<ModelAttribute, ModelEntity?>)
      requires forall a :: a in e.modelAttributes ==> a in owners
      requires forall a :: a in owners ==> a.entity == owners[a]
      modifies this`items, this`rows, owners.Keys`entity
      ensures items == InsertAll(old(items), Rows(Listing(e, e.modelAttributes)))
      ensures rows == old(rows) + OwnedRows("", e, Rows(Listing(e, e.modelAttributes)))
      ensures forall a :: a in owners + (map a | a in e.modelAttributes :: e) ==>
                a.entity == (owners + map a | a in e.modelAttributes :: e)[a]
    {
      ghost var attrs := e.modelAttributes;
      Add("", e);
      forall a | a in owners && a !in attrs
        ensures a.entity == owners[a]
      {
      }
      OwnersTakenOver(owners, attrs, e);
    }

    /** The merge of `e`'s attributes into `target`. */
    method MergeInto(target: ModelEntity, e: ModelEntity, ghost s: ImportState) returns (ghost s': ImportState)
      requires Closed(s) && e in s.lists && target in s.lists && Mirrors(s)
      modifies this`items, this`rows, this`saved, target`modelAttributes, s.owners.Keys`entity
      ensures s' == Merge(s, target, s.lists[e]) && Mirrors(s')
    {
      var attrs := e.modelAttributes;
      s' := s;
      var k := 0;
      while k < |attrs|
        invariant 0 <= k <= |attrs|
        invariant s' == Merge(s, target, attrs[..k]) && Mirrors(s')
      {
        MergeSnoc(s, target, attrs, k);
        s' := MergeOne(target, attrs[k], s');
        k := k + 1;
      }
      assert attrs[..k] == attrs;
    }

    /** One attribute of a merge. */
    method MergeOne(target: ModelEntity, a: ModelAttribute, ghost s: ImportState) returns (ghost s': ImportState)
      requires target in s.lists && Mirrors(s)
      modifies this`items, this`rows, this`saved, target`modelAttributes, a`entity
      ensures s' == MergeAttribute(s, target, a) && Mirrors(s')
    {
      var found := target.GetModelAttributeByName(a.name);
      if found == None {
        a.entity := target;
        saved := saved + [AttributeItem(a)];
        target.AddModelAttribute(a);
        AddModelAttribute("", a);
      }
      s' := MergeAttribute(s, target, a);
    }

    /** removeItem: the item leaves the item sequence and its row goes. */
    method RemoveItem(it: TreeItem)
      modifies this`items, this`rows
      ensures items == Without(old(items), {it})
      ensures rows == old(rows) - {it}
    {
      items := Without(items, {it});
      rows := rows - {it};
    }
  }

  /** The listings change only when the entities do. */
  twostate lemma SnapshotUnchanged(es: seq<ModelEntity>)
    requires unchanged(es`modelAttributes)
    ensures Snapshot(es) == old(Snapshot(es))
  {
  }

  /** The rows of one more entity extend the item sequence and the rows as
      adding the entity does. */
  lemma AddedEntityRows(filter: string, items0: seq<TreeItem>, rows0: map<TreeItem, Row>,
                        ls: seq<Listing>, l: Listing)
    ensures InsertAll(InsertAll(items0, AllRows(ls)), Rows(l)) == InsertAll(items0, AllRows(ls + [l]))
    ensures rows0 + ShownRows(filter, ls) + OwnedRows(filter, l.entity, Rows(l)) == rows0 + ShownRows(filter, ls + [l])
  {
    assert (ls + [l])[..|ls|] == ls;
    assert AllRows(ls + [l]) == AllRows(ls) + Rows(l);
    InsertAllAppend(items0, AllRows(ls), Rows(l));
    ShownRowsSnoc(filter, ls, l);
    UnionAssoc(rows0, ShownRows(filter, ls), OwnedRows(filter, l.entity, Rows(l)));
  }

  /** One more added entity takes over, as parent, every attribute it lists. */
  lemma ShownRowsSnoc(filter: string, ls: seq<Listing>, l: Listing)
    ensures ShownRows(filter, ls + [l]) == ShownRows(filter, ls) + OwnedRows(filter, l.entity, Rows(l))
  {
    var before, after := ShownRows(filter, ls), ShownRows(filter, ls + [l]);
    var owned := OwnedRows(filter, l.entity, Rows(l));
    ShownRowsSnocKeys(filter, ls, l);
    forall it | it in after.Keys
      ensures after[it] == (before + owned)[it]
    {
      ShownRowsSnocAt(filter, ls, l, it);
    }
  }

  lemma ShownRowsSnocKeys(filter: string, ls: seq<Listing>, l: Listing)
    ensures ShownRows(filter, ls + [l]).Keys == ShownRows(filter, ls).Keys + OwnedRows(filter, l.entity, Rows(l)).Keys
  {
    assert (ls + [l])[..|ls|] == ls;
    assert AllRows(ls + [l]) == AllRows(ls) + Rows(l);
  }

  lemma ShownRowsSnocAt(filter: string, ls: seq<Listing>, l: Listing, it: TreeItem)
    requires it in AllRows(ls + [l])
    ensures AllRows(ls + [l]) == AllRows(ls) + Rows(l)
    ensures ShownRows(filter, ls + [l])[it] == (ShownRows(filter, ls) + OwnedRows(filter, l.entity, Rows(l)))[it]
  {
    var ls' := ls + [l];
    assert ls'[..|ls|] == ls;
    if it.AttributeItem? {
      AttributeItemsMembership(l.attributes, it.attribute);
      if it in Rows(l) {
        assert LastListing(ls', it.attribute) == Some(l.entity);
      } else {
        assert LastListing(ls', it.attribute) == LastListing(ls, it.attribute);
      }
    }
  }

  lemma AttributeItemsMembership(attrs: seq<ModelAttribute>, a: ModelAttribute)
    ensures AttributeItem(a) in AttributeItems(attrs) <==> a in attrs
  {
    if a in attrs {
      var j :| 0 <= j < |attrs| && attrs[j] == a;
      assert AttributeItems(attrs)[j] == AttributeItem(a);
    }
  }
}
