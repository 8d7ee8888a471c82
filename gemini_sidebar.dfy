/** The sidebar of pages/GeminiDocs.tsx: the sorted documents are bucketed
    into categories keyed by `${categoryOrder}-${category}` and, inside each,
    sub-groups keyed by `${subOrder}-${subCategory}`; both maps keep insertion
    order. The categories are then sorted by order and, inside each, the
    sub-groups by sub-order under the numeric collation. */
module GeminiSidebar {
  import opened Text
  import StableSort
  import Collation
  import opened GeminiDocs

  datatype SubGroup = SubGroup(subOrder: string, subCategory: string, docs: seq<GeminiDocItem>)

  datatype CategoryGroup = CategoryGroup(categoryOrder: nat, category: string, subGroups: seq<SubGroup>)

  function CategoryKey(d: GeminiDocItem): string {
    NatToString(d.categoryOrder) + "-" + d.category
  }

  function SubKey(d: GeminiDocItem): string {
    d.subOrder + "-" + d.subCategory
  }

  function GroupKey(c: CategoryGroup): string {
    NatToString(c.categoryOrder) + "-" + c.category
  }

  function SubGroupKey(s: SubGroup): string {
    s.subOrder + "-" + s.subCategory
  }

  // ---------------------------------------------------------------------------
  // The two maps, as sequences of their values in insertion order

  /** The position of the category with this key, or `|cats|` (`has` is false). */
  function FindGroup(cats: seq<CategoryGroup>, key: string): (k: nat)
    ensures k <= |cats|
    ensures k < |cats| ==> GroupKey(cats[k]) == key
    ensures forall i :: 0 <= i < k ==> GroupKey(cats[i]) != key
  {
    if cats == [] then 0
    else if GroupKey(cats[0]) == key then 0
    else 1 + FindGroup(cats[1..], key)
  }

  function FindSub(subs: seq<SubGroup>, key: string): (j: nat)
    ensures j <= |subs|
    ensures j < |subs| ==> SubGroupKey(subs[j]) == key
    ensures forall i :: 0 <= i < j ==> SubGroupKey(subs[i]) != key
  {
    if subs == [] then 0
    else if SubGroupKey(subs[0]) == key then 0
    else 1 + FindSub(subs[1..], key)
  }

  /** `subMap` after `docs.push(doc)` into the sub-group of the document's key,
      created empty first when missing. */
  function AddToSubs(subs: seq<SubGroup>, d: GeminiDocItem): seq<SubGroup> {
    var j := FindSub(subs, SubKey(d));
    var subs' := if j == |subs| then subs + [SubGroup(d.subOrder, d.subCategory, [])] else subs;
    subs'[j := subs'[j].(docs := subs'[j].docs + [d])]
  }

  /** `categoryMap` after one step of the `forEach`. */
  function AddDoc(cats: seq<CategoryGroup>, d: GeminiDocItem): seq<CategoryGroup> {
    var k := FindGroup(cats, CategoryKey(d));
    var cats' := if k == |cats| then cats + [CategoryGroup(d.categoryOrder, d.category, [])] else cats;
    cats'[k := cats'[k].(subGroups := AddToSubs(cats'[k].subGroups, d))]
  }

  /** `categoryMap` after the whole `forEach`. */
  function Bucket(docs: seq<GeminiDocItem>): seq<CategoryGroup> {
    if docs == [] then [] else AddDoc(Bucket(docs[..|docs| - 1]), docs[|docs| - 1])
  }

  /** One more document is one more step of the `forEach`. */
  lemma BucketSnoc(docs: seq<GeminiDocItem>, d: GeminiDocItem)
    ensures Bucket(docs + [d]) == AddDoc(Bucket(docs), d)
  {
    assert (docs + [d])[..|docs|] == docs;
  }

  // ---------------------------------------------------------------------------
  // What the buckets hold

  /** The documents with both keys, in their order in `docs`. */
  function Select(docs: seq<GeminiDocItem>, ck: string, sk: string): seq<GeminiDocItem> {
    if docs == [] then []
    else
      var d := docs[|docs| - 1];
      Select(docs[..|docs| - 1], ck, sk) + (if CategoryKey(d) == ck && SubKey(d) == sk then [d] else [])
  }

  lemma SelectSnoc(docs: seq<GeminiDocItem>, d: GeminiDocItem, ck: string, sk: string)
    ensures Select(docs + [d], ck, sk) ==
      Select(docs, ck, sk) + (if CategoryKey(d) == ck && SubKey(d) == sk then [d] else [])
  {
    assert (docs + [d])[..|docs|] == docs;
  }

  predicate SubKeysDistinct(subs: seq<SubGroup>) {
    forall i, j :: 0 <= i < j < |subs| ==> SubGroupKey(subs[i]) != SubGroupKey(subs[j])
  }

  predicate GroupKeysDistinct(cats: seq<CategoryGroup>) {
    forall i, j :: 0 <= i < j < |cats| ==> GroupKey(cats[i]) != GroupKey(cats[j])
  }

  /** The sub-groups of the category keyed `ck` after reading `docs`: one per
      sub-key present, each holding exactly the documents with both keys. */
  ghost predicate SubsHold(docs: seq<GeminiDocItem>, ck: string, subs: seq<SubGroup>) {
    && SubKeysDistinct(subs)
    && (forall j :: 0 <= j < |subs| ==> subs[j].docs == Select(docs, ck, SubGroupKey(subs[j])))
    && (forall sk :: FindSub(subs, sk) == |subs| ==> Select(docs, ck, sk) == [])
  }

  /** The categories after reading `docs`: one per category key present. */
  ghost predicate GroupsHold(docs: seq<GeminiDocItem>, cats: seq<CategoryGroup>) {
    && GroupKeysDistinct(cats)
    && (forall i :: 0 <= i < |cats| ==> SubsHold(docs, GroupKey(cats[i]), cats[i].subGroups))
    && (forall ck, sk :: FindGroup(cats, ck) == |cats| ==> Select(docs, ck, sk) == [])
  }

  /** The sub-group a document goes to, and the others left as they were. */
  lemma AddToSubsShape(subs: seq<SubGroup>, d: GeminiDocItem)
    ensures var j := FindSub(subs, SubKey(d)); var r := AddToSubs(subs, d);
      && |r| == (if j == |subs| then |subs| + 1 else |subs|)
      && j < |r| && SubGroupKey(r[j]) == SubKey(d)
      && r[j].docs == (if j == |subs| then [] else subs[j].docs) + [d]
      && (forall i :: 0 <= i < |r| && i != j ==> r[i] == subs[i])
  {
  }

  lemma AddToSubsDistinct(subs: seq<SubGroup>, d: GeminiDocItem)
    requires SubKeysDistinct(subs)
    ensures SubKeysDistinct(AddToSubs(subs, d))
  {
    var j := FindSub(subs, SubKey(d));
    var r := AddToSubs(subs, d);
    AddToSubsShape(subs, d);
    forall i, i' | 0 <= i < i' < |r|
      ensures SubGroupKey(r[i]) != SubGroupKey(r[i'])
    {
      if i == j {
        assert r[i'] == subs[i'];
      } else if i' == j {
        assert r[i] == subs[i];
      } else {
        assert r[i] == subs[i] && r[i'] == subs[i'];
      }
    }
  }

  lemma AddToSubsGroups(docs: seq<GeminiDocItem>, ck: string, subs: seq<SubGroup>, d: GeminiDocItem)
    requires SubsHold(docs, ck, subs) && CategoryKey(d) == ck
    ensures var r := AddToSubs(subs, d);
      forall i :: 0 <= i < |r| ==> r[i].docs == Select(docs + [d], ck, SubGroupKey(r[i]))
  {
    var sk := SubKey(d);
    var j := FindSub(subs, sk);
    var r := AddToSubs(subs, d);
    AddToSubsShape(subs, d);
    forall i | 0 <= i < |r|
      ensures r[i].docs == Select(docs + [d], ck, SubGroupKey(r[i]))
    {
      SelectSnoc(docs, d, ck, SubGroupKey(r[i]));
      if i == j {
        assert j == |subs| ==> Select(docs, ck, sk) == [];
      } else {
        assert r[i] == subs[i];
      }
    }
  }

  lemma AddToSubsAbsent(docs: seq<GeminiDocItem>, ck: string, subs: seq<SubGroup>, d: GeminiDocItem)
    requires SubsHold(docs, ck, subs) && CategoryKey(d) == ck
    ensures var r := AddToSubs(subs, d);
      forall sk :: FindSub(r, sk) == |r| ==> Select(docs + [d], ck, sk) == []
  {
    var j := FindSub(subs, SubKey(d));
    var r := AddToSubs(subs, d);
    AddToSubsShape(subs, d);
    forall sk | FindSub(r, sk) == |r|
      ensures Select(docs + [d], ck, sk) == []
    {
      assert sk != SubKey(d) by {
        assert SubGroupKey(r[j]) == SubKey(d);
      }
      forall i | 0 <= i < |subs|
        ensures SubGroupKey(subs[i]) != sk
      {
        if i == j {
          assert SubGroupKey(r[j]) != sk;
        } else {
          assert r[i] == subs[i];
        }
      }
      SelectSnoc(docs, d, ck, sk);
    }
  }

  lemma AddToSubsHolds(docs: seq<GeminiDocItem>, ck: string, subs: seq<SubGroup>, d: GeminiDocItem)
    requires SubsHold(docs, ck, subs) && CategoryKey(d) == ck
    ensures SubsHold(docs + [d], ck, AddToSubs(subs, d))
  {
    AddToSubsDistinct(subs, d);
    AddToSubsGroups(docs, ck, subs, d);
    AddToSubsAbsent(docs, ck, subs, d);
  }

  /** Reading a document of another category leaves a category's sub-groups as they were. */
  lemma SubsHoldOther(docs: seq<GeminiDocItem>, ck: string, subs: seq<SubGroup>, d: GeminiDocItem)
    requires SubsHold(docs, ck, subs) && CategoryKey(d) != ck
    ensures SubsHold(docs + [d], ck, subs)
  {
    forall sk ensures Select(docs + [d], ck, sk) == Select(docs, ck, sk) {
      SelectSnoc(docs, d, ck, sk);
    }
  }

  /** The category a document goes to, and the others left as they were. */
  lemma AddDocShape(cats: seq<CategoryGroup>, d: GeminiDocItem)
    ensures var k := FindGroup(cats, CategoryKey(d)); var r := AddDoc(cats, d);
      && |r| == (if k == |cats| then |cats| + 1 else |cats|)
      && k < |r| && GroupKey(r[k]) == CategoryKey(d)
      && r[k].subGroups == AddToSubs(if k == |cats| then [] else cats[k].subGroups, d)
      && (forall i :: 0 <= i < |r| && i != k ==> r[i] == cats[i])
  {
  }

  lemma AddDocDistinct(cats: seq<CategoryGroup>, d: GeminiDocItem)
    requires GroupKeysDistinct(cats)
    ensures GroupKeysDistinct(AddDoc(cats, d))
  {
    var k := FindGroup(cats, CategoryKey(d));
    var r := AddDoc(cats, d);
    AddDocShape(cats, d);
    forall i, j | 0 <= i < j < |r|
      ensures GroupKey(r[i]) != GroupKey(r[j])
    {
      if i == k {
        assert r[j] == cats[j];
      } else if j == k {
        assert r[i] == cats[i];
      } else {
        assert r[i] == cats[i] && r[j] == cats[j];
      }
    }
  }

  lemma AddDocSubs(docs: seq<GeminiDocItem>, cats: seq<CategoryGroup>, d: GeminiDocItem)
    requires GroupsHold(docs, cats)
    ensures var r := AddDoc(cats, d);
      forall i :: 0 <= i < |r| ==> SubsHold(docs + [d], GroupKey(r[i]), r[i].subGroups)
  {
    var ck := CategoryKey(d);
    var k := FindGroup(cats, ck);
    var r := AddDoc(cats, d);
    AddDocShape(cats, d);
    var subs := if k == |cats| then [] else cats[k].subGroups;
    assert SubsHold(docs, ck, subs);
    AddToSubsHolds(docs, ck, subs, d);
    forall i | 0 <= i < |r| && i != k
      ensures SubsHold(docs + [d], GroupKey(r[i]), r[i].subGroups)
    {
      assert r[i] == cats[i];
      SubsHoldOther(docs, GroupKey(r[i]), r[i].subGroups, d);
    }
  }

  lemma AddDocAbsent(docs: seq<GeminiDocItem>, cats: seq<CategoryGroup>, d: GeminiDocItem)
    requires GroupsHold(docs, cats)
    ensures var r := AddDoc(cats, d);
      forall ck, sk :: FindGroup(r, ck) == |r| ==> Select(docs + [d], ck, sk) == []
  {
    var k := FindGroup(cats, CategoryKey(d));
    var r := AddDoc(cats, d);
    AddDocShape(cats, d);
    forall ck, sk | FindGroup(r, ck) == |r|
      ensures Select(docs + [d], ck, sk) == []
    {
      assert ck != CategoryKey(d) by {
        assert GroupKey(r[k]) == CategoryKey(d);
      }
      forall i | 0 <= i < |cats|
        ensures GroupKey(cats[i]) != ck
      {
        if i == k {
          assert GroupKey(r[k]) != ck;
        } else {
          assert r[i] == cats[i];
        }
      }
      SelectSnoc(docs, d, ck, sk);
    }
  }

  lemma AddDocHolds(docs: seq<GeminiDocItem>, cats: seq<CategoryGroup>, d: GeminiDocItem)
    requires GroupsHold(docs, cats)
    ensures GroupsHold(docs + [d], AddDoc(cats, d))
  {
    AddDocDistinct(cats, d);
    AddDocSubs(docs, cats, d);
    AddDocAbsent(docs, cats, d);
  }

  lemma {:induction false} BucketHolds(docs: seq<GeminiDocItem>)
    ensures GroupsHold(docs, Bucket(docs))
  {
    if docs != [] {
      var init, last := docs[..|docs| - 1], docs[|docs| - 1];
      assert docs == init + [last];
      BucketHolds(init);
      AddDocHolds(init, Bucket(init), last);
    }
  }
  // ---------------------------------------------------------------------------
  // Sorting the buckets

  /** `(a, b) => a.categoryOrder - b.categoryOrder`, as `compare(a, b) <= 0`. */
  predicate CategoryLeq(a: CategoryGroup, b: CategoryGroup) {
    a.categoryOrder - b.categoryOrder <= 0
  }

  /** `a.subOrder.localeCompare(b.subOrder, …)`, as `compare(a, b) <= 0`. */
  predicate SubLeq(a: SubGroup, b: SubGroup) {
    Collation.Leq(a.subOrder, b.subOrder)
  }

  lemma CategoryLeqTotalPreorder()
    ensures StableSort.TotalPreorder(CategoryLeq)
  {
  }

  lemma SubLeqTotalPreorder()
    ensures StableSort.TotalPreorder(SubLeq)
  {
    Collation.LeqTotalPreorder();
  }

  /** A category with its sub-groups sorted by sub-order. */
  function SortedSubs(c: CategoryGroup): CategoryGroup {
    c.(subGroups := StableSort.Sort(c.subGroups, SubLeq))
  }

  /** The final `.map` over the sorted categories. */
  function SortSubGroups(cats: seq<CategoryGroup>): seq<CategoryGroup> {
    seq(|cats|, i requires 0 <= i < |cats| => SortedSubs(cats[i]))
  }

  /** The page's `sidebarGroups`. */
  function Sidebar(docs: seq<GeminiDocItem>): seq<CategoryGroup> {
    SortSubGroups(StableSort.Sort(Bucket(docs), CategoryLeq))
  }

  /** One step of the page's `forEach`: the document's category is created
      when missing, then its sub-group, and the document is pushed onto it. */
  method FileDoc(categoryMap: seq<CategoryGroup>, doc: GeminiDocItem) returns (updated: seq<CategoryGroup>)
    ensures updated == AddDoc(categoryMap, doc)
  {
    updated := categoryMap;
    var k := FindGroup(updated, CategoryKey(doc));
    if k == |updated| {
      updated := updated + [CategoryGroup(doc.categoryOrder, doc.category, [])];
    }
    var subMap := updated[k].subGroups;
    ghost var subs := subMap;
    var j := FindSub(subMap, SubKey(doc));
    if j == |subMap| {
      subMap := subMap + [SubGroup(doc.subOrder, doc.subCategory, [])];
    }
    subMap := subMap[j := subMap[j].(docs := subMap[j].docs + [doc])];
    assert subMap == AddToSubs(subs, doc);
    updated := updated[k := updated[k].(subGroups := subMap)];
  }

  /** `sidebarGroups` as the page computes it: one pass over `docs` filling the
      two maps (a JavaScript `Map` keeps insertion order, as the sequence does),
      then the two sorts. */
  method BuildSidebar(docs: seq<GeminiDocItem>) returns (groups: seq<CategoryGroup>)
    ensures groups == Sidebar(docs)
  {
    var categoryMap: seq<CategoryGroup> := [];
    for i := 0 to |docs|
      invariant categoryMap == Bucket(docs[..i])
    {
      TakeSnoc(docs, i);
      BucketSnoc(docs[..i], docs[i]);
      categoryMap := FileDoc(categoryMap, docs[i]);
    }
    assert docs[..|docs|] == docs;
    groups := SortSubGroups(StableSort.Sort(categoryMap, CategoryLeq));
  }

  // ---------------------------------------------------------------------------
  // The sorts keep what the buckets hold

  lemma FindSubMembers(s: seq<SubGroup>, t: seq<SubGroup>, sk: string)
    requires forall x :: x in s ==> x in t
    requires FindSub(t, sk) == |t|
    ensures FindSub(s, sk) == |s|
  {
    forall i | 0 <= i < |s| ensures SubGroupKey(s[i]) != sk {
      assert s[i] in t;
    }
  }

  lemma FindGroupMembers(s: seq<CategoryGroup>, t: seq<CategoryGroup>, ck: string)
    requires forall x :: x in s ==> x in t
    requires FindGroup(t, ck) == |t|
    ensures FindGroup(s, ck) == |s|
  {
    forall i | 0 <= i < |s| ensures GroupKey(s[i]) != ck {
      assert s[i] in t;
    }
  }

  lemma SortSubsHold(docs: seq<GeminiDocItem>, ck: string, subs: seq<SubGroup>)
    requires SubsHold(docs, ck, subs)
    ensures SubsHold(docs, ck, StableSort.Sort(subs, SubLeq))
  {
    var t := StableSort.Sort(subs, SubLeq);
    assert StableSort.KeysDistinct(subs, SubGroupKey);
    StableSort.SortKeepsDistinct(subs, SubLeq, SubGroupKey);
    forall x ensures x in t <==> x in subs {
      StableSort.SortMembers(subs, SubLeq, x);
    }
    forall j | 0 <= j < |t| ensures t[j].docs == Select(docs, ck, SubGroupKey(t[j])) {
      assert t[j] in subs;
    }
    forall sk | FindSub(t, sk) == |t| ensures Select(docs, ck, sk) == [] {
      FindSubMembers(subs, t, sk);
    }
  }

  /** The same keys in the same order give the same search result. */
  lemma {:induction false} FindGroupSameKeys(a: seq<CategoryGroup>, b: seq<CategoryGroup>, ck: string)
    requires |a| == |b| && forall i :: 0 <= i < |a| ==> GroupKey(a[i]) == GroupKey(b[i])
    ensures FindGroup(a, ck) == FindGroup(b, ck)
  {
    if a != [] && GroupKey(a[0]) != ck {
      FindGroupSameKeys(a[1..], b[1..], ck);
    }
  }

  lemma SortSubGroupsHold(docs: seq<GeminiDocItem>, cats: seq<CategoryGroup>)
    requires GroupsHold(docs, cats)
    ensures GroupsHold(docs, SortSubGroups(cats))
  {
    var r := SortSubGroups(cats);
    assert forall i :: 0 <= i < |cats| ==> GroupKey(r[i]) == GroupKey(cats[i]);
    forall i | 0 <= i < |r| ensures SubsHold(docs, GroupKey(r[i]), r[i].subGroups) {
      SortSubsHold(docs, GroupKey(cats[i]), cats[i].subGroups);
    }
    forall ck | FindGroup(r, ck) == |r| ensures FindGroup(cats, ck) == |cats| {
      FindGroupSameKeys(r, cats, ck);
    }
  }

  lemma SortGroupsHold(docs: seq<GeminiDocItem>, cats: seq<CategoryGroup>)
    requires GroupsHold(docs, cats)
    ensures GroupsHold(docs, StableSort.Sort(cats, CategoryLeq))
  {
    var t := StableSort.Sort(cats, CategoryLeq);
    assert StableSort.KeysDistinct(cats, GroupKey);
    StableSort.SortKeepsDistinct(cats, CategoryLeq, GroupKey);
    forall x ensures x in t <==> x in cats {
      StableSort.SortMembers(cats, CategoryLeq, x);
    }
    forall i | 0 <= i < |t| ensures SubsHold(docs, GroupKey(t[i]), t[i].subGroups) {
      assert t[i] in cats;
    }
    forall ck, sk | FindGroup(t, ck) == |t| ensures Select(docs, ck, sk) == [] {
      FindGroupMembers(cats, t, ck);
    }
  }

  lemma SidebarHolds(docs: seq<GeminiDocItem>)
    ensures GroupsHold(docs, Sidebar(docs))
  {
    BucketHolds(docs);
    SortGroupsHold(docs, Bucket(docs));
    SortSubGroupsHold(docs, StableSort.Sort(Bucket(docs), CategoryLeq));
  }

  // ---------------------------------------------------------------------------
  // What the sidebar promises

  lemma SelectHas(docs: seq<GeminiDocItem>, d: GeminiDocItem)
    requires d in docs
    ensures d in Select(docs, CategoryKey(d), SubKey(d))
  {
    var init := docs[..|docs| - 1];
    if d != docs[|docs| - 1] {
      assert d in init;
      SelectHas(init, d);
    }
  }

  /** Every document sits in exactly one category, the one keyed by its order
      and category, and in exactly one sub-group of it, the one keyed by its
      sub-order and sub-category; that sub-group holds exactly the documents
      with both keys, in their order in `docs`. */
  lemma SidebarPlacesEachDoc(docs: seq<GeminiDocItem>, d: GeminiDocItem)
    requires d in docs
    ensures var g := Sidebar(docs);
      exists i, j ::
        && 0 <= i < |g| && GroupKey(g[i]) == CategoryKey(d)
        && 0 <= j < |g[i].subGroups| && SubGroupKey(g[i].subGroups[j]) == SubKey(d)
        && d in g[i].subGroups[j].docs
        && g[i].subGroups[j].docs == Select(docs, CategoryKey(d), SubKey(d))
        && (forall i' :: 0 <= i' < |g| && i' != i ==> GroupKey(g[i']) != CategoryKey(d))
        && (forall j' :: 0 <= j' < |g[i].subGroups| && j' != j ==>
              SubGroupKey(g[i].subGroups[j']) != SubKey(d))
  {
    var g := Sidebar(docs);
    var ck, sk := CategoryKey(d), SubKey(d);
    SidebarHolds(docs);
    SelectHas(docs, d);
    var i := FindGroup(g, ck);
    assert i < |g|;
    var subs := g[i].subGroups;
    assert SubsHold(docs, ck, subs);
    var j := FindSub(subs, sk);
    assert j < |subs|;
    assert d in g[i].subGroups[j].docs;
  }

  /** Categories come in ascending `categoryOrder`, sub-groups in ascending
      sub-order under the numeric collation, and both sorts are stable. */
  lemma SidebarSorted(docs: seq<GeminiDocItem>)
    ensures var g := Sidebar(docs);
      && (forall i, j :: 0 <= i < j < |g| ==> g[i].categoryOrder <= g[j].categoryOrder)
      && (forall i :: 0 <= i < |g| ==> StableSort.Sorted(g[i].subGroups, SubLeq))
      && StableSort.Stable(Bucket(docs), StableSort.Sort(Bucket(docs), CategoryLeq), CategoryLeq)
      && (forall i :: 0 <= i < |g| ==>
            var c := StableSort.Sort(Bucket(docs), CategoryLeq)[i];
            && c in Bucket(docs)
            && g[i] == c.(subGroups := g[i].subGroups)
            && StableSort.Stable(c.subGroups, g[i].subGroups, SubLeq))
  {
    var sorted := StableSort.Sort(Bucket(docs), CategoryLeq);
    CategoryLeqTotalPreorder();
    StableSort.SortCorrect(Bucket(docs), CategoryLeq);
    var g := Sidebar(docs);
    forall i, j | 0 <= i < j < |g| ensures g[i].categoryOrder <= g[j].categoryOrder {
      assert CategoryLeq(sorted[i], sorted[j]);
    }
    forall i | 0 <= i < |g| ensures StableSort.Sorted(g[i].subGroups, SubLeq) {
      SubLeqTotalPreorder();
      StableSort.SortSorted(sorted[i].subGroups, SubLeq);
    }
    SidebarSubsStable(docs);
  }

  /** Each category of the sidebar is a category of the bucketing with only
      its sub-groups reordered, stably. */
  lemma SidebarSubsStable(docs: seq<GeminiDocItem>)
    ensures var g := Sidebar(docs);
      forall i :: 0 <= i < |g| ==>
        var c := StableSort.Sort(Bucket(docs), CategoryLeq)[i];
        && c in Bucket(docs)
        && g[i] == c.(subGroups := g[i].subGroups)
        && StableSort.Stable(c.subGroups, g[i].subGroups, SubLeq)
  {
    var sorted := StableSort.Sort(Bucket(docs), CategoryLeq);
    StableSort.SortPermutes(Bucket(docs), CategoryLeq);
    var g := Sidebar(docs);
    forall i | 0 <= i < |g|
      ensures sorted[i] in Bucket(docs)
      ensures g[i] == sorted[i].(subGroups := g[i].subGroups)
      ensures StableSort.Stable(sorted[i].subGroups, g[i].subGroups, SubLeq)
    {
      assert sorted[i] in multiset(sorted);
      SortedSubsStable(sorted[i]);
    }
  }

  /** Sorting a category's sub-groups changes nothing else, and keeps the
      sub-groups `compare` ties in their insertion order. */
  lemma SortedSubsStable(c: CategoryGroup)
    ensures SortedSubs(c) == c.(subGroups := SortedSubs(c).subGroups)
    ensures StableSort.Stable(c.subGroups, SortedSubs(c).subGroups, SubLeq)
  {
    SubLeqTotalPreorder();
    StableSort.SortCorrect(c.subGroups, SubLeq);
  }

  // ---------------------------------------------------------------------------
  // Nothing lost, nothing duplicated

  function SubDocs(s: SubGroup): seq<GeminiDocItem> { s.docs }

  function CategoryDocs(c: CategoryGroup): seq<GeminiDocItem> {
    StableSort.FlatMap(SubDocs, c.subGroups)
  }

  /** Every document of the tree, category by category, sub-group by sub-group. */
  function TreeDocs(cats: seq<CategoryGroup>): seq<GeminiDocItem> {
    StableSort.FlatMap(CategoryDocs, cats)
  }

  lemma FlatMapOne<T, U>(f: T -> seq<U>, x: T)
    ensures StableSort.FlatMap(f, [x]) == f(x)
  {
    assert [x][..0] == [];
  }

  lemma AddToSubsDocs(subs: seq<SubGroup>, d: GeminiDocItem)
    ensures multiset(StableSort.FlatMap(SubDocs, AddToSubs(subs, d)))
         == multiset(StableSort.FlatMap(SubDocs, subs)) + multiset{d}
  {
    var j := FindSub(subs, SubKey(d));
    var newSub := SubGroup(d.subOrder, d.subCategory, []);
    var subs' := if j == |subs| then subs + [newSub] else subs;
    assert StableSort.FlatMap(SubDocs, subs') == StableSort.FlatMap(SubDocs, subs) by {
      if j == |subs| {
        StableSort.FlatMapAppend(SubDocs, subs, [newSub]);
        FlatMapOne(SubDocs, newSub);
      }
    }
    var x := subs'[j].(docs := subs'[j].docs + [d]);
    assert AddToSubs(subs, d) == subs'[j := x];
    StableSort.FlatMapUpdate(SubDocs, subs', j, x);
    assert multiset(SubDocs(x)) == multiset(SubDocs(subs'[j])) + multiset{d};
    MultisetCancel(multiset(StableSort.FlatMap(SubDocs, subs'[j := x])),
      multiset(StableSort.FlatMap(SubDocs, subs')) + multiset{d}, multiset(SubDocs(subs'[j])));
  }

  lemma AddDocDocs(cats: seq<CategoryGroup>, d: GeminiDocItem)
    ensures multiset(TreeDocs(AddDoc(cats, d))) == multiset(TreeDocs(cats)) + multiset{d}
  {
    var k := FindGroup(cats, CategoryKey(d));
    var newGroup := CategoryGroup(d.categoryOrder, d.category, []);
    var cats' := if k == |cats| then cats + [newGroup] else cats;
    assert TreeDocs(cats') == TreeDocs(cats) by {
      if k == |cats| {
        StableSort.FlatMapAppend(CategoryDocs, cats, [newGroup]);
        FlatMapOne(CategoryDocs, newGroup);
      }
    }
    var updated := cats'[k].(subGroups := AddToSubs(cats'[k].subGroups, d));
    assert AddDoc(cats, d) == cats'[k := updated];
    AddToSubsDocs(cats'[k].subGroups, d);
    assert multiset(CategoryDocs(updated)) == multiset(CategoryDocs(cats'[k])) + multiset{d};
    StableSort.FlatMapUpdate(CategoryDocs, cats', k, updated);
    MultisetCancel(multiset(TreeDocs(cats'[k := updated])),
      multiset(TreeDocs(cats')) + multiset{d}, multiset(CategoryDocs(cats'[k])));
  }

  lemma MultisetCancel<T>(a: multiset<T>, c: multiset<T>, b: multiset<T>)
    requires a + b == c + b
    ensures a == c
  {
    assert forall x :: a[x] == (a + b)[x] - b[x];
  }

  lemma {:induction false} BucketDocs(docs: seq<GeminiDocItem>)
    ensures multiset(TreeDocs(Bucket(docs))) == multiset(docs)
  {
    if docs != [] {
      var init, last := docs[..|docs| - 1], docs[|docs| - 1];
      assert docs == init + [last];
      BucketDocs(init);
      AddDocDocs(Bucket(init), last);
    }
  }

  lemma {:induction false} SortSubGroupsDocs(cats: seq<CategoryGroup>)
    ensures multiset(TreeDocs(SortSubGroups(cats))) == multiset(TreeDocs(cats))
  {
    if cats != [] {
      var head, tail := cats[0], cats[1..];
      var sortedHead := SortedSubs(head);
      SortSubGroupsCons(cats);
      assert cats == [head] + tail;
      SortSubGroupsDocs(tail);
      StableSort.SortKeepsFlatMap(SubDocs, head.subGroups, SubLeq);
      FlatMapConsSame(CategoryDocs, sortedHead, head, SortSubGroups(tail), tail);
    }
  }

  lemma SortSubGroupsCons(cats: seq<CategoryGroup>)
    requires cats != []
    ensures SortSubGroups(cats) == [SortedSubs(cats[0])] + SortSubGroups(cats[1..])
  {
    var r, t := SortSubGroups(cats), SortSubGroups(cats[1..]);
    forall i | 0 < i < |cats| ensures r[i] == t[i - 1] {
      assert cats[1..][i - 1] == cats[i];
    }
  }

  /** Heads and tails that hold the same elements give lists that do. */
  lemma FlatMapConsSame<T, U>(f: T -> seq<U>, a: T, b: T, xs: seq<T>, ys: seq<T>)
    requires multiset(f(a)) == multiset(f(b))
    requires multiset(StableSort.FlatMap(f, xs)) == multiset(StableSort.FlatMap(f, ys))
    ensures multiset(StableSort.FlatMap(f, [a] + xs)) == multiset(StableSort.FlatMap(f, [b] + ys))
  {
    StableSort.FlatMapAppend(f, [a], xs);
    StableSort.FlatMapAppend(f, [b], ys);
    FlatMapOne(f, a);
    FlatMapOne(f, b);
  }

  /** The tree holds every document of `docs` as many times as `docs` does, and nothing else. */
  lemma SidebarKeepsDocs(docs: seq<GeminiDocItem>)
    ensures multiset(TreeDocs(Sidebar(docs))) == multiset(docs)
  {
    BucketDocs(docs);
    StableSort.SortKeepsFlatMap(CategoryDocs, Bucket(docs), CategoryLeq);
    SortSubGroupsDocs(StableSort.Sort(Bucket(docs), CategoryLeq));
  }
}
