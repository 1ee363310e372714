/** The linkId index of a response forest (`buildMap`). */
module LinkIndex {
  import opened Questionnaire

  /** `list.map { it.linkId to it }.toMap()`: top-level items keyed by linkId;
      a later item with a repeated linkId replaces an earlier one. */
  function ToMap(items: seq<RespItem>): map<LinkId, RespItem>
  {
    if items == [] then map[]
    else
      var last := items[|items| - 1];
      ToMap(items[..|items| - 1])[last.linkId := last]
  }

  /** The `putAll` of each item's child index, in list order (later wins). */
  function ChildIndex(items: seq<RespItem>): map<LinkId, RespItem>
    decreases items, 0
  {
    if items == [] then map[]
    else ChildIndex(items[..|items| - 1]) + Index(items[|items| - 1].children)
  }

  /** What `buildMap` returns for a response forest. */
  function Index(items: seq<RespItem>): map<LinkId, RespItem>
    decreases items, 1
  {
    ToMap(items) + ChildIndex(items)
  }

  /** `buildMap`: the top-level map, then the child maps merged in with `putAll`. */
  method BuildMap(items: seq<RespItem>) returns (m: map<LinkId, RespItem>)
    ensures m == Index(items)
    decreases items
  {
    m := ToMap(items);
    for i := 0 to |items|
      invariant m == ToMap(items) + ChildIndex(items[..i])
    {
      var sub := BuildMap(items[i].children);
      ChildIndexStep(items, i);
      MergeAssoc(ToMap(items), ChildIndex(items[..i]), sub);
      m := m + sub;
    }
    assert items[..|items|] == items;
  }

  /** One more item's child index merged in. */
  lemma ChildIndexStep(items: seq<RespItem>, i: nat)
    requires i < |items|
    ensures ChildIndex(items[..i + 1]) == ChildIndex(items[..i]) + Index(items[i].children)
  {
    var pre := items[..i + 1];
    assert pre[..|pre| - 1] == items[..i] && pre[|pre| - 1] == items[i];
  }

  /** `putAll` in sequence is one merge of the merged maps. */
  lemma MergeAssoc(a: map<LinkId, RespItem>, b: map<LinkId, RespItem>, c: map<LinkId, RespItem>)
    ensures (a + b) + c == a + (b + c)
  {
  }

  /** Every key of the top-level map names an item carrying that linkId. */
  lemma {:induction false} ToMapEntries(items: seq<RespItem>)
    ensures ToMap(items).Keys == set n | n in items :: n.linkId
    ensures forall id :: id in ToMap(items) ==> ToMap(items)[id].linkId == id && ToMap(items)[id] in items
    decreases |items|
  {
    if items != [] {
      var init := items[..|items| - 1];
      ToMapEntries(init);
      assert items == init + [items[|items| - 1]];
    }
  }

  /** Pre-order of a forest split in two is the concatenation of the pre-orders. */
  lemma {:induction false} PreorderAppend(a: seq<RespItem>, b: seq<RespItem>)
    ensures RespPreorder(a + b) == RespPreorder(a) + RespPreorder(b)
    ensures RespNodes(a + b) == RespNodes(a) + RespNodes(b)
    decreases |a|
  {
    if a == [] {
      assert a + b == b;
    } else {
      assert (a + b)[1..] == a[1..] + b;
      PreorderAppend(a[1..], b);
    }
  }

  /** Pre-order of a forest extended by one last item. */
  lemma PreorderSnoc(init: seq<RespItem>, last: RespItem)
    ensures RespPreorder(init + [last]) == RespPreorder(init) + [last.linkId] + RespPreorder(last.children)
    ensures RespNodes(init + [last]) == RespNodes(init) + [last] + RespNodes(last.children)
  {
    PreorderAppend(init, [last]);
    assert [last][1..] == [];
  }

  /** The keys of the index of a forest extended by one last item. */
  lemma IndexKeysSnoc(init: seq<RespItem>, last: RespItem)
    ensures Index(init + [last]).Keys == Index(init).Keys + {last.linkId} + Index(last.children).Keys
  {
    var items := init + [last];
    assert items[..|items| - 1] == init && items[|items| - 1] == last;
    assert ToMap(items) == ToMap(init)[last.linkId := last];
    assert ChildIndex(items) == ChildIndex(init) + Index(last.children);
  }

  /** The keys of buildMap's result are exactly the linkIds of the forest, at every depth. */
  lemma {:induction false} IndexKeys(items: seq<RespItem>)
    ensures Index(items).Keys == set id | id in RespPreorder(items)
    decreases items
  {
    if items != [] {
      var init := items[..|items| - 1];
      var last := items[|items| - 1];
      assert items == init + [last];
      IndexKeys(init);
      IndexKeys(last.children);
      IndexKeysSnoc(init, last);
      PreorderSnoc(init, last);
      var ids := RespPreorder(items);
      forall id
        ensures id in Index(items).Keys <==> id in ids
      {
        assert id in ids <==>
          id in RespPreorder(init) || id == last.linkId || id in RespPreorder(last.children);
      }
    }
  }

  /** Each key of buildMap's result maps to a node of the forest carrying that linkId. */
  lemma {:induction false} IndexValues(items: seq<RespItem>)
    ensures forall id :: id in Index(items) ==>
      Index(items)[id].linkId == id && Index(items)[id] in RespNodes(items)
    decreases items
  {
    if items != [] {
      var init := items[..|items| - 1];
      var last := items[|items| - 1];
      assert items == init + [last];
      IndexValues(init);
      IndexValues(last.children);
      PreorderSnoc(init, last);
      var nodes := RespNodes(items);
      forall id | id in Index(items)
        ensures Index(items)[id].linkId == id && Index(items)[id] in nodes
      {
        if id in Index(last.children) {
          assert Index(items)[id] == Index(last.children)[id];
        } else if id in ChildIndex(init) {
          assert Index(items)[id] == Index(init)[id];
        } else if id == last.linkId {
          assert Index(items)[id] == last;
        } else {
          assert ChildIndex(items) == ChildIndex(init) + Index(last.children);
          assert id in ToMap(items) && ToMap(items) == ToMap(init)[last.linkId := last];
          assert id in ToMap(init);
          assert Index(items)[id] == ToMap(init)[id] == Index(init)[id];
        }
      }
    }
  }

  /** buildMap covers every response node at every depth: its keys are exactly
      the linkIds of the forest, and each key maps to a node of the forest that
      carries it. */
  lemma IndexEntries(items: seq<RespItem>)
    ensures Index(items).Keys == set id | id in RespPreorder(items)
    ensures forall id :: id in Index(items) ==>
      Index(items)[id].linkId == id && Index(items)[id] in RespNodes(items)
  {
    IndexKeys(items);
    IndexValues(items);
  }

  /** With unique linkIds, one node of the forest is what the index returns for its linkId. */
  lemma IndexFindsNode(items: seq<RespItem>, n: RespItem)
    requires Distinct(RespPreorder(items))
    requires n in RespNodes(items)
    ensures n.linkId in Index(items) && Index(items)[n.linkId] == n
  {
    IndexEntries(items);
    RespPreorderIsNodeIds(items);
    var nodes := RespNodes(items);
    var ids := RespPreorder(items);
    var i :| 0 <= i < |nodes| && nodes[i] == n;
    assert ids[i] == n.linkId;
    assert n.linkId in Index(items).Keys;
    var found := Index(items)[n.linkId];
    assert found in nodes && found.linkId == n.linkId;
    var j :| 0 <= j < |nodes| && nodes[j] == found;
    assert ids[j] == n.linkId;
    assert i == j;
  }

  /** With unique linkIds, every node of the forest is what the index returns
      for its own linkId. */
  lemma IndexFindsEveryNode(items: seq<RespItem>)
    requires Distinct(RespPreorder(items))
    ensures forall n :: n in RespNodes(items) ==> n.linkId in Index(items) && Index(items)[n.linkId] == n
  {
    forall n | n in RespNodes(items)
      ensures n.linkId in Index(items) && Index(items)[n.linkId] == n
    {
      IndexFindsNode(items, n);
    }
  }

  /** Looking up a linkId that no node carries finds nothing (the source's `!!` then throws). */
  lemma IndexMissing(items: seq<RespItem>, id: LinkId)
    ensures id !in Index(items) <==> id !in RespPreorder(items)
  {
    IndexEntries(items);
  }
}
