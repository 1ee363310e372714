/** The tree mirror: `createQuestionnaireResponseItem` and the structural
    relation it establishes between a definition forest and a response forest. */
module Mirror {
  import opened Questionnaire

  /** `createQuestionnaireResponseItem`: a response node with the item's linkId,
      no answer, and one mirrored child per definition child, in order. */
  function MirrorItem(d: DefItem): (r: RespItem)
    ensures r.linkId == d.linkId && r.answer == None
    ensures |r.children| == |d.children|
    decreases d, 1
  {
    RespItem(d.linkId, None, MirrorList(d.children))
  }

  /** The mirror of each item of a forest, in the forest's order. */
  function MirrorList(ds: seq<DefItem>): (rs: seq<RespItem>)
    ensures |rs| == |ds|
    decreases ds, 0
  {
    seq(|ds|, i requires 0 <= i < |ds| => MirrorItem(ds[i]))
  }

  /** The structural-mirroring invariant: same number of siblings at every level,
      the same linkId at each sibling position, recursively. Answers are free. */
  ghost predicate Mirrors(ds: seq<DefItem>, rs: seq<RespItem>)
    decreases ds
  {
    |ds| == |rs| &&
    (ds != [] ==>
      rs[0].linkId == ds[0].linkId &&
      Mirrors(ds[0].children, rs[0].children) &&
      Mirrors(ds[1..], rs[1..]))
  }

  /** No node of the forest carries an answer. */
  ghost predicate Unanswered(rs: seq<RespItem>)
  {
    forall n :: n in RespNodes(rs) ==> n.answer == None
  }

  /** The mirror of a forest satisfies the mirroring invariant. */
  lemma {:induction false} MirrorListMirrors(ds: seq<DefItem>)
    ensures Mirrors(ds, MirrorList(ds))
    decreases ds
  {
    if ds != [] {
      MirrorListMirrors(ds[0].children);
      assert MirrorList(ds)[1..] == MirrorList(ds[1..]);
      MirrorListMirrors(ds[1..]);
    }
  }

  /** The mirror of a forest carries no answer anywhere. */
  lemma {:induction false} MirrorListUnanswered(ds: seq<DefItem>)
    ensures Unanswered(MirrorList(ds))
    decreases ds
  {
    if ds != [] {
      MirrorListUnanswered(ds[0].children);
      assert MirrorList(ds)[1..] == MirrorList(ds[1..]);
      MirrorListUnanswered(ds[1..]);
    }
  }

  /** Mirrored forests have the same pre-order linkId sequence. */
  lemma {:induction false} MirrorsSamePreorder(ds: seq<DefItem>, rs: seq<RespItem>)
    requires Mirrors(ds, rs)
    ensures RespPreorder(rs) == DefPreorder(ds)
    decreases ds
  {
    if ds != [] {
      MirrorsSamePreorder(ds[0].children, rs[0].children);
      MirrorsSamePreorder(ds[1..], rs[1..]);
    }
  }

  /** The response built from a definition forest lists the same linkIds in the
      same pre-order, and therefore has one node per definition node. */
  lemma MirrorListPreorder(ds: seq<DefItem>)
    ensures RespPreorder(MirrorList(ds)) == DefPreorder(ds)
    ensures |RespNodes(MirrorList(ds))| == |DefPreorder(ds)|
  {
    MirrorListMirrors(ds);
    MirrorsSamePreorder(ds, MirrorList(ds));
    RespPreorderIsNodeIds(MirrorList(ds));
  }
}
