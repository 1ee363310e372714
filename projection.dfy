/** Stage 1 of the view-item projection: the lockstep, pre-order, enablement-
    filtered walk of the definition and response forests
    (`populateQuestionnaireItemViewItemList`). */
module Projection {
  import opened Questionnaire
  import opened Mirror
  import opened LinkIndex

  /** A linkId lookup handed to the evaluator; an Err is the exception it throws. */
  type Resolver = LinkId -> Result<RespItem, Error>

  /** `EnablementEvaluator.evaluate`, whose rules are not part of this model: a
      predicate over the item and the response nodes its enableWhen questions
      resolve to, in rule order. */
  type Evaluator = (DefItem, seq<RespItem>) -> bool

  /** Reads the question of every rule through the resolver; the first question
      the resolver cannot read is the error. */
  function Resolve(rules: seq<EnableWhen>, resolve: Resolver): (r: Result<seq<RespItem>, Error>)
    ensures r.Ok? <==> forall i :: 0 <= i < |rules| ==> resolve(rules[i].question).Ok?
    ensures r.Ok? ==> (|r.value| == |rules| &&
      forall i :: 0 <= i < |rules| ==> resolve(rules[i].question) == Ok(r.value[i]))
    ensures r.Err? ==> exists i :: 0 <= i < |rules| && resolve(rules[i].question) == Err(r.error)
  {
    if rules == [] then Ok([])
    else
      var first :- resolve(rules[0].question);
      var rest :- Resolve(rules[1..], resolve);
      Ok([first] + rest)
  }

  /** One evaluator call: resolve the item's questions, then ask the evaluator. */
  function Evaluate(item: DefItem, resolve: Resolver, eval: Evaluator): (r: Result<bool, Error>)
    ensures r.Ok? <==> forall w :: w in item.enableWhen ==> resolve(w.question).Ok?
  {
    var nodes :- Resolve(item.enableWhen, resolve);
    Ok(eval(item, nodes))
  }

  /** The stage-1 resolver `{ linkId -> map[linkId]!!.build() }`. */
  function MapResolver(index: map<LinkId, RespItem>): Resolver
  {
    (id: LinkId) => if id in index then Ok(index[id]) else Err(MissingLinkId(id))
  }

  /** The view items `populateQuestionnaireItemViewItemList` appends: walk both
      lists in lockstep up to the shorter one; an enabled item yields its pair and
      then its children's pairs, a disabled one yields nothing at all. */
  function Project(defs: seq<DefItem>, resps: seq<RespItem>, resolve: Resolver, eval: Evaluator)
    : Result<seq<ViewItem>, Error>
    decreases defs
  {
    if defs == [] || resps == [] then Ok([])
    else
      var enabled :- Evaluate(defs[0], resolve, eval);
      if enabled then
        var sub :- Project(defs[0].children, resps[0].children, resolve, eval);
        var rest :- Project(defs[1..], resps[1..], resolve, eval);
        Ok([ViewItem(defs[0], resps[0])] + sub + rest)
      else
        Project(defs[1..], resps[1..], resolve, eval)
  }

  /** Stage 1 over the whole state, with the index built once for the pass. */
  function Stage1(questionnaire: seq<DefItem>, response: seq<RespItem>, eval: Evaluator)
    : Result<seq<ViewItem>, Error>
  {
    Project(questionnaire, response, MapResolver(Index(response)), eval)
  }

  /** All lockstep pairs in pre-order, as if every item were enabled. */
  function Zip(defs: seq<DefItem>, resps: seq<RespItem>): seq<ViewItem>
    decreases defs
  {
    if defs == [] || resps == [] then []
    else [ViewItem(defs[0], resps[0])] + Zip(defs[0].children, resps[0].children) + Zip(defs[1..], resps[1..])
  }

  /** Appending a result to a list built so far; an exception discards the list. */
  function Extend(acc: seq<ViewItem>, r: Result<seq<ViewItem>, Error>): Result<seq<ViewItem>, Error>
  {
    match r
    case Ok(v) => Ok(acc + v)
    case Err(e) => Err(e)
  }

  /** Every question read by an enableWhen rule anywhere in a definition forest. */
  ghost function Referenced(defs: seq<DefItem>): set<LinkId>
    decreases defs
  {
    if defs == [] then {}
    else (set w | w in defs[0].enableWhen :: w.question) + Referenced(defs[0].children) + Referenced(defs[1..])
  }

  /** `populateQuestionnaireItemViewItemList`: two iterators advanced together
      while both have a next item; an enabled item is appended to the list and its
      children are walked by a recursive call on the same list. */
  method Populate(list: seq<ViewItem>, defs: seq<DefItem>, resps: seq<RespItem>,
                  index: map<LinkId, RespItem>, eval: Evaluator)
    returns (r: Result<seq<ViewItem>, Error>)
    ensures r == Extend(list, Project(defs, resps, MapResolver(index), eval))
    decreases defs
  {
    ghost var resolve := MapResolver(index);
    var acc := list;
    var i := 0;
    while i < |defs| && i < |resps|
      invariant i <= |defs| && i <= |resps|
      invariant Extend(acc, Project(defs[i..], resps[i..], resolve, eval)) == Extend(list, Project(defs, resps, resolve, eval))
    {
      assert defs[i..][0] == defs[i] && resps[i..][0] == resps[i];
      assert defs[i..][1..] == defs[i + 1..] && resps[i..][1..] == resps[i + 1..];
      ghost var here := Project(defs[i..], resps[i..], resolve, eval);
      ghost var next := Project(defs[i + 1..], resps[i + 1..], resolve, eval);
      var enabled := Evaluate(defs[i], MapResolver(index), eval);
      if enabled.Err? {
        assert here == Err(enabled.error);
        return Err(enabled.error);
      }
      if enabled.value {
        var pair := ViewItem(defs[i], resps[i]);
        ExtendEnabled(acc, defs[i..], resps[i..], resolve, eval);
        var sub := Populate(acc + [pair], defs[i].children, resps[i].children, index, eval);
        if sub.Err? {
          return sub;
        }
        acc := sub.value;
      } else {
        assert here == next;
      }
      i := i + 1;
    }
    assert defs[i..] == [] || resps[i..] == [];
    assert acc + [] == acc;
    return Ok(acc);
  }

  /** Appending stage 1 of a level whose first item is enabled: that item's pair and
      its children's pairs go first, then the siblings' follow, unless the children
      throw. */
  lemma {:induction false} ExtendEnabled(acc: seq<ViewItem>, defs: seq<DefItem>, resps: seq<RespItem>, resolve: Resolver, eval: Evaluator)
    requires defs != [] && resps != [] && Evaluate(defs[0], resolve, eval) == Ok(true)
    ensures var sub := Project(defs[0].children, resps[0].children, resolve, eval);
      var rest := Project(defs[1..], resps[1..], resolve, eval);
      && (sub.Err? ==> Extend(acc, Project(defs, resps, resolve, eval)) == Err(sub.error))
      && (sub.Ok? ==> Extend(acc, Project(defs, resps, resolve, eval)) ==
                      Extend(acc + [ViewItem(defs[0], resps[0])] + sub.value, rest))
  {
    var sub := Project(defs[0].children, resps[0].children, resolve, eval);
    var rest := Project(defs[1..], resps[1..], resolve, eval);
    if sub.Ok? && rest.Ok? {
      var pair := ViewItem(defs[0], resps[0]);
      assert Project(defs, resps, resolve, eval) == Ok([pair] + sub.value + rest.value);
      assert acc + ([pair] + sub.value + rest.value) == acc + [pair] + sub.value + rest.value;
    }
  }

  /** Every pair comes from the same sibling position in both forests, so its
      response node is a node of the response forest and its definition linkId one
      of the definition forest. */
  lemma {:induction false} ZipFromForests(defs: seq<DefItem>, resps: seq<RespItem>)
    ensures forall x :: x in Zip(defs, resps) ==>
      x.responseItem in RespNodes(resps) && x.questionnaireItem.linkId in DefPreorder(defs)
    decreases defs
  {
    if defs != [] && resps != [] {
      ZipFromForests(defs[0].children, resps[0].children);
      ZipFromForests(defs[1..], resps[1..]);
    }
  }

  /** On mirrored forests the lockstep pairs are one per node, in the definition's
      pre-order, each pairing two nodes with the same linkId. */
  lemma {:induction false} ZipMirrored(defs: seq<DefItem>, resps: seq<RespItem>)
    requires Mirrors(defs, resps)
    ensures ViewIds(Zip(defs, resps)) == DefPreorder(defs)
    ensures forall x :: x in Zip(defs, resps) ==> x.responseItem.linkId == x.questionnaireItem.linkId
    decreases defs
  {
    if defs != [] {
      ZipMirrored(defs[0].children, resps[0].children);
      ZipMirrored(defs[1..], resps[1..]);
      var head := [ViewItem(defs[0], resps[0])];
      var sub := Zip(defs[0].children, resps[0].children);
      var rest := Zip(defs[1..], resps[1..]);
      ViewIdsAppend(head + sub, rest);
      ViewIdsAppend(head, sub);
    }
  }

  /** Stage 1 emits lockstep pairs in pre-order: its output is an order-preserving
      sublist of the full lockstep pre-order walk, which never goes past the shorter
      sibling list at any level. */
  lemma {:induction false} ProjectSublistOfZip(defs: seq<DefItem>, resps: seq<RespItem>, resolve: Resolver, eval: Evaluator)
    requires Project(defs, resps, resolve, eval).Ok?
    ensures Sublist(Project(defs, resps, resolve, eval).value, Zip(defs, resps))
    decreases defs
  {
    if defs == [] || resps == [] {
      SublistEmpty<ViewItem>([]);
    } else {
      var head := [ViewItem(defs[0], resps[0])];
      var zsub := Zip(defs[0].children, resps[0].children);
      var zrest := Zip(defs[1..], resps[1..]);
      ProjectSublistOfZip(defs[1..], resps[1..], resolve, eval);
      var rest := Project(defs[1..], resps[1..], resolve, eval).value;
      if Evaluate(defs[0], resolve, eval).value {
        ProjectSublistOfZip(defs[0].children, resps[0].children, resolve, eval);
        var sub := Project(defs[0].children, resps[0].children, resolve, eval).value;
        SublistRefl(head);
        SublistConcat(head, head, sub, zsub);
        SublistConcat(head + sub, head + zsub, rest, zrest);
      } else {
        SublistPrefix(rest, zrest, head + zsub);
      }
    }
  }

  /** Stage 1 emits only items the evaluator enabled. */
  lemma {:induction false} ProjectKeepsEnabled(defs: seq<DefItem>, resps: seq<RespItem>, resolve: Resolver, eval: Evaluator)
    requires Project(defs, resps, resolve, eval).Ok?
    ensures forall x :: x in Project(defs, resps, resolve, eval).value ==>
      Evaluate(x.questionnaireItem, resolve, eval) == Ok(true)
    decreases defs
  {
    if defs != [] && resps != [] {
      ProjectKeepsEnabled(defs[1..], resps[1..], resolve, eval);
      if Evaluate(defs[0], resolve, eval).value {
        ProjectKeepsEnabled(defs[0].children, resps[0].children, resolve, eval);
      }
    }
  }

  /** Extra items past the end of the shorter list are never visited. */
  lemma {:induction false} ProjectStopsAtShorter(defs: seq<DefItem>, resps: seq<RespItem>, resolve: Resolver, eval: Evaluator)
    ensures |defs| <= |resps| ==> Project(defs, resps, resolve, eval) == Project(defs, resps[..|defs|], resolve, eval)
    ensures |resps| <= |defs| ==> Project(defs, resps, resolve, eval) == Project(defs[..|resps|], resps, resolve, eval)
    decreases defs
  {
    if defs != [] && resps != [] {
      ProjectStopsAtShorter(defs[1..], resps[1..], resolve, eval);
      if |defs| <= |resps| {
        assert resps[..|defs|][0] == resps[0] && resps[..|defs|][1..] == resps[1..][..|defs[1..]|];
      }
      if |resps| <= |defs| {
        assert defs[..|resps|][0] == defs[0] && defs[..|resps|][1..] == defs[1..][..|resps[1..]|];
      }
    }
  }

  /** If every item is enabled and every referenced question resolves, stage 1
      emits every lockstep pair. */
  lemma {:induction false} ProjectAllEnabled(defs: seq<DefItem>, resps: seq<RespItem>, resolve: Resolver, eval: Evaluator)
    requires forall d, ns :: eval(d, ns)
    requires forall id :: id in Referenced(defs) ==> resolve(id).Ok?
    ensures Project(defs, resps, resolve, eval) == Ok(Zip(defs, resps))
    decreases defs
  {
    if defs != [] && resps != [] {
      assert Evaluate(defs[0], resolve, eval).Ok?;
      ProjectAllEnabled(defs[0].children, resps[0].children, resolve, eval);
      ProjectAllEnabled(defs[1..], resps[1..], resolve, eval);
    }
  }

  /** With every item enabled, mirrored forests and every enableWhen question
      naming an item of the questionnaire, stage 1 emits one pair per definition
      node, in the definition's pre-order, each pairing equal linkIds. */
  lemma Stage1AllEnabled(questionnaire: seq<DefItem>, response: seq<RespItem>, eval: Evaluator)
    requires forall d, ns :: eval(d, ns)
    requires Mirrors(questionnaire, response)
    requires forall id :: id in Referenced(questionnaire) ==> id in DefPreorder(questionnaire)
    ensures Stage1(questionnaire, response, eval).Ok?
    ensures ViewIds(Stage1(questionnaire, response, eval).value) == DefPreorder(questionnaire)
    ensures forall x :: x in Stage1(questionnaire, response, eval).value ==>
      x.responseItem.linkId == x.questionnaireItem.linkId
  {
    MirrorsSamePreorder(questionnaire, response);
    IndexKeys(response);
    ProjectAllEnabled(questionnaire, response, MapResolver(Index(response)), eval);
    ZipMirrored(questionnaire, response);
  }

  /** Stage 1 emits only linkIds of the definition forest. */
  lemma ProjectIdsWithin(defs: seq<DefItem>, resps: seq<RespItem>, resolve: Resolver, eval: Evaluator)
    requires Project(defs, resps, resolve, eval).Ok?
    ensures forall id :: id in ViewIds(Project(defs, resps, resolve, eval).value) ==> id in DefPreorder(defs)
  {
    var v := Project(defs, resps, resolve, eval).value;
    ProjectSublistOfZip(defs, resps, resolve, eval);
    SublistMembers(v, Zip(defs, resps));
    ZipFromForests(defs, resps);
    forall id | id in ViewIds(v)
      ensures id in DefPreorder(defs)
    {
      var i :| 0 <= i < |v| && ViewIds(v)[i] == id;
      assert v[i] in Zip(defs, resps);
    }
  }

  lemma DistinctSplit<T>(a: seq<T>, b: seq<T>)
    requires Distinct(a + b)
    ensures Distinct(a) && Distinct(b)
    ensures forall x :: x in a ==> x !in b
  {
    forall i, j | 0 <= i < |a| && 0 <= j < |b|
      ensures a[i] != b[j]
    {
      assert (a + b)[i] == a[i] && (a + b)[|a| + j] == b[j];
    }
    forall i, j | 0 <= i < j < |a|
      ensures a[i] != a[j]
    {
      assert (a + b)[i] == a[i] && (a + b)[j] == a[j];
    }
    forall i, j | 0 <= i < j < |b|
      ensures b[i] != b[j]
    {
      assert (a + b)[|a| + i] == b[i] && (a + b)[|a| + j] == b[j];
    }
  }

  /** `path` leads, one sibling index per level, to a node visited in lockstep:
      every index is within both sibling lists. */
  ghost predicate OnPath(defs: seq<DefItem>, resps: seq<RespItem>, path: seq<nat>)
    decreases path
  {
    |path| > 0 && path[0] < |defs| && path[0] < |resps| &&
    (|path| == 1 || OnPath(defs[path[0]].children, resps[path[0]].children, path[1..]))
  }

  /** The definition node at the end of a lockstep path. */
  ghost function NodeAt(defs: seq<DefItem>, resps: seq<RespItem>, path: seq<nat>): DefItem
    requires OnPath(defs, resps, path)
    decreases path
  {
    if |path| == 1 then defs[path[0]]
    else NodeAt(defs[path[0]].children, resps[path[0]].children, path[1..])
  }

  /** The pair stage 1 would form at the end of a lockstep path. */
  ghost function PairAt(defs: seq<DefItem>, resps: seq<RespItem>, path: seq<nat>): ViewItem
    requires OnPath(defs, resps, path)
    decreases path
  {
    if |path| == 1 then ViewItem(defs[path[0]], resps[path[0]])
    else PairAt(defs[path[0]].children, resps[path[0]].children, path[1..])
  }

  /** Every node along a lockstep path, the last one included, evaluates as enabled. */
  ghost predicate PathEnabled(defs: seq<DefItem>, resps: seq<RespItem>, path: seq<nat>, resolve: Resolver, eval: Evaluator)
    requires OnPath(defs, resps, path)
    decreases path
  {
    && Evaluate(defs[path[0]], resolve, eval) == Ok(true)
    && (|path| == 1 || PathEnabled(defs[path[0]].children, resps[path[0]].children, path[1..], resolve, eval))
  }

  /** An item is emitted whenever it and all its ancestors are enabled: each
      enabled item yields its pair and is then descended into. */
  lemma {:induction false} EnabledPathEmitted(defs: seq<DefItem>, resps: seq<RespItem>, resolve: Resolver, eval: Evaluator, path: seq<nat>)
    requires OnPath(defs, resps, path)
    requires PathEnabled(defs, resps, path, resolve, eval)
    requires Project(defs, resps, resolve, eval).Ok?
    ensures PairAt(defs, resps, path) in Project(defs, resps, resolve, eval).value
    decreases defs
  {
    var k := path[0];
    var head := [ViewItem(defs[0], resps[0])];
    var rest := Project(defs[1..], resps[1..], resolve, eval);
    assert rest.Ok?;
    if k > 0 {
      var shifted := [k - 1] + path[1..];
      assert shifted[1..] == path[1..];
      assert OnPath(defs[1..], resps[1..], shifted);
      assert PairAt(defs[1..], resps[1..], shifted) == PairAt(defs, resps, path);
      assert PathEnabled(defs[1..], resps[1..], shifted, resolve, eval);
      EnabledPathEmitted(defs[1..], resps[1..], resolve, eval, shifted);
      if Evaluate(defs[0], resolve, eval).value {
        var sub := Project(defs[0].children, resps[0].children, resolve, eval).value;
        assert Project(defs, resps, resolve, eval).value == head + sub + rest.value;
      }
    } else {
      var sub := Project(defs[0].children, resps[0].children, resolve, eval).value;
      assert Project(defs, resps, resolve, eval).value == head + sub + rest.value;
      if |path| > 1 {
        EnabledPathEmitted(defs[0].children, resps[0].children, resolve, eval, path[1..]);
      }
    }
  }

  /** The linkIds of the subtree at a path occur in the forest's pre-order. */
  lemma {:induction false} SubtreeInPreorder(defs: seq<DefItem>, resps: seq<RespItem>, path: seq<nat>)
    requires OnPath(defs, resps, path)
    ensures forall id :: id in DefPreorder([NodeAt(defs, resps, path)]) ==> id in DefPreorder(defs)
    decreases defs
  {
    var k := path[0];
    assert DefPreorder(defs) == [defs[0].linkId] + DefPreorder(defs[0].children) + DefPreorder(defs[1..]);
    if k > 0 {
      var shifted := [k - 1] + path[1..];
      assert shifted[1..] == path[1..];
      assert OnPath(defs[1..], resps[1..], shifted);
      assert NodeAt(defs[1..], resps[1..], shifted) == NodeAt(defs, resps, path);
      SubtreeInPreorder(defs[1..], resps[1..], shifted);
    } else if |path| == 1 {
      assert [defs[0]][1..] == [];
    } else {
      SubtreeInPreorder(defs[0].children, resps[0].children, path[1..]);
    }
  }

  /** One step of stage 1 on a non-empty level: the linkIds emitted are the head's
      own and its subtree's (when it is enabled), then its siblings'; and every one
      of them comes from the part of the questionnaire it was drawn from. */
  lemma ProjectStep(defs: seq<DefItem>, resps: seq<RespItem>, resolve: Resolver, eval: Evaluator)
    requires defs != [] && resps != []
    requires Project(defs, resps, resolve, eval).Ok?
    ensures var enabled := Evaluate(defs[0], resolve, eval).value;
      var rest := Project(defs[1..], resps[1..], resolve, eval).value;
      && Evaluate(defs[0], resolve, eval).Ok?
      && Project(defs[1..], resps[1..], resolve, eval).Ok?
      && (forall id :: id in ViewIds(rest) ==> id in DefPreorder(defs[1..]))
      && (!enabled ==> ViewIds(Project(defs, resps, resolve, eval).value) == ViewIds(rest))
      && (enabled ==>
            var sub := Project(defs[0].children, resps[0].children, resolve, eval).value;
            && Project(defs[0].children, resps[0].children, resolve, eval).Ok?
            && (forall id :: id in ViewIds(sub) ==> id in DefPreorder(defs[0].children))
            && ViewIds(Project(defs, resps, resolve, eval).value) == [defs[0].linkId] + ViewIds(sub) + ViewIds(rest))
  {
    ProjectIdsWithin(defs[1..], resps[1..], resolve, eval);
    var rest := Project(defs[1..], resps[1..], resolve, eval).value;
    if Evaluate(defs[0], resolve, eval).value {
      ProjectIdsWithin(defs[0].children, resps[0].children, resolve, eval);
      var head := [ViewItem(defs[0], resps[0])];
      var sub := Project(defs[0].children, resps[0].children, resolve, eval).value;
      assert Project(defs, resps, resolve, eval).value == head + sub + rest;
      ViewIdsAppend(head + sub, rest);
      ViewIdsAppend(head, sub);
    }
  }

  /** The linkIds of two lists of view items side by side. */
  lemma ViewIdsAppend(a: seq<ViewItem>, b: seq<ViewItem>)
    ensures ViewIds(a + b) == ViewIds(a) + ViewIds(b)
  {
  }

  /** Hierarchical short-circuit: when a node evaluates as disabled, at whatever
      depth, neither its linkId nor that of any of its descendants appears in
      stage 1's output, whatever the descendants' own rules say. */
  lemma {:induction false} DisabledHidesSubtree(defs: seq<DefItem>, resps: seq<RespItem>, resolve: Resolver, eval: Evaluator, path: seq<nat>)
    requires OnPath(defs, resps, path)
    requires Distinct(DefPreorder(defs))
    requires Evaluate(NodeAt(defs, resps, path), resolve, eval) == Ok(false)
    requires Project(defs, resps, resolve, eval).Ok?
    ensures forall id :: id in DefPreorder([NodeAt(defs, resps, path)]) ==> id !in ViewIds(Project(defs, resps, resolve, eval).value)
    decreases defs
  {
    var k := path[0];
    var hidden := DefPreorder([NodeAt(defs, resps, path)]);
    var front := [defs[0].linkId] + DefPreorder(defs[0].children);
    assert DefPreorder(defs) == front + DefPreorder(defs[1..]);
    DistinctSplit(front, DefPreorder(defs[1..]));
    DistinctSplit([defs[0].linkId], DefPreorder(defs[0].children));
    ProjectStep(defs, resps, resolve, eval);
    var enabled := Evaluate(defs[0], resolve, eval).value;
    if k > 0 {
      var shifted := [k - 1] + path[1..];
      assert shifted[1..] == path[1..];
      assert OnPath(defs[1..], resps[1..], shifted);
      assert NodeAt(defs[1..], resps[1..], shifted) == NodeAt(defs, resps, path);
      SubtreeInPreorder(defs[1..], resps[1..], shifted);
      DisabledHidesSubtree(defs[1..], resps[1..], resolve, eval, shifted);
    } else if |path| == 1 {
      assert NodeAt(defs, resps, path) == defs[0];
      assert [defs[0]][1..] == [] && DefPreorder([defs[0]][1..]) == [];
      assert hidden == front + DefPreorder([defs[0]][1..]);
      assert hidden == front;
    } else {
      SubtreeInPreorder(defs[0].children, resps[0].children, path[1..]);
      if enabled {
        DisabledHidesSubtree(defs[0].children, resps[0].children, resolve, eval, path[1..]);
      }
    }
  }
}
