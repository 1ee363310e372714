/** Stage 2 of the view-item projection: the `filter` in
    `getQuestionnaireItemViewItemList`, whose resolver searches only the stage-1
    list with `single`. */
module Refilter {
  import opened Questionnaire
  import opened Mirror
  import opened LinkIndex
  import opened Projection

  /** The positions of the entries whose definition linkId is `id`. */
  function Carriers(list: seq<ViewItem>, id: LinkId): set<int>
  {
    set i | 0 <= i < |list| && list[i].questionnaireItem.linkId == id
  }

  /** The response items of the entries whose definition linkId is `id`, in list order. */
  function Matches(list: seq<ViewItem>, id: LinkId): (ms: seq<RespItem>)
    ensures |ms| <= |list|
    ensures forall x :: x in ms ==>
      exists i :: 0 <= i < |list| && list[i].questionnaireItem.linkId == id && list[i].responseItem == x
    ensures id !in ViewIds(list) ==> ms == []
  {
    if list == [] then []
    else
      assert ViewIds(list) == [list[0].questionnaireItem.linkId] + ViewIds(list[1..]);
      (if list[0].questionnaireItem.linkId == id then [list[0].responseItem] else []) + Matches(list[1..], id)
  }

  /** `list.single { it.questionnaireItem.linkId.value == linkId }.questionnaireResponseItemBuilder`:
      the one matching entry's response item; no match or several throw. */
  function Single(list: seq<ViewItem>, id: LinkId): (r: Result<RespItem, Error>)
    ensures r.Ok? <==> |Matches(list, id)| == 1
    ensures r.Ok? ==>
      exists i :: 0 <= i < |list| && list[i].questionnaireItem.linkId == id && list[i].responseItem == r.value
    ensures r.Err? ==> r.error == NotSingle(id, |Matches(list, id)|)
  {
    var ms := Matches(list, id);
    if |ms| == 1 then assert ms[0] in ms; Ok(ms[0]) else Err(NotSingle(id, |ms|))
  }

  /** The stage-2 resolver, closed over the stage-1 list. */
  function SingleResolver(list: seq<ViewItem>): Resolver
  {
    (id: LinkId) => Single(list, id)
  }

  /** `filter` of `pending`, left to right, evaluating each entry with the resolver
      over `all`; the first exception aborts the filter. */
  function FilterEnabled(all: seq<ViewItem>, pending: seq<ViewItem>, eval: Evaluator): Result<seq<ViewItem>, Error>
  {
    if pending == [] then Ok([])
    else
      var keep :- Evaluate(pending[0].questionnaireItem, SingleResolver(all), eval);
      var rest :- FilterEnabled(all, pending[1..], eval);
      Ok(if keep then [pending[0]] + rest else rest)
  }

  /** Stage 2 applied to the stage-1 list. */
  function Stage2(list: seq<ViewItem>, eval: Evaluator): Result<seq<ViewItem>, Error>
  {
    FilterEnabled(list, list, eval)
  }

  /** What `getQuestionnaireItemViewItemList` returns for the current state. */
  function ViewItems(questionnaire: seq<DefItem>, response: seq<RespItem>, eval: Evaluator)
    : Result<seq<ViewItem>, Error>
  {
    var stage1 :- Stage1(questionnaire, response, eval);
    Stage2(stage1, eval)
  }

  /** With no repeated linkId in the list, `single` finds each entry by its linkId. */
  lemma {:induction false} SingleFindsUnique(list: seq<ViewItem>, k: nat)
    requires Distinct(ViewIds(list)) && k < |list|
    ensures Single(list, list[k].questionnaireItem.linkId) == Ok(list[k].responseItem)
    decreases k
  {
    var id := list[k].questionnaireItem.linkId;
    assert ViewIds(list) == [list[0].questionnaireItem.linkId] + ViewIds(list[1..]);
    assert Distinct(ViewIds(list[1..])) by {
      forall i, j | 0 <= i < j < |list| - 1
        ensures ViewIds(list[1..])[i] != ViewIds(list[1..])[j]
      {
        assert ViewIds(list)[i + 1] == ViewIds(list[1..])[i];
        assert ViewIds(list)[j + 1] == ViewIds(list[1..])[j];
      }
    }
    if k == 0 {
      forall j | 0 <= j < |list| - 1
        ensures ViewIds(list[1..])[j] != id
      {
        assert ViewIds(list)[0] == id && ViewIds(list)[j + 1] == ViewIds(list[1..])[j];
      }
      assert Matches(list[1..], id) == [];
    } else {
      SingleFindsUnique(list[1..], k - 1);
      assert list[1..][k - 1] == list[k];
      assert ViewIds(list)[0] != ViewIds(list)[k];
    }
  }

  /** Two entries with the same linkId make `single` throw for that linkId. */
  lemma {:induction false} SingleRejectsDuplicates(list: seq<ViewItem>, i: nat, j: nat)
    requires i < j < |list|
    requires list[i].questionnaireItem.linkId == list[j].questionnaireItem.linkId
    ensures Single(list, list[i].questionnaireItem.linkId).Err?
    decreases i
  {
    var id := list[i].questionnaireItem.linkId;
    MatchesSeesEntry(list[1..], j - 1, id);
    if i > 0 {
      SingleRejectsDuplicates(list[1..], i - 1, j - 1);
    }
  }

  lemma {:induction false} MatchesSeesEntry(list: seq<ViewItem>, k: nat, id: LinkId)
    requires k < |list| && list[k].questionnaireItem.linkId == id
    ensures |Matches(list, id)| >= 1
    decreases k
  {
    if k > 0 {
      MatchesSeesEntry(list[1..], k - 1, id);
    }
  }

  /** `single`'s predicate selects one response item per entry carrying the linkId,
      counted from position `k` on. */
  lemma {:induction false} MatchesCountFrom(list: seq<ViewItem>, id: LinkId, k: nat)
    requires k <= |list|
    ensures |Matches(list[k..], id)| == |set i | k <= i < |list| && list[i].questionnaireItem.linkId == id|
    decreases |list| - k
  {
    var here := set i | k <= i < |list| && list[i].questionnaireItem.linkId == id;
    if k == |list| {
      assert list[k..] == [];
      assert here == {};
    } else {
      MatchesCountFrom(list, id, k + 1);
      assert list[k..][0] == list[k] && list[k..][1..] == list[k + 1..];
      var next := set i | k + 1 <= i < |list| && list[i].questionnaireItem.linkId == id;
      assert here == (if list[k].questionnaireItem.linkId == id then {k} else {}) + next;
      assert k !in next;
    }
  }

  /** `single` sees exactly as many matches as there are entries carrying the
      linkId, so it succeeds iff exactly one entry carries it. */
  lemma MatchesCount(list: seq<ViewItem>, id: LinkId)
    ensures |Matches(list, id)| == |Carriers(list, id)|
    ensures Single(list, id).Ok? <==> |Carriers(list, id)| == 1
  {
    MatchesCountFrom(list, id, 0);
    assert list[0..] == list;
    assert Carriers(list, id) == set i | 0 <= i < |list| && list[i].questionnaireItem.linkId == id;
  }

  /** Resolving the same rules through two resolvers that agree on their questions
      gives the same outcome. */
  lemma {:induction false} ResolveAgrees(rules: seq<EnableWhen>, r1: Resolver, r2: Resolver)
    requires forall w :: w in rules ==> r1(w.question) == r2(w.question)
    ensures Resolve(rules, r1) == Resolve(rules, r2)
    decreases |rules|
  {
    if rules != [] {
      assert rules[0] in rules;
      ResolveAgrees(rules[1..], r1, r2);
    }
  }

  /** The positions of `pending` whose entry the evaluator enables, resolving
      through `single` over `all`. */
  function EnabledPositions(all: seq<ViewItem>, pending: seq<ViewItem>, eval: Evaluator): set<int>
  {
    set i | 0 <= i < |pending| && Evaluate(pending[i].questionnaireItem, SingleResolver(all), eval) == Ok(true)
  }

  /** A completed filter of `pending[k..]` keeps one entry per enabled position
      from `k` on. */
  lemma {:induction false} FilterCountFrom(all: seq<ViewItem>, pending: seq<ViewItem>, eval: Evaluator, k: nat)
    requires k <= |pending|
    requires FilterEnabled(all, pending[k..], eval).Ok?
    ensures |FilterEnabled(all, pending[k..], eval).value| ==
      |set i | k <= i < |pending| && Evaluate(pending[i].questionnaireItem, SingleResolver(all), eval) == Ok(true)|
    decreases |pending| - k
  {
    var resolve := SingleResolver(all);
    var here := set i | k <= i < |pending| && Evaluate(pending[i].questionnaireItem, resolve, eval) == Ok(true);
    if k == |pending| {
      assert pending[k..] == [];
      assert here == {};
    } else {
      assert pending[k..][0] == pending[k] && pending[k..][1..] == pending[k + 1..];
      var first := Evaluate(pending[k].questionnaireItem, resolve, eval);
      assert first.Ok? && FilterEnabled(all, pending[k + 1..], eval).Ok?;
      FilterCountFrom(all, pending, eval, k + 1);
      var next := set i | k + 1 <= i < |pending| && Evaluate(pending[i].questionnaireItem, resolve, eval) == Ok(true);
      assert here == (if first.value then {k} else {}) + next;
      assert k !in next;
    }
  }

  /** A completed filter keeps exactly as many entries as there are enabled positions. */
  lemma FilterCount(all: seq<ViewItem>, pending: seq<ViewItem>, eval: Evaluator)
    requires FilterEnabled(all, pending, eval).Ok?
    ensures |FilterEnabled(all, pending, eval).value| == |EnabledPositions(all, pending, eval)|
  {
    assert pending[0..] == pending;
    FilterCountFrom(all, pending, eval, 0);
  }

  /** The stage-2 filter fails exactly when some entry's evaluation throws. */
  lemma {:induction false} FilterFails(all: seq<ViewItem>, pending: seq<ViewItem>, eval: Evaluator)
    ensures FilterEnabled(all, pending, eval).Err? <==>
      exists x :: x in pending && Evaluate(x.questionnaireItem, SingleResolver(all), eval).Err?
    decreases |pending|
  {
    if pending != [] {
      FilterFails(all, pending[1..], eval);
      assert forall x :: x in pending <==> x == pending[0] || x in pending[1..];
    }
  }

  /** A stage-2 filter that completes keeps an order-preserving sublist of its
      input, holding exactly the entries the evaluator enables, one for each
      enabled position (so equal entries are all kept or all dropped). */
  lemma {:induction false} FilterKeeps(all: seq<ViewItem>, pending: seq<ViewItem>, eval: Evaluator)
    requires FilterEnabled(all, pending, eval).Ok?
    ensures var kept := FilterEnabled(all, pending, eval).value;
      && Sublist(kept, pending)
      && |kept| == |EnabledPositions(all, pending, eval)|
      && (forall x :: x in pending ==>
            (x in kept <==> Evaluate(x.questionnaireItem, SingleResolver(all), eval) == Ok(true)))
    decreases |pending|
  {
    FilterCount(all, pending, eval);
    if pending == [] {
      SublistEmpty<ViewItem>([]);
    } else {
      var first := Evaluate(pending[0].questionnaireItem, SingleResolver(all), eval);
      var rest := FilterEnabled(all, pending[1..], eval);
      assert first.Ok? && rest.Ok?;
      FilterKeeps(all, pending[1..], eval);
      assert forall x :: x in pending <==> x == pending[0] || x in pending[1..];
      var kept := FilterEnabled(all, pending, eval).value;
      if first.value {
        assert kept == [pending[0]] + rest.value;
        assert kept[1..] == rest.value;
      } else {
        assert kept == rest.value;
        // an entry equal to pending[0] evaluates like it, so it is dropped everywhere
        SublistMembers(rest.value, pending[1..]);
      }
    }
  }

  /** The stage-2 filter keeps an order-preserving sublist of its input; it keeps
      exactly the entries the evaluator enables (an entry is kept if and only if it
      evaluates to true), once for each position where it does; and it fails
      exactly when some entry's evaluation throws. */
  lemma FilterSublist(all: seq<ViewItem>, pending: seq<ViewItem>, eval: Evaluator)
    ensures FilterEnabled(all, pending, eval).Err? <==>
      exists x :: x in pending && Evaluate(x.questionnaireItem, SingleResolver(all), eval).Err?
    ensures FilterEnabled(all, pending, eval).Ok? ==>
      var kept := FilterEnabled(all, pending, eval).value;
      && Sublist(kept, pending)
      && |kept| == |EnabledPositions(all, pending, eval)|
      && (forall x :: x in pending ==>
            (x in kept <==> Evaluate(x.questionnaireItem, SingleResolver(all), eval) == Ok(true)))
  {
    FilterFails(all, pending, eval);
    if FilterEnabled(all, pending, eval).Ok? {
      FilterKeeps(all, pending, eval);
    }
  }

  /** If every entry evaluates to true, stage 2 returns its input unchanged. */
  lemma {:induction false} FilterKeepsAll(all: seq<ViewItem>, pending: seq<ViewItem>, eval: Evaluator)
    requires forall x :: x in pending ==> Evaluate(x.questionnaireItem, SingleResolver(all), eval) == Ok(true)
    ensures FilterEnabled(all, pending, eval) == Ok(pending)
    decreases |pending|
  {
    if pending != [] {
      var resolve := SingleResolver(all);
      assert pending[0] in pending;
      assert Evaluate(pending[0].questionnaireItem, resolve, eval) == Ok(true);
      assert forall x :: x in pending[1..] ==> x in pending;
      FilterKeepsAll(all, pending[1..], eval);
      assert FilterEnabled(all, pending, eval) == Ok([pending[0]] + pending[1..]);
      assert [pending[0]] + pending[1..] == pending;
    }
  }

  /** Stage 2 fails when a stage-1 entry's rule reads a question that no stage-1
      entry carries (for example one hidden in stage 1), although the same question
      resolves in stage 1: `single` finds no match. */
  lemma Stage2RejectsHiddenReference(list: seq<ViewItem>, eval: Evaluator, k: nat, w: EnableWhen)
    requires k < |list| && w in list[k].questionnaireItem.enableWhen
    requires w.question !in ViewIds(list)
    ensures Stage2(list, eval).Err?
  {
    assert Single(list, w.question).Err?;
    assert Evaluate(list[k].questionnaireItem, SingleResolver(list), eval).Err?;
    FilterSublist(list, list, eval);
  }

  /** The stage-2 result is an order-preserving sublist of stage 1, hence of the
      lockstep pre-order walk. */
  lemma ViewItemsSublist(questionnaire: seq<DefItem>, response: seq<RespItem>, eval: Evaluator)
    requires ViewItems(questionnaire, response, eval).Ok?
    ensures Stage1(questionnaire, response, eval).Ok?
    ensures Sublist(ViewItems(questionnaire, response, eval).value, Stage1(questionnaire, response, eval).value)
    ensures Sublist(ViewItems(questionnaire, response, eval).value, Zip(questionnaire, response))
  {
    var s1 := Stage1(questionnaire, response, eval).value;
    FilterSublist(s1, s1, eval);
    ProjectSublistOfZip(questionnaire, response, MapResolver(Index(response)), eval);
    SublistTrans(ViewItems(questionnaire, response, eval).value, s1, Zip(questionnaire, response));
  }

  lemma {:induction false} SublistTrans<T>(a: seq<T>, b: seq<T>, c: seq<T>)
    requires Sublist(a, b) && Sublist(b, c)
    ensures Sublist(a, c)
    decreases |c|
  {
    if c == [] {
    } else if b != [] && b[0] == c[0] && Sublist(b[1..], c[1..]) {
      if a != [] && a[0] == b[0] && Sublist(a[1..], b[1..]) {
        SublistTrans(a[1..], b[1..], c[1..]);
      } else {
        SublistTrans(a, b[1..], c[1..]);
      }
    } else {
      SublistTrans(a, b, c[1..]);
    }
  }

  /** On mirrored forests with unique linkIds, the stage-2 resolver and the stage-1
      index agree on every linkId stage 1 shows. */
  lemma VisibleResolvesAlike(questionnaire: seq<DefItem>, response: seq<RespItem>, eval: Evaluator)
    requires Mirrors(questionnaire, response)
    requires Distinct(DefPreorder(questionnaire))
    requires Stage1(questionnaire, response, eval).Ok?
    ensures Distinct(ViewIds(Stage1(questionnaire, response, eval).value))
    ensures forall id :: id in ViewIds(Stage1(questionnaire, response, eval).value) ==>
      SingleResolver(Stage1(questionnaire, response, eval).value)(id) == MapResolver(Index(response))(id)
  {
    var resolve := MapResolver(Index(response));
    var v := Stage1(questionnaire, response, eval).value;
    var zip := Zip(questionnaire, response);
    ProjectSublistOfZip(questionnaire, response, resolve, eval);
    ZipMirrored(questionnaire, response);
    ZipFromForests(questionnaire, response);
    SublistMembers(v, zip);
    SublistDistinctIds(v, zip);
    MirrorsSamePreorder(questionnaire, response);
    forall id | id in ViewIds(v)
      ensures SingleResolver(v)(id) == resolve(id)
    {
      var j :| 0 <= j < |v| && ViewIds(v)[j] == id;
      assert v[j] in zip;
      IndexFindsNode(response, v[j].responseItem);
      SingleFindsUnique(v, j);
    }
  }

  /** On mirrored forests with unique linkIds, when every question read by a
      visible item is itself visible, the stage-2 resolver returns exactly what the
      stage-1 index returns, so stage 2 keeps the whole stage-1 list. */
  lemma Stage2AgreesWithStage1(questionnaire: seq<DefItem>, response: seq<RespItem>, eval: Evaluator)
    requires Mirrors(questionnaire, response)
    requires Distinct(DefPreorder(questionnaire))
    requires Stage1(questionnaire, response, eval).Ok?
    requires forall x, w :: x in Stage1(questionnaire, response, eval).value && w in x.questionnaireItem.enableWhen ==>
      w.question in ViewIds(Stage1(questionnaire, response, eval).value)
    ensures Stage2(Stage1(questionnaire, response, eval).value, eval) == Ok(Stage1(questionnaire, response, eval).value)
    ensures ViewItems(questionnaire, response, eval) == Stage1(questionnaire, response, eval)
  {
    var resolve := MapResolver(Index(response));
    var v := Stage1(questionnaire, response, eval).value;
    VisibleResolvesAlike(questionnaire, response, eval);
    ProjectKeepsEnabled(questionnaire, response, resolve, eval);
    forall x | x in v
      ensures Evaluate(x.questionnaireItem, SingleResolver(v), eval) == Ok(true)
    {
      ResolveAgrees(x.questionnaireItem.enableWhen, SingleResolver(v), resolve);
    }
    FilterKeepsAll(v, v, eval);
  }
}
