/** `QuestionnaireViewModel`: the questionnaire, the response built from it, the
    modification counter, and the projection recomputed from that state. */
module ViewModel {
  import opened Questionnaire
  import opened Mirror
  import opened LinkIndex
  import opened Projection
  import opened Refilter

  class QuestionnaireViewModel {
    /** The parsed questionnaire's top-level items. */
    var questionnaire: seq<DefItem>
    /** The top-level items of the response being filled in. */
    var questionnaireResponse: seq<RespItem>
    /** Bumped by `notifyChangeCallback`; the signal to recompute the projection. */
    var modificationCount: nat

    /** The response mirrors the questionnaire's structure. */
    ghost predicate Valid()
      reads this
    {
      Mirrors(questionnaire, questionnaireResponse)
    }

    /** `init`: one mirrored response item per questionnaire item, added in order. */
    constructor (questionnaire: seq<DefItem>)
      ensures this.questionnaire == questionnaire
      ensures questionnaireResponse == MirrorList(questionnaire)
      ensures modificationCount == 0
      ensures Valid()
      ensures Unanswered(questionnaireResponse)
      ensures RespPreorder(questionnaireResponse) == DefPreorder(questionnaire)
    {
      var items: seq<RespItem> := [];
      for i := 0 to |questionnaire|
        invariant items == MirrorList(questionnaire[..i])
      {
        items := items + [MirrorItem(questionnaire[i])];
      }
      assert questionnaire[..|questionnaire|] == questionnaire;
      this.questionnaire := questionnaire;
      questionnaireResponse := items;
      modificationCount := 0;
      new;
      MirrorListMirrors(questionnaire);
      MirrorListUnanswered(questionnaire);
      MirrorListPreorder(questionnaire);
    }

    /** `notifyChangeCallback`: the counter goes up by exactly one; nothing else changes. */
    method NotifyChange()
      requires Valid()
      modifies this`modificationCount
      ensures Valid()
      ensures modificationCount == old(modificationCount) + 1
      ensures modificationCount > old(modificationCount)
    {
      modificationCount := modificationCount + 1;
    }

    /** `getQuestionnaireItemViewItemList`: build the index once, compute stage 1 into a
        fresh list, then filter that list with the stage-2 resolver. The result is a
        function of the current questionnaire and response only. Since the response
        mirrors the questionnaire, every pair joins a questionnaire item and the
        response item with the same linkId. */
    method GetQuestionnaireItemViewItemList(eval: Evaluator) returns (r: Result<seq<ViewItem>, Error>)
      requires Valid()
      ensures r == ViewItems(questionnaire, questionnaireResponse, eval)
      ensures r.Ok? ==> forall x :: x in r.value ==>
        x.responseItem.linkId == x.questionnaireItem.linkId && x.questionnaireItem.linkId in DefPreorder(questionnaire)
    {
      var index := BuildMap(questionnaireResponse);
      var stage1 := Populate([], questionnaire, questionnaireResponse, index, eval);
      ghost var spec := Stage1(questionnaire, questionnaireResponse, eval);
      assert stage1 == Extend([], spec);
      if stage1.Err? {
        assert spec.Err? && spec.error == stage1.error;
        return Err(stage1.error);
      }
      assert [] + spec.value == spec.value;
      r := Stage2(stage1.value, eval);
      if r.Ok? {
        ghost var zip := Zip(questionnaire, questionnaireResponse);
        ViewItemsSublist(questionnaire, questionnaireResponse, eval);
        SublistMembers(r.value, zip);
        ZipMirrored(questionnaire, questionnaireResponse);
        ZipFromForests(questionnaire, questionnaireResponse);
      }
    }
  }
}
