/** Concrete questionnaires worked through, by proof, with a sample evaluator
    whose rules compare a referenced answer with an expected one. */
module Scenarios {
  import opened Questionnaire
  import opened Mirror
  import opened LinkIndex
  import opened Projection
  import opened Refilter

  /** A sample rule semantics: "=" holds when the answer is the expected one,
      "!=" when it is not (an unanswered question included). */
  predicate RuleHolds(w: EnableWhen, n: RespItem)
  {
    if w.operator == "!=" then n.answer != Some(w.answer) else n.answer == Some(w.answer)
  }

  /** A sample evaluator: enabled when every rule holds (so an item without rules is enabled). */
  predicate SampleEval(d: DefItem, nodes: seq<RespItem>)
  {
    forall i :: 0 <= i < |d.enableWhen| && i < |nodes| ==> RuleHolds(d.enableWhen[i], nodes[i])
  }

  // Scenario 1: group "g" holds question "a", enabled when "b" = yes, and
  // question "b", answered no.
  const A1 := DefItem("a", [EnableWhen("b", "=", Answer("yes"))], [])
  const B1 := DefItem("b", [], [])
  const G1 := DefItem("g", [], [A1, B1])
  const RA1 := RespItem("a", None, [])
  const RB1 := RespItem("b", Some(Answer("no")), [])
  const RG1 := RespItem("g", None, [RA1, RB1])

  lemma Scenario1Index()
    ensures "b" in Index([RG1]) && Index([RG1])["b"] == RB1
  {
    assert [RA1, RB1][..1] == [RA1] && [RA1][..0] == [] && [RA1, RB1][..0] == [];
    assert ToMap([RA1]) == map["a" := RA1];
    assert ToMap([RA1, RB1]) == map["a" := RA1, "b" := RB1];
    assert ChildIndex([RA1]) == map[];
    assert ChildIndex([RA1, RB1]) == map[];
    assert Index([RA1, RB1]) == map["a" := RA1, "b" := RB1];
    assert [RG1][..0] == [];
    assert ChildIndex([RG1]) == Index([RA1, RB1]);
  }

  /** How the sample evaluator decides each item of scenario 1 through the index. */
  lemma Scenario1Evaluations()
    ensures Evaluate(A1, MapResolver(Index([RG1])), SampleEval) == Ok(false)
    ensures Evaluate(B1, MapResolver(Index([RG1])), SampleEval) == Ok(true)
    ensures Evaluate(G1, MapResolver(Index([RG1])), SampleEval) == Ok(true)
  {
    var resolve := MapResolver(Index([RG1]));
    Scenario1Index();
    assert resolve("b") == Ok(RB1);
    var w := EnableWhen("b", "=", Answer("yes"));
    assert A1.enableWhen == [w] && [w][1..] == [];
    assert Resolve([w][1..], resolve) == Ok([]);
    assert [RB1] + [] == [RB1];
    assert Resolve(A1.enableWhen, resolve) == Ok([RB1]);
  }

  lemma Scenario1Stage1()
    ensures Stage1([G1], [RG1], SampleEval) == Ok([ViewItem(G1, RG1), ViewItem(B1, RB1)])
  {
    var resolve := MapResolver(Index([RG1]));
    Scenario1Evaluations();
    assert [A1, B1][1..] == [B1] && [RA1, RB1][1..] == [RB1];
    assert [B1][1..] == [] && [RB1][1..] == [] && [G1][1..] == [] && [RG1][1..] == [];
    assert [ViewItem(B1, RB1)] + [] + [] == [ViewItem(B1, RB1)];
    assert Project([B1], [RB1], resolve, SampleEval) == Ok([ViewItem(B1, RB1)]);
    assert Project([A1, B1], [RA1, RB1], resolve, SampleEval) == Ok([ViewItem(B1, RB1)]);
    assert G1.children == [A1, B1] && RG1.children == [RA1, RB1];
    assert Project([G1][1..], [RG1][1..], resolve, SampleEval) == Ok([]);
    assert [ViewItem(G1, RG1)] + [ViewItem(B1, RB1)] + [] == [ViewItem(G1, RG1), ViewItem(B1, RB1)];
    assert Project([G1], [RG1], resolve, SampleEval) == Ok([ViewItem(G1, RG1), ViewItem(B1, RB1)]);
  }

  /** The projection keeps the group and "b" but omits "a", whose rule is not met. */
  lemma RuleNotMetScenario()
    ensures Mirrors([G1], [RG1])
    ensures ViewItems([G1], [RG1], SampleEval) == Ok([ViewItem(G1, RG1), ViewItem(B1, RB1)])
  {
    assert [A1, B1][1..] == [B1] && [RA1, RB1][1..] == [RB1];
    assert [B1][1..] == [] && [RB1][1..] == [];
    assert Mirrors([B1], [RB1]) && Mirrors([A1, B1], [RA1, RB1]);
    Scenario1Stage1();
    var s1 := [ViewItem(G1, RG1), ViewItem(B1, RB1)];
    assert s1[1..] == [ViewItem(B1, RB1)] && s1[1..][1..] == [];
    assert Evaluate(B1, SingleResolver(s1), SampleEval) == Ok(true);
    assert Evaluate(G1, SingleResolver(s1), SampleEval) == Ok(true);
    var tail := s1[1..];
    assert tail[0].questionnaireItem == B1 && s1[0].questionnaireItem == G1;
    assert FilterEnabled(s1, tail[1..], SampleEval) == Ok([]);
    assert [tail[0]] + [] == [ViewItem(B1, RB1)];
    assert FilterEnabled(s1, tail, SampleEval) == Ok([ViewItem(B1, RB1)]);
    assert [s1[0]] + [ViewItem(B1, RB1)] == s1;
    assert FilterEnabled(s1, s1, SampleEval) == Ok(s1);
  }

  // Scenario 2: group "g", enabled when "c" = yes, holds question "b";
  // question "a" is enabled when "b" != yes; "c" is unanswered.
  const B2 := DefItem("b", [], [])
  const G2 := DefItem("g", [EnableWhen("c", "=", Answer("yes"))], [B2])
  const A2 := DefItem("a", [EnableWhen("b", "!=", Answer("yes"))], [])
  const C2 := DefItem("c", [], [])
  const RB2 := RespItem("b", None, [])
  const RG2 := RespItem("g", None, [RB2])
  const RA2 := RespItem("a", None, [])
  const RC2 := RespItem("c", None, [])

  lemma Scenario2Mirror()
    ensures MirrorList([G2, A2, C2]) == [RG2, RA2, RC2]
  {
    assert MirrorList([B2]) == [RB2];
  }

  lemma Scenario2Index()
    ensures "b" in Index([RG2, RA2, RC2]) && Index([RG2, RA2, RC2])["b"] == RB2
    ensures "c" in Index([RG2, RA2, RC2]) && Index([RG2, RA2, RC2])["c"] == RC2
  {
    var r := [RG2, RA2, RC2];
    assert r[..2] == [RG2, RA2] && r[..2][..1] == [RG2] && r[..2][..1][..0] == [];
    assert [RB2][..0] == [];
    assert ToMap([RB2]) == map["b" := RB2];
    assert ChildIndex([RB2]) == map[];
    assert Index([RB2]) == map["b" := RB2];
    assert ChildIndex([RG2]) == map["b" := RB2];
    assert ChildIndex([RG2, RA2]) == map["b" := RB2];
    assert ChildIndex(r) == map["b" := RB2];
    assert ToMap(r)["c"] == RC2;
  }

  /** How the sample evaluator decides each top-level item of scenario 2 through the index. */
  lemma Scenario2Evaluations()
    ensures Evaluate(G2, MapResolver(Index([RG2, RA2, RC2])), SampleEval) == Ok(false)
    ensures Evaluate(A2, MapResolver(Index([RG2, RA2, RC2])), SampleEval) == Ok(true)
    ensures Evaluate(C2, MapResolver(Index([RG2, RA2, RC2])), SampleEval) == Ok(true)
  {
    var resolve := MapResolver(Index([RG2, RA2, RC2]));
    Scenario2Index();
    assert resolve("b") == Ok(RB2) && resolve("c") == Ok(RC2);
    var wc := EnableWhen("c", "=", Answer("yes"));
    var wb := EnableWhen("b", "!=", Answer("yes"));
    assert G2.enableWhen == [wc] && A2.enableWhen == [wb] && [wc][1..] == [] && [wb][1..] == [];
    assert Resolve([wc][1..], resolve) == Ok([]) && Resolve([wb][1..], resolve) == Ok([]);
    assert [RC2] + [] == [RC2] && [RB2] + [] == [RB2];
    assert Resolve(G2.enableWhen, resolve) == Ok([RC2]);
    assert Resolve(A2.enableWhen, resolve) == Ok([RB2]);
  }

  lemma Scenario2Stage1()
    ensures Stage1([G2, A2, C2], [RG2, RA2, RC2], SampleEval) == Ok([ViewItem(A2, RA2), ViewItem(C2, RC2)])
  {
    var resolve := MapResolver(Index([RG2, RA2, RC2]));
    Scenario2Evaluations();
    assert [G2, A2, C2][1..] == [A2, C2] && [RG2, RA2, RC2][1..] == [RA2, RC2];
    assert [A2, C2][1..] == [C2] && [RA2, RC2][1..] == [RC2];
    assert [C2][1..] == [] && [RC2][1..] == [];
    assert [ViewItem(C2, RC2)] + [] + [] == [ViewItem(C2, RC2)];
    assert Project([C2], [RC2], resolve, SampleEval) == Ok([ViewItem(C2, RC2)]);
    assert [ViewItem(A2, RA2)] + [] + [ViewItem(C2, RC2)] == [ViewItem(A2, RA2), ViewItem(C2, RC2)];
    assert Project([A2, C2], [RA2, RC2], resolve, SampleEval) == Ok([ViewItem(A2, RA2), ViewItem(C2, RC2)]);
  }

  /** Stage 1 hides "g" and "b" but shows "a", whose rule reads "b" through the
      index; stage 2 then finds no stage-1 entry for "b" and the whole projection
      fails, although the response was just built from the questionnaire. */
  lemma HiddenReferenceScenario()
    ensures Stage1([G2, A2, C2], MirrorList([G2, A2, C2]), SampleEval).Ok?
    ensures ViewIds(Stage1([G2, A2, C2], MirrorList([G2, A2, C2]), SampleEval).value) == ["a", "c"]
    ensures ViewItems([G2, A2, C2], MirrorList([G2, A2, C2]), SampleEval) == Err(NotSingle("b", 0))
  {
    Scenario2Mirror();
    Scenario2Stage1();
    var s1 := [ViewItem(A2, RA2), ViewItem(C2, RC2)];
    assert ViewIds(s1) == ["a", "c"];
    assert s1[1..] == [ViewItem(C2, RC2)] && s1[1..][1..] == [];
    assert Matches(s1[1..], "b") == [];
    assert Matches(s1, "b") == [];
    assert Resolve(A2.enableWhen, SingleResolver(s1)) == Err(NotSingle("b", 0));
  }
}
