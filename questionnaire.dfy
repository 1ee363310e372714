/** The value types of a questionnaire and its response, with the pre-order
    traversals and sequence relations the rest of the model is stated in. */
module Questionnaire {

  type LinkId = string

  datatype Option<+T> = None | Some(value: T)

  /** Success or failure of an operation that the source lets throw. */
  datatype Result<+T, +E> = Ok(value: T) | Err(error: E) {
    predicate IsFailure() { Err? }
    function PropagateFailure<U>(): Result<U, E> requires Err? { Err(error) }
    function Extract(): T requires Ok? { value }
  }

  /** The exceptions a resolver throws when a referenced linkId cannot be read. */
  datatype Error =
    | MissingLinkId(linkId: LinkId)              // `map[linkId]!!` on an absent key
    | NotSingle(linkId: LinkId, matches: nat)    // `single { ... }` with zero or several matches

  /** An answer value; the core never looks inside it. */
  datatype Answer = Answer(value: string)

  /** One enableWhen rule: the question it reads and the (opaque) condition on it. */
  datatype EnableWhen = EnableWhen(question: LinkId, operator: string, answer: Answer)

  /** Questionnaire.Item: immutable definition node. */
  datatype DefItem = DefItem(linkId: LinkId, enableWhen: seq<EnableWhen>, children: seq<DefItem>)

  /** QuestionnaireResponse.Item: response node mirroring a definition node. */
  datatype RespItem = RespItem(linkId: LinkId, answer: Option<Answer>, children: seq<RespItem>)

  /** QuestionnaireItemViewItem: a (definition, response) pair handed to the presentation layer. */
  datatype ViewItem = ViewItem(questionnaireItem: DefItem, responseItem: RespItem)

  /** Pre-order linkIds of a definition forest. */
  function DefPreorder(ds: seq<DefItem>): seq<LinkId>
  {
    if ds == [] then [] else [ds[0].linkId] + DefPreorder(ds[0].children) + DefPreorder(ds[1..])
  }

  /** Pre-order nodes of a response forest. */
  function RespNodes(rs: seq<RespItem>): seq<RespItem>
  {
    if rs == [] then [] else [rs[0]] + RespNodes(rs[0].children) + RespNodes(rs[1..])
  }

  /** Pre-order linkIds of a response forest. */
  function RespPreorder(rs: seq<RespItem>): seq<LinkId>
  {
    if rs == [] then [] else [rs[0].linkId] + RespPreorder(rs[0].children) + RespPreorder(rs[1..])
  }

  /** The definition linkIds of a list of view items, in order. */
  function ViewIds(vs: seq<ViewItem>): (ids: seq<LinkId>)
    ensures |ids| == |vs|
  {
    seq(|vs|, i requires 0 <= i < |vs| => vs[i].questionnaireItem.linkId)
  }

  predicate Distinct<T(==)>(s: seq<T>)
  {
    forall i, j :: 0 <= i < j < |s| ==> s[i] != s[j]
  }

  /** `sub` is obtained from `s` by deleting elements, keeping the order of the rest. */
  predicate Sublist<T(==)>(sub: seq<T>, s: seq<T>)
    decreases |s|
  {
    if s == [] then sub == []
    else (sub != [] && sub[0] == s[0] && Sublist(sub[1..], s[1..])) || Sublist(sub, s[1..])
  }

  lemma {:induction false} RespPreorderIsNodeIds(rs: seq<RespItem>)
    ensures |RespNodes(rs)| == |RespPreorder(rs)|
    ensures forall i :: 0 <= i < |RespNodes(rs)| ==> RespNodes(rs)[i].linkId == RespPreorder(rs)[i]
    decreases rs
  {
    if rs != [] {
      RespPreorderIsNodeIds(rs[0].children);
      RespPreorderIsNodeIds(rs[1..]);
    }
  }

  lemma {:induction false} SublistRefl<T>(s: seq<T>)
    ensures Sublist(s, s)
    decreases |s|
  {
    if s != [] {
      SublistRefl(s[1..]);
    }
  }

  lemma {:induction false} SublistEmpty<T>(s: seq<T>)
    ensures Sublist([], s)
    decreases |s|
  {
    if s != [] {
      SublistEmpty(s[1..]);
    }
  }

  /** Sublists are closed under concatenation on both sides. */
  lemma {:induction false} SublistConcat<T>(a: seq<T>, b: seq<T>, c: seq<T>, d: seq<T>)
    requires Sublist(a, b) && Sublist(c, d)
    ensures Sublist(a + c, b + d)
    decreases |b|
  {
    if b == [] {
      assert a == [];
      assert a + c == c && b + d == d;
    } else {
      assert (b + d)[1..] == b[1..] + d;
      if a != [] && a[0] == b[0] && Sublist(a[1..], b[1..]) {
        SublistConcat(a[1..], b[1..], c, d);
        assert (a + c)[1..] == a[1..] + c;
      } else {
        SublistConcat(a, b[1..], c, d);
      }
    }
  }

  /** Prepending elements to the larger list keeps a sublist a sublist. */
  lemma {:induction false} SublistPrefix<T>(a: seq<T>, b: seq<T>, p: seq<T>)
    requires Sublist(a, b)
    ensures Sublist(a, p + b)
    decreases |p|
  {
    if p == [] {
      assert p + b == b;
    } else {
      SublistPrefix(a, b, p[1..]);
      assert (p + b)[1..] == p[1..] + b;
    }
  }

  /** Every element of a sublist is an element of the list. */
  lemma {:induction false} SublistMembers<T>(sub: seq<T>, s: seq<T>)
    requires Sublist(sub, s)
    ensures forall x :: x in sub ==> x in s
    decreases |s|
  {
    if s != [] {
      if sub != [] && sub[0] == s[0] && Sublist(sub[1..], s[1..]) {
        SublistMembers(sub[1..], s[1..]);
        assert sub == [sub[0]] + sub[1..];
      } else {
        SublistMembers(sub, s[1..]);
      }
    }
  }

  /** A sublist of a list without repeated linkIds has none either. */
  lemma {:induction false} SublistDistinctIds(sub: seq<ViewItem>, s: seq<ViewItem>)
    requires Sublist(sub, s) && Distinct(ViewIds(s))
    ensures Distinct(ViewIds(sub))
    ensures forall id :: id in ViewIds(sub) ==> id in ViewIds(s)
    decreases |s|
  {
    if s != [] {
      assert ViewIds(s)[1..] == ViewIds(s[1..]);
      if sub != [] && sub[0] == s[0] && Sublist(sub[1..], s[1..]) {
        SublistDistinctIds(sub[1..], s[1..]);
        var head := s[0].questionnaireItem.linkId;
        assert ViewIds(sub) == [head] + ViewIds(sub[1..]);
        assert ViewIds(s) == [head] + ViewIds(s[1..]);
        forall k | 0 <= k < |s| - 1
          ensures ViewIds(s[1..])[k] != head
        {
          assert ViewIds(s)[0] == head && ViewIds(s)[k + 1] == ViewIds(s[1..])[k];
        }
        assert head !in ViewIds(sub[1..]);
      } else {
        SublistDistinctIds(sub, s[1..]);
      }
    }
  }
}
