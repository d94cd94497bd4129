/**
 The five answer options shown with every question, in their fixed order,
 and the score a chosen option records: its position in the list plus one.
 */
module Likert {

  const OPTIONS: seq<string> := [
    "Helemaal niet mee eens",
    "Mee oneens",
    "Neutraal",
    "Mee eens",
    "Helemaal mee eens"
  ]

  /** Position of the first occurrence of `x` in `s` (Python's `list.index`). */
  function IndexOf(s: seq<string>, x: string): (i: nat)
    requires x in s
    ensures i < |s| && s[i] == x
    ensures forall j :: 0 <= j < i ==> s[j] != x
  {
    if s[0] == x then 0 else 1 + IndexOf(s[1..], x)
  }

  /** The score recorded for a chosen option: 1 for full disagreement up to 5 for full agreement. */
  function AnswerValue(choice: string): (v: int)
    requires choice in OPTIONS
    ensures 1 <= v <= |OPTIONS| == 5
    ensures OPTIONS[v - 1] == choice
  {
    IndexOf(OPTIONS, choice) + 1
  }

  /** The option labels are pairwise different, so each option has its own score. */
  lemma OptionsDistinct()
    ensures forall i, j :: 0 <= i < j < |OPTIONS| ==> OPTIONS[i] != OPTIONS[j]
  {
  }

  /** Choosing the option at position `k` records exactly `k + 1`. */
  lemma AnswerValueOfPosition(k: nat)
    requires k < |OPTIONS|
    ensures AnswerValue(OPTIONS[k]) == k + 1
  {
    OptionsDistinct();
  }

  /** Every score in `scores` is one an option can record: 1 to 5. */
  predicate ValidScores(scores: seq<int>) {
    forall i :: 0 <= i < |scores| ==> 1 <= scores[i] <= 5
  }

  /** The scores of a sequence of chosen options, in order. */
  function AnswerValues(choices: seq<string>): (vs: seq<int>)
    requires forall i :: 0 <= i < |choices| ==> choices[i] in OPTIONS
    ensures |vs| == |choices|
    ensures forall i :: 0 <= i < |vs| ==> vs[i] == AnswerValue(choices[i])
    ensures ValidScores(vs)
  {
    if choices == [] then [] else [AnswerValue(choices[0])] + AnswerValues(choices[1..])
  }
}
