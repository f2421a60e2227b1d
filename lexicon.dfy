/**
 * The lexicon: rows of (word form, superlemma, lemma) in the order they were
 * loaded, searched for the first row whose word form equals a key.
 */
module Lexicon {
  import opened Wrappers

  /** One row: `WF-Name`, `SL-Name` (lemma, `@`, word-class tag) and `L-Name`. */
  datatype Row = Row(wordForm: string, superlemma: string, lemmaForm: string)

  /** The index of the first row whose word form is `key`, if any row has it. */
  function FirstMatch(lexicon: seq<Row>, key: string): (r: Option<nat>)
    ensures r.None? <==> forall k :: 0 <= k < |lexicon| ==> lexicon[k].wordForm != key
    ensures r.Some? ==> r.value < |lexicon| && lexicon[r.value].wordForm == key
    ensures r.Some? ==> forall j :: 0 <= j < r.value ==> lexicon[j].wordForm != key
    decreases |lexicon|
  {
    if lexicon == [] then None
    else if lexicon[0].wordForm == key then Some(0)
    else match FirstMatch(lexicon[1..], key)
      case None => None
      case Some(k) => Some(k + 1)
  }

  /** The row superlemma and lemma are both read from: the first one whose word form is `key`. */
  function Lookup(lexicon: seq<Row>, key: string): (r: Option<Row>)
    ensures r.None? <==> forall row :: row in lexicon ==> row.wordForm != key
    ensures r.Some? ==> r.value in lexicon && r.value.wordForm == key
  {
    match FirstMatch(lexicon, key)
    case None => None
    case Some(k) => Some(lexicon[k])
  }

  /** Rows before the one found never match, so adding rows after it cannot change the lookup. */
  lemma {:induction false} LookupIgnoresLaterRows(lexicon: seq<Row>, more: seq<Row>, key: string)
    requires Lookup(lexicon, key).Some?
    ensures Lookup(lexicon + more, key) == Lookup(lexicon, key)
  {
    var k := FirstMatch(lexicon, key).value;
    var all := lexicon + more;
    assert all[k] == lexicon[k];
    forall j | 0 <= j < k
      ensures all[j].wordForm != key
    {
      assert all[j] == lexicon[j];
    }
  }
}
