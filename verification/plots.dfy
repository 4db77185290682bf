/** The tick label under each bar of the probability histogram: the
    measured key's characters in reverse order, comma separated, in
    parentheses, so that the first listed digit is EV 0's. */
module Plots {
  import opened Seqs
  import opened EVKnapsack
  import opened Scoring

  /** `", ".join(items)` for one-character items. */
  function Join(items: seq<char>): (r: string)
    ensures items == [] ==> r == []
    ensures items != [] ==> |r| == 3 * |items| - 2
  {
    if |items| <= 1 then items
    else Join(items[..|items| - 1]) + [',', ' ', items[|items| - 1]]
  }

  /** Item `i` sits at position `3i` of the joined string, with the
      separator ", " right after it unless it is the last. */
  lemma {:induction false} JoinAt(items: seq<char>)
    ensures forall i :: 0 <= i < |items| ==> Join(items)[3 * i] == items[i]
    ensures forall i :: 0 <= i < |items| - 1 ==> Join(items)[3 * i + 1] == ',' && Join(items)[3 * i + 2] == ' '
  {
    if |items| > 1 {
      var init := items[..|items| - 1];
      JoinAt(init);
      assert forall i :: 0 <= i < |init| ==> Join(items)[3 * i] == Join(init)[3 * i];
      assert forall i :: 0 <= i < |init| - 1 ==> Join(items)[3 * i + 1] == Join(init)[3 * i + 1];
      assert forall i :: 0 <= i < |init| - 1 ==> Join(items)[3 * i + 2] == Join(init)[3 * i + 2];
    }
  }

  /** `key_to_label`. The label of the empty key is "()"; any other label
      is three characters per key character, and every label is wrapped in
      parentheses. */
  function KeyToLabel(key: string): (text: string)
    ensures key == [] ==> text == "()"
    ensures key != [] ==> |text| == 3 * |key|
    ensures |text| >= 2
    ensures text[0] == '(' && text[|text| - 1] == ')'
  {
    "(" + Join(Reverse(key)) + ")"
  }

  /** Listed digit `i` (at position `3i + 1`) is the key's character
      `|key| - 1 - i`, and the separators between digits are ", ". */
  lemma LabelDigits(key: string)
    ensures forall i :: 0 <= i < |key| ==> 3 * i + 1 < |KeyToLabel(key)| && KeyToLabel(key)[3 * i + 1] == key[|key| - 1 - i]
    ensures forall i :: 0 <= i < |key| - 1 ==> KeyToLabel(key)[3 * i + 2] == ',' && KeyToLabel(key)[3 * i + 3] == ' '
  {
    var joined := Join(Reverse(key));
    var text := KeyToLabel(key);
    assert text == "(" + joined + ")";
    JoinAt(Reverse(key));
    Parenthesised(joined);
    forall i | 0 <= i < |key|
      ensures 3 * i + 1 < |KeyToLabel(key)| && KeyToLabel(key)[3 * i + 1] == key[|key| - 1 - i]
    {
      assert joined[3 * i] == Reverse(key)[i];
    }
  }

  lemma Parenthesised(s: string)
    ensures forall j :: 0 <= j < |s| ==> ("(" + s + ")")[j + 1] == s[j]
  {
  }

  /** Reading the key back from a label: the digits at positions 1, 4, 7,
      ... in reverse order. */
  function LabelToKey(text: string): (key: string)
    ensures |text| > 2 ==> |key| == |text| / 3
  {
    var n := if |text| <= 2 then 0 else |text| / 3;
    Reverse(seq(n, i requires 0 <= i < n => text[3 * i + 1]))
  }

  /** A label determines its key: reading it back gives the key, so
      distinct keys get distinct labels. */
  lemma LabelRoundTrip(key: string)
    ensures LabelToKey(KeyToLabel(key)) == key
  {
    var text := KeyToLabel(key);
    if key == [] {
      assert LabelToKey(text) == Reverse([]);
    } else {
      assert |text| / 3 == |key|;
      var digits := ListedDigits(key);
      assert LabelToKey(text) == Reverse(digits);
      ReverseReverse(key);
    }
  }

  /** The digits a label lists, in order, are the key reversed. */
  lemma ListedDigits(key: string) returns (digits: string)
    ensures |key| <= |KeyToLabel(key)| / 3
    ensures digits == seq(|key|, i requires 0 <= i < |key| => KeyToLabel(key)[3 * i + 1])
    ensures digits == Reverse(key)
  {
    LabelDigits(key);
    var text := KeyToLabel(key);
    digits := seq(|key|, i requires 0 <= i < |key| => text[3 * i + 1]);
  }

  /** The label lists the selection in EV order: listed digit `i` is the
      choice of EV `i` that the scoring reads from the same key. */
  lemma LabelListsSelection(key: Bitstring, ev: EV)
    requires IsBitstring(key)
    ensures var s := BitstringToSelectionChoices(key, ev);
      forall i :: 0 <= i < |s| ==> 3 * i + 1 < |KeyToLabel(key)| && (s[i] == 1 <==> KeyToLabel(key)[3 * i + 1] == '1')
  {
    LabelDigits(key);
  }
}
