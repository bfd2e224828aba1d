/**
 * Element ids of the exam form's radio buttons. Each option's label points at
 * its radio through the id, so two options of one question must not share an id.
 */
module OptionIds {
  import opened Filters
  import opened Decimal

  /** The id the form gives option `opt` of question `idx`: `q<idx>_` and the sanitized option text. */
  function RadioId(idx: nat, opt: string): (id: string)
    ensures forall i :: 0 <= i < |id| ==> IsIdChar(id[i])
  {
    "q" + NatToString(idx) + "_" + SanitizeId(opt)
  }

  /**
   * Sanitizing does not keep ids apart: the options "A." and "A)" of one
   * question both get the id `q0_A`, so the label of the second one targets the
   * radio of the first.
   */
  lemma RadioIdsCollide()
    ensures "A." != "A)" && RadioId(0, "A.") == RadioId(0, "A)")
  {
    SanitizeLetterThenMark('.');
    SanitizeLetterThenMark(')');
  }

  lemma SanitizeLetterThenMark(mark: char)
    requires !IsIdChar(mark)
    ensures SanitizeId(['A', mark]) == "A"
  {
    assert ['A', mark][1..] == [mark];
    assert [mark][1..] == [];
    assert Filter([mark], IsIdChar) == [];
    assert Filter(['A', mark], IsIdChar) == "A";
  }

  /** An id built from the option's position: `q<idx>_<choice>`. */
  function PositionalRadioId(idx: nat, choice: nat): (id: string)
    ensures forall i :: 0 <= i < |id| ==> IsIdChar(id[i])
  {
    "q" + NatToString(idx) + "_" + NatToString(choice)
  }

  /** The number of decimal digits at the front of `t`. */
  function LeadingDigits(t: string): nat
  {
    if t == [] || !IsDigit(t[0]) then 0 else 1 + LeadingDigits(t[1..])
  }

  lemma {:induction false} LeadingDigitsBeforeSeparator(x: string, rest: string)
    requires AllDigits(x)
    ensures LeadingDigits(x + "_" + rest) == |x|
  {
    if x != [] {
      assert (x + "_" + rest)[1..] == x[1..] + "_" + rest;
      LeadingDigitsBeforeSeparator(x[1..], rest);
    }
  }

  /** Positional ids never collide: the id determines both the question and the option. */
  lemma PositionalRadioIdInjective(idx: nat, choice: nat, idx': nat, choice': nat)
    ensures PositionalRadioId(idx, choice) == PositionalRadioId(idx', choice') ==> idx == idx' && choice == choice'
  {
    var a, b := NatToString(idx), NatToString(choice);
    var a', b' := NatToString(idx'), NatToString(choice');
    var s, s' := PositionalRadioId(idx, choice), PositionalRadioId(idx', choice');
    if s == s' {
      assert s[1..] == a + "_" + b && s'[1..] == a' + "_" + b';
      LeadingDigitsBeforeSeparator(a, b);
      LeadingDigitsBeforeSeparator(a', b');
      assert |a| == |a'|;
      assert a == s[1..1 + |a|] && a' == s'[1..1 + |a'|];
      assert b == s[2 + |a|..] && b' == s'[2 + |a'|..];
      NatToStringInjective(idx, idx');
      NatToStringInjective(choice, choice');
    }
  }
}
