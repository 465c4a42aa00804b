/**
 * `useWhereOrIncreaseSpecificity`: bringing every item rule to one
 * specificity so that, inside one ruleset, rule order alone decides which
 * declaration wins.
 */
module Equalize {
  import opened Text
  import opened Selectors
  import opened Structural

  /** The plugin option `target`; any value other than `'legacy'` behaves as `'modern'`. */
  datatype Target = Modern | Legacy

  /** `selector` followed by `count` copies of `:nth-child(n)`. */
  function Pad(selector: Selector, count: nat): (s: Selector)
    ensures Render(s) == Render(selector) + Repeat(":nth-child(n)", count)
    ensures Specificity(s) == Specificity(selector) + count
    ensures WellFormed(selector) ==> WellFormed(s)
    ensures IsCompound(selector) ==> IsCompound(s)
  {
    if count == 0 then selector
    else
      var shorter := Pad(selector, count - 1);
      assert Render(AllItems()) == ":nth-child(n)";
      assert Render(shorter) + Render(AllItems())
          == Render(selector) + (Repeat(":nth-child(n)", count - 1) + ":nth-child(n)");
      And(shorter, AllItems())
  }

  function UseWhereOrIncreaseSpecificity(target: Target, selector: Selector, count: nat): (s: Selector)
    ensures target == Modern ==> Specificity(s) == 0 && Render(s) == ":where(" + Render(selector) + ")"
    ensures target == Legacy ==> Specificity(s) == Specificity(selector) + count
    ensures target == Legacy ==> Render(s) == Render(selector) + Repeat(":nth-child(n)", count)
    ensures WellFormed(selector) ==> WellFormed(s)
  {
    if target == Legacy then Pad(selector, count) else Where(selector)
  }

  /** Padding with `:nth-child(n)` never changes which items a selector matches. */
  lemma {:induction false} PadKeepsMatches(selector: Selector, count: nat, p: int, total: int)
    requires p >= 1
    ensures Matches(Pad(selector, count), p, total) <==> Matches(selector, p, total)
  {
    if count > 0 {
      PadKeepsMatches(selector, count - 1, p, total);
    }
  }

  /** Neither strategy changes which items a selector matches. */
  lemma EqualizedKeepsMatches(target: Target, selector: Selector, count: nat, p: int, total: int)
    requires p >= 1
    ensures Matches(UseWhereOrIncreaseSpecificity(target, selector, count), p, total)
        <==> Matches(selector, p, total)
  {
    if target == Legacy {
      PadKeepsMatches(selector, count, p, total);
    }
  }
}
