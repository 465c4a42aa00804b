/**
 * The nine structural selectors the plugin derives from a column count, and
 * what each of them matches in grid terms.
 */
module Structural {
  import opened Selectors
  import opened Grid

  /** `:nth-child(n)`: every item; also the unit of specificity padding. */
  function AllItems(): (s: Selector)
    ensures Specificity(s) == 1 && WellFormed(s) && IsCompound(s)
    ensures forall p, total :: p >= 1 ==> Matches(s, p, total)
  {
    NthChild(EveryN)
  }

  /** `:nth-last-child(-n + cols)`: the last `cols` items. */
  function LastXInGrid(cols: int): (s: Selector)
    ensures Specificity(s) == 1 && WellFormed(s) && IsCompound(s)
  {
    NthLastChild(UpTo(cols))
  }

  /** `:nth-child(cols n + 1)`. */
  function FirstCol(cols: int): (s: Selector)
    ensures Specificity(s) == 1 && WellFormed(s) && IsCompound(s)
  {
    NthChild(Step(cols, 1, true))
  }

  /** `:nth-child(cols n+cols)`, written without spaces. */
  function LastCol(cols: int): (s: Selector)
    ensures Specificity(s) == 1 && WellFormed(s) && IsCompound(s)
  {
    NthChild(Step(cols, cols, false))
  }

  /** `:nth-child(-n + cols)`. */
  function FirstRow(cols: int): (s: Selector)
    ensures Specificity(s) == 1 && WellFormed(s) && IsCompound(s)
  {
    NthChild(UpTo(cols))
  }

  function FirstInLastRow(cols: int): (s: Selector)
    ensures Specificity(s) == 2 && WellFormed(s) && IsCompound(s)
  {
    And(FirstCol(cols), LastXInGrid(cols))
  }

  function OthersInLastRow(cols: int): (s: Selector)
    ensures Specificity(s) == 2 && WellFormed(s)
  {
    LaterSiblingOf(FirstInLastRow(cols))
  }

  function LastIfNotLastCol(cols: int): (s: Selector)
    ensures Specificity(s) == 2 && WellFormed(s) && IsCompound(s)
  {
    And(LastChild, Not(LastCol(cols)))
  }

  function PenultimateRowOverhangs(cols: int): (s: Selector)
    ensures Specificity(s) == 5 && WellFormed(s) && IsCompound(s)
  {
    var notFirst := Not(FirstInLastRow(cols));
    var notOthers := Not(OthersInLastRow(cols));
    assert Specificity(notFirst) == 2 && Specificity(notOthers) == 2;
    var front := And(LastXInGrid(cols), notFirst);
    assert Specificity(front) == 3 && IsCompound(front) && WellFormed(front);
    And(front, notOthers)
  }

  function PenultimateRowOverhangLastCol(cols: int): (s: Selector)
    ensures Specificity(s) == 6 && WellFormed(s) && IsCompound(s)
  {
    And(PenultimateRowOverhangs(cols), LastCol(cols))
  }

  // What each selector matches, for 1 <= i <= total and cols >= 1.

  lemma FirstColMembership(cols: int, i: int, total: int)
    requires cols >= 1 && 1 <= i <= total
    ensures Matches(FirstCol(cols), i, total) <==> Col(i, cols) == 0
  {
  }

  lemma {:induction false} LastColMembership(cols: int, i: int, total: int)
    requires cols >= 1 && 1 <= i <= total
    ensures Matches(LastCol(cols), i, total) <==> i % cols == 0
    ensures Matches(LastCol(cols), i, total) <==> Col(i, cols) == cols - 1
  {
    var q, r := (i - 1) / cols, (i - 1) % cols;
    if r == cols - 1 {
      DivModUnique(i, cols, q + 1, 0);
      DivModUnique(i - cols, cols, q, 0);
    } else {
      DivModUnique(i, cols, q, r + 1);
      DivModUnique(i - cols, cols, q - 1, r + 1);
    }
  }

  lemma FirstRowMembership(cols: int, i: int, total: int)
    requires cols >= 1 && 1 <= i <= total
    ensures Matches(FirstRow(cols), i, total) <==> i <= cols
    ensures Matches(FirstRow(cols), i, total) <==> Row(i, cols) == 0
  {
    if i <= cols {
      PlaceOf(i, cols, 0, i - 1);
    }
  }

  lemma LastXMembership(cols: int, i: int, total: int)
    requires cols >= 1 && 1 <= i <= total
    ensures Matches(LastXInGrid(cols), i, total) <==> i > total - cols
  {
  }

  /** The first item of the last row, and no other item, is matched. */
  lemma FirstInLastRowMembership(cols: int, i: int, total: int)
    requires cols >= 1 && 1 <= i <= total
    ensures Matches(FirstInLastRow(cols), i, total) <==> i == LastRowStart(total, cols)
  {
    var s := LastRowStart(total, cols);
    LastRowStartIsLastFirstColumnCell(total, cols);
    FirstColMembership(cols, i, total);
    LastXMembership(cols, i, total);
    assert Matches(FirstInLastRow(cols), i, total)
      <==> Col(i, cols) == 0 && i > total - cols;
    OverhangIff(i, total, cols);
    assert i - 1 == cols * Row(i, cols) + Col(i, cols);
  }

  /** Exactly the items after the first item of the last row are matched. */
  lemma OthersInLastRowMembership(cols: int, i: int, total: int)
    requires cols >= 1 && 1 <= i <= total
    ensures Matches(OthersInLastRow(cols), i, total) <==> LastRowStart(total, cols) < i
  {
    var s := LastRowStart(total, cols);
    LastRowStartIsLastFirstColumnCell(total, cols);
    FirstInLastRowMembership(cols, s, total);
    assert OthersInLastRow(cols) == LaterSiblingOf(FirstInLastRow(cols));
    if Matches(OthersInLastRow(cols), i, total) {
      assert exists q | 1 <= q < i :: Matches(FirstInLastRow(cols), q, total);
      var q :| 1 <= q < i && Matches(FirstInLastRow(cols), q, total);
      FirstInLastRowMembership(cols, q, total);
    }
  }

  lemma LastIfNotLastColMembership(cols: int, i: int, total: int)
    requires cols >= 1 && 1 <= i <= total
    ensures Matches(LastIfNotLastCol(cols), i, total) <==> i == total && total % cols != 0
  {
    LastColMembership(cols, i, total);
  }

  /**
   * Exactly the items of the second-to-last row that have no item directly
   * below them are matched; equivalently, those after `total - cols` and
   * before the start of the last row.
   */
  lemma PenultimateRowOverhangsMembership(cols: int, i: int, total: int)
    requires cols >= 1 && 1 <= i <= total
    ensures Matches(PenultimateRowOverhangs(cols), i, total)
        <==> total - cols < i < LastRowStart(total, cols)
    ensures Matches(PenultimateRowOverhangs(cols), i, total) <==> Overhangs(i, total, cols)
  {
    LastXMembership(cols, i, total);
    FirstInLastRowMembership(cols, i, total);
    OthersInLastRowMembership(cols, i, total);
    OverhangIff(i, total, cols);
    var front := And(LastXInGrid(cols), Not(FirstInLastRow(cols)));
    assert PenultimateRowOverhangs(cols) == And(front, Not(OthersInLastRow(cols)));
    assert Matches(front, i, total) <==>
      Matches(LastXInGrid(cols), i, total) && !Matches(FirstInLastRow(cols), i, total);
    assert Matches(PenultimateRowOverhangs(cols), i, total) <==>
      Matches(LastXInGrid(cols), i, total)
      && !Matches(FirstInLastRow(cols), i, total)
      && !Matches(OthersInLastRow(cols), i, total);
  }

  /** When the last row is full nothing overhangs. */
  lemma NoOverhangsWhenLastRowFull(cols: int, i: int, total: int)
    requires cols >= 1 && 1 <= i <= total && total % cols == 0
    ensures !Matches(PenultimateRowOverhangs(cols), i, total)
    ensures !Matches(PenultimateRowOverhangLastCol(cols), i, total)
  {
    PenultimateRowOverhangsMembership(cols, i, total);
    LastColMembership(cols, total, total);
  }

  lemma PenultimateRowOverhangLastColMembership(cols: int, i: int, total: int)
    requires cols >= 1 && 1 <= i <= total
    ensures Matches(PenultimateRowOverhangLastCol(cols), i, total)
        <==> Matches(PenultimateRowOverhangs(cols), i, total) && i % cols == 0
  {
    LastColMembership(cols, i, total);
  }

  /**
   * With one column the first-column and last-column selectors match the
   * same items, yet their texts differ, so as object keys they stay apart.
   */
  lemma FirstAndLastColumnDifferOnlyInText(cols: int)
    ensures Render(FirstCol(cols)) != Render(LastCol(cols))
    ensures cols == 1 ==> forall i, total :: 1 <= i <= total ==>
      (Matches(FirstCol(cols), i, total) <==> Matches(LastCol(cols), i, total))
  {
    var prefix := ":nth-child(" + Text.IntToString(cols) + "n";
    assert Render(FirstCol(cols)) == prefix + " + " + Text.IntToString(1) + ")";
    assert Render(LastCol(cols)) == prefix + "+" + Text.IntToString(cols) + ")";
    assert Render(FirstCol(cols))[|prefix|] == ' ';
    assert Render(LastCol(cols))[|prefix|] == '+';
  }
}
