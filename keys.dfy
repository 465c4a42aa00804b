/*
 * The keys under which the plugin's item rules are emitted: `& > ` followed
 * by the equalized selector. An object literal keeps one rule per key, so
 * two rules with the same key would silently merge; the lemmas here show
 * that the nine item rules never collide.
 *
 * Keys are told apart by their length, which depends only on the rule and
 * on the number of characters `d` of the column count's numeral. Lengths
 * coincide only for the first-row and first-column selectors (always) and
 * for those two and the last-column selector (when `d == 3`); those texts
 * differ in the characters right after `:nth-child(`.
 */
module Keys {
  import opened Text
  import opened Selectors
  import opened Structural
  import opened Equalize

  /** The nine structural selectors, in the order the plugin writes their rules. */
  function RawSelector(cols: int, j: int): (s: Selector)
    requires 0 <= j < 9
    ensures WellFormed(s)
  {
    match j
    case 0 => AllItems()
    case 1 => FirstRow(cols)
    case 2 => FirstInLastRow(cols)
    case 3 => OthersInLastRow(cols)
    case 4 => FirstCol(cols)
    case 5 => LastCol(cols)
    case 6 => LastIfNotLastCol(cols)
    case 7 => PenultimateRowOverhangs(cols)
    case _ => PenultimateRowOverhangLastCol(cols)
  }

  /** The copies of `:nth-child(n)` each rule receives in legacy mode, in rule order. */
  function Padding(j: int): (count: nat)
    requires 0 <= j < 9
    ensures Specificity(RawSelector(0, j)) + count == 6
  {
    match j
    case 0 => 5
    case 1 => 5
    case 2 => 4
    case 3 => 4
    case 4 => 5
    case 5 => 5
    case 6 => 4
    case 7 => 1
    case _ => 0
  }

  /** The selector of the `j`-th item rule, after equalization. */
  function ItemSelector(cols: int, target: Target, j: int): Selector
    requires 0 <= j < 9
  {
    UseWhereOrIncreaseSpecificity(target, RawSelector(cols, j), Padding(j))
  }

  /** The key an item rule is emitted under. */
  function Key(selector: Selector): string {
    "& > " + Render(selector)
  }

  function NumeralLength(cols: int): nat {
    |IntToString(cols)|
  }

  /** Length of the `j`-th raw selector's text, for a numeral of `d` characters. */
  function RawLength(j: int, d: int): int
    requires 0 <= j < 9
  {
    match j
    case 0 => 13
    case 1 => 17 + d
    case 2 => 39 + 2 * d
    case 3 => 43 + 2 * d
    case 4 => 17 + d
    case 5 => 14 + 2 * d
    case 6 => 31 + 2 * d
    case 7 => 116 + 5 * d
    case _ => 130 + 7 * d
  }

  function KeyLength(j: int, d: int, target: Target): int
    requires 0 <= j < 9
  {
    RawLength(j, d) + if target == Modern then 12 else 4 + 13 * Padding(j)
  }

  lemma ArgLengths(cols: int)
    ensures |ArgText(UpTo(cols))| == 5 + NumeralLength(cols)
    ensures |ArgText(Step(cols, 1, true))| == 5 + NumeralLength(cols)
    ensures |ArgText(Step(cols, cols, false))| == 2 + 2 * NumeralLength(cols)
  {
    assert |IntToString(1)| == 1;
  }

  lemma LastXLength(cols: int)
    ensures |Render(LastXInGrid(cols))| == 22 + NumeralLength(cols)
  {
    ArgLengths(cols);
  }

  lemma FirstInLastRowLength(cols: int)
    ensures |Render(FirstInLastRow(cols))| == 39 + 2 * NumeralLength(cols)
  {
    ArgLengths(cols);
    LastXLength(cols);
  }

  lemma OthersInLastRowLength(cols: int)
    ensures |Render(OthersInLastRow(cols))| == 43 + 2 * NumeralLength(cols)
  {
    FirstInLastRowLength(cols);
  }

  lemma OverhangsLength(cols: int)
    ensures |Render(PenultimateRowOverhangs(cols))| == 116 + 5 * NumeralLength(cols)
  {
    LastXLength(cols);
    FirstInLastRowLength(cols);
    OthersInLastRowLength(cols);
    var notFirst := Not(FirstInLastRow(cols));
    var notOthers := Not(OthersInLastRow(cols));
    assert |Render(notFirst)| == 45 + 2 * NumeralLength(cols);
    assert |Render(notOthers)| == 49 + 2 * NumeralLength(cols);
    var front := And(LastXInGrid(cols), notFirst);
    assert |Render(front)| == 67 + 3 * NumeralLength(cols);
    assert PenultimateRowOverhangs(cols) == And(front, notOthers);
  }

  lemma RawLengths(cols: int, j: int)
    requires 0 <= j < 9
    ensures |Render(RawSelector(cols, j))| == RawLength(j, NumeralLength(cols))
  {
    var d := NumeralLength(cols);
    match j
    case 0 =>
    case 1 =>
      ArgLengths(cols);
      assert |Render(FirstRow(cols))| == 17 + d;
    case 2 =>
      FirstInLastRowLength(cols);
    case 3 =>
      OthersInLastRowLength(cols);
    case 4 =>
      ArgLengths(cols);
      assert |Render(FirstCol(cols))| == 17 + d;
    case 5 =>
      ArgLengths(cols);
      assert |Render(LastCol(cols))| == 14 + 2 * d;
    case 6 =>
      ArgLengths(cols);
      assert |Render(LastCol(cols))| == 14 + 2 * d;
      assert |Render(LastIfNotLastCol(cols))| == 31 + 2 * d;
    case 7 =>
      OverhangsLength(cols);
    case _ =>
      ArgLengths(cols);
      OverhangsLength(cols);
      assert |Render(LastCol(cols))| == 14 + 2 * d;
      assert |Render(PenultimateRowOverhangLastCol(cols))| == 130 + 7 * d;
  }

  lemma KeyLengths(cols: int, target: Target, j: int)
    requires 0 <= j < 9
    ensures |Key(ItemSelector(cols, target, j))| == KeyLength(j, NumeralLength(cols), target)
  {
    RawLengths(cols, j);
  }

  lemma CancelAround(p: string, x: string, y: string, q: string)
    requires |x| == |y| && p + x + q == p + y + q
    ensures x == y
  {
    assert (p + x + q)[|p|..|p| + |x|] == x;
    assert (p + y + q)[|p|..|p| + |y|] == y;
  }

  /** Equal keys come from equal selector texts. */
  lemma SameKeySameRender(x: Selector, y: Selector)
    requires Key(x) == Key(y)
    ensures Render(x) == Render(y)
  {
    assert Key(x)[4..] == Render(x);
    assert Key(y)[4..] == Render(y);
  }

  lemma WhereCancels(x: Selector, y: Selector)
    requires Render(Where(x)) == Render(Where(y))
    ensures Render(x) == Render(y)
  {
    CancelAround(":where(", Render(x), Render(y), ")");
  }

  lemma CancelSuffix(x: string, y: string, q: string)
    requires |x| == |y| && x + q == y + q
    ensures x == y
  {
    assert (x + q)[..|x|] == x;
    assert (y + q)[..|y|] == y;
  }

  lemma PadCancels(x: Selector, y: Selector, count: nat)
    requires |Render(x)| == |Render(y)|
    requires Render(Pad(x, count)) == Render(Pad(y, count))
    ensures Render(x) == Render(y)
  {
    CancelSuffix(Render(x), Render(y), Repeat(":nth-child(n)", count));
  }

  /** Equal keys of equally long selectors under equal padding come from equal selector texts. */
  lemma SameKeySameText(target: Target, x: Selector, y: Selector, count: nat)
    requires |Render(x)| == |Render(y)|
    requires Key(UseWhereOrIncreaseSpecificity(target, x, count)) == Key(UseWhereOrIncreaseSpecificity(target, y, count))
    ensures Render(x) == Render(y)
  {
    SameKeySameRender(UseWhereOrIncreaseSpecificity(target, x, count), UseWhereOrIncreaseSpecificity(target, y, count));
    if target == Modern {
      WhereCancels(x, y);
    } else {
      PadCancels(x, y, count);
    }
  }

  /** The first-row text has `-n + ` where the first-column and last-column texts have the numeral. */
  lemma FirstRowTextDiffers(cols: int)
    ensures Render(FirstRow(cols)) != Render(FirstCol(cols))
    ensures Render(FirstRow(cols)) != Render(LastCol(cols))
  {
    var t := IntToString(cols);
    var row := Render(FirstRow(cols));
    var col := Render(FirstCol(cols));
    var last := Render(LastCol(cols));
    assert row == ":nth-child(" + ("-n + " + t + ")");
    assert col == ":nth-child(" + (t + "n + " + IntToString(1) + ")");
    assert last == ":nth-child(" + (t + "n+" + t + ")");
    if t[0] == '-' {
      NegativeNumeral(cols);
      assert row[12] == 'n' && col[12] == t[1] && last[12] == t[1];
    } else {
      assert row[11] == '-' && col[11] == t[0] && last[11] == t[0];
    }
  }

  /** After the numeral, the first-column text has ` + ` where the last-column text has `+`. */
  lemma FirstColTextDiffers(cols: int)
    ensures Render(FirstCol(cols)) != Render(LastCol(cols))
  {
    var t := IntToString(cols);
    var col := Render(FirstCol(cols));
    var last := Render(LastCol(cols));
    assert col == ":nth-child(" + t + ("n + " + IntToString(1) + ")");
    assert last == ":nth-child(" + t + ("n+" + t + ")");
    assert col[11 + |t| + 1] == ' ' && last[11 + |t| + 1] == '+';
  }

  /**
   * Apart from the first-row, first-column and last-column rules, no two
   * rules have keys of the same length.
   */
  lemma KeyLengthsDiffer(a: int, b: int, d: int, target: Target)
    requires 0 <= a < b < 9 && d >= 1
    requires !((a == 1 || a == 4) && (b == 4 || b == 5))
    ensures KeyLength(a, d, target) != KeyLength(b, d, target)
  {
  }

  /** The first-row, first-column and last-column rules have different keys. */
  lemma EdgeKeysDiffer(cols: int, target: Target, a: int, b: int)
    requires (a == 1 || a == 4) && (b == 4 || b == 5) && a < b
    ensures Key(ItemSelector(cols, target, a)) != Key(ItemSelector(cols, target, b))
  {
    RawLengths(cols, a);
    RawLengths(cols, b);
    FirstRowTextDiffers(cols);
    FirstColTextDiffers(cols);
    if |Render(RawSelector(cols, a))| == |Render(RawSelector(cols, b))|
      && Key(ItemSelector(cols, target, a)) == Key(ItemSelector(cols, target, b))
    {
      SameKeySameText(target, RawSelector(cols, a), RawSelector(cols, b), 5);
      assert false;
    }
  }

  lemma ItemKeysDiffer(cols: int, target: Target, a: int, b: int)
    requires 0 <= a < b < 9
    ensures Key(ItemSelector(cols, target, a)) != Key(ItemSelector(cols, target, b))
  {
    if (a == 1 || a == 4) && (b == 4 || b == 5) {
      EdgeKeysDiffer(cols, target, a, b);
    } else {
      KeyLengths(cols, target, a);
      KeyLengths(cols, target, b);
      KeyLengthsDiffer(a, b, NumeralLength(cols), target);
    }
  }

  /** No two item rules share a key, for any column count and either strategy. */
  lemma ItemKeysDistinct(cols: int, target: Target)
    ensures forall a, b :: 0 <= a < b < 9 ==>
      Key(ItemSelector(cols, target, a)) != Key(ItemSelector(cols, target, b))
  {
    forall a, b | 0 <= a < b < 9
      ensures Key(ItemSelector(cols, target, a)) != Key(ItemSelector(cols, target, b))
    {
      ItemKeysDiffer(cols, target, a, b);
    }
  }
}
