/*
 * How the browser resolves the declarations of the item rules for one grid
 * item: among the rules whose selector matches the item and that declare a
 * property (directly or through the `margin`/`border-*` shorthands), the one
 * of highest specificity wins, and among equals the one written last. This
 * is the mechanism the equalized specificities rely on: within one
 * `grid-inner` object, and across responsive variants emitted after it,
 * rule order alone decides.
 */
module Cascade {
  import opened Wrappers
  import Text
  import opened Grid
  import opened Selectors
  import opened Structural
  import opened Equalize
  import opened Keys
  import opened Styles

  /** A property of a grid item, or of its `::after` pseudo-element. */
  datatype Slot = OnItem(prop: Prop) | OnAfter(prop: Prop)

  /** Whether a declaration of `declared` sets `p`: itself, or a shorthand that includes it. */
  predicate Covers(declared: Prop, p: Prop) {
    declared == p || (declared.Shorthand? && p.Longhand? && p.box == declared.box)
  }

  /** The value `p` receives from a declaration list: the last declaration that covers it. */
  function Lookup(decls: seq<Decl>, p: Prop): (v: Option<string>)
    ensures v.None? <==> forall k :: 0 <= k < |decls| ==> !Covers(decls[k].prop, p)
  {
    LookupIn(decls, p, |decls|)
  }

  function LookupIn(decls: seq<Decl>, p: Prop, n: nat): (v: Option<string>)
    requires n <= |decls|
    ensures v.None? <==> forall k :: 0 <= k < n ==> !Covers(decls[k].prop, p)
  {
    if n == 0 then None
    else if Covers(decls[n - 1].prop, p) then Some(decls[n - 1].value)
    else LookupIn(decls, p, n - 1)
  }

  lemma {:induction false} LastCoveringWinsIn(decls: seq<Decl>, p: Prop, k: int, n: nat)
    requires 0 <= k < n <= |decls| && Covers(decls[k].prop, p)
    requires forall j :: k < j < n ==> !Covers(decls[j].prop, p)
    ensures LookupIn(decls, p, n) == Some(decls[k].value)
  {
    if k < n - 1 {
      LastCoveringWinsIn(decls, p, k, n - 1);
    }
  }

  /** The last declaration that covers `p` is the one that gives its value. */
  lemma LastCoveringWins(decls: seq<Decl>, p: Prop, k: int)
    requires 0 <= k < |decls| && Covers(decls[k].prop, p)
    requires forall j :: k < j < |decls| ==> !Covers(decls[j].prop, p)
    ensures Lookup(decls, p) == Some(decls[k].value)
  {
    LastCoveringWinsIn(decls, p, k, |decls|);
  }

  function Declared(block: Block, slot: Slot): Option<string> {
    match slot
    case OnItem(p) => Lookup(block.decls, p)
    case OnAfter(p) => if block.after.Some? then Lookup(block.after.value, p) else None
  }

  // ------------------------------------------------------------ resolution

  /**
   * What one rule offers for a slot of one item: whether it takes part (it
   * matches the item and declares the slot), its specificity and the value
   * it declares.
   */
  datatype Bid = Bid(applies: bool, specificity: nat, value: string)

  function BidOf(rule: ItemRule, i: int, total: int, slot: Slot): Bid {
    var declared := Declared(rule.body, slot);
    Bid(Matches(rule.selector, i, total) && declared.Some?, Specificity(rule.selector),
        if declared.Some? then declared.value else "")
  }

  /** The bids of a list of rules, in the order the rules are written. */
  function Bids(rules: seq<ItemRule>, i: int, total: int, slot: Slot): (bids: seq<Bid>)
    ensures |bids| == |rules|
  {
    seq(|rules|, k requires 0 <= k < |rules| => BidOf(rules[k], i, total, slot))
  }

  /** The bid that wins (its index in the list), its specificity and the value it gives. */
  datatype Winner = Winner(rule: nat, specificity: nat, value: string)

  /**
   * The bid that wins, the bids taken in the order their rules are written:
   * a bid replaces the current winner unless the winner has a strictly
   * higher specificity.
   */
  function Resolve(bids: seq<Bid>): (w: Option<Winner>)
    ensures w.None? <==> forall k :: 0 <= k < |bids| ==> !bids[k].applies
    ensures w.Some? ==>
      (w.value.rule < |bids| && bids[w.value.rule].applies
       && w.value.specificity == bids[w.value.rule].specificity
       && w.value.value == bids[w.value.rule].value)
    decreases |bids|
  {
    if bids == [] then None
    else
      var earlier := Resolve(bids[..|bids| - 1]);
      var last := bids[|bids| - 1];
      if last.applies && (earlier.None? || earlier.value.specificity <= last.specificity)
      then Some(Winner(|bids| - 1, last.specificity, last.value))
      else earlier
  }

  /** Whether some rule of the list matches the item and declares the slot. */
  predicate SetsSlot(rules: seq<ItemRule>, i: int, total: int, slot: Slot) {
    exists k :: 0 <= k < |rules| && Matches(rules[k].selector, i, total) && Declared(rules[k].body, slot).Some?
  }

  /** The value the item ends up with, if any rule sets it. */
  function Computed(rules: seq<ItemRule>, i: int, total: int, slot: Slot): Option<string> {
    match Resolve(Bids(rules, i, total, slot))
    case None => None
    case Some(w) => Some(w.value)
  }

  /**
   * The winner has the highest specificity among the bids that take part,
   * and every bid after it that takes part has a strictly lower one.
   */
  lemma {:induction false} WinnerIsLastOfHighest(bids: seq<Bid>)
    requires Resolve(bids).Some?
    ensures var w := Resolve(bids).value;
      forall k :: 0 <= k < |bids| && bids[k].applies ==>
        bids[k].specificity <= w.specificity
        && (k > w.rule ==> bids[k].specificity < w.specificity)
    decreases |bids|
  {
    var front := bids[..|bids| - 1];
    assert forall k :: 0 <= k < |bids| - 1 ==> front[k] == bids[k];
    if Resolve(front).Some? {
      WinnerIsLastOfHighest(front);
    }
  }

  /**
   * When all bids share one specificity, the last bid that takes part wins:
   * rule order alone decides.
   */
  lemma LastApplyingWins(bids: seq<Bid>, specificity: nat, k: int)
    requires forall j :: 0 <= j < |bids| ==> bids[j].specificity == specificity
    requires 0 <= k < |bids| && bids[k].applies
    requires forall j :: k < j < |bids| ==> !bids[j].applies
    ensures Resolve(bids) == Some(Winner(k, specificity, bids[k].value))
  {
    WinnerIsLastOfHighest(bids);
  }

  /**
   * Among bids of at most one specificity, the last bid that takes part at
   * that specificity wins.
   */
  lemma LastOfHighestWins(bids: seq<Bid>, specificity: nat, k: int)
    requires forall j :: 0 <= j < |bids| ==> bids[j].specificity <= specificity
    requires 0 <= k < |bids| && bids[k].applies && bids[k].specificity == specificity
    requires forall j :: k < j < |bids| && bids[j].applies ==> bids[j].specificity < specificity
    ensures Resolve(bids) == Some(Winner(k, specificity, bids[k].value))
  {
    WinnerIsLastOfHighest(bids);
  }

  /**
   * Bids written after others, all with the specificity the earlier ones
   * reach at most, decide the slot whenever one of them takes part: the
   * winner is the later list's winner.
   */
  lemma LaterBidsOverride(prev: seq<Bid>, next: seq<Bid>, specificity: nat)
    requires forall j :: 0 <= j < |prev| ==> prev[j].specificity <= specificity
    requires forall j :: 0 <= j < |next| ==> next[j].specificity == specificity
    requires exists k :: 0 <= k < |next| && next[k].applies
    ensures Resolve(next).Some?
    ensures Resolve(prev + next)
         == Some(Winner(|prev| + Resolve(next).value.rule, specificity, Resolve(next).value.value))
  {
    var v := Resolve(next).value;
    WinnerIsLastOfHighest(next);
    AppendedBids(prev, next, specificity, v.rule);
    LastOfHighestWins(prev + next, specificity, |prev| + v.rule);
  }

  /** The bids of `next` sit `|prev|` places further on once appended to `prev`. */
  lemma AppendedBids(prev: seq<Bid>, next: seq<Bid>, specificity: nat, r: int)
    requires forall j :: 0 <= j < |prev| ==> prev[j].specificity <= specificity
    requires forall j :: 0 <= j < |next| ==> next[j].specificity == specificity
    requires 0 <= r < |next| && forall j :: r < j < |next| ==> !next[j].applies
    ensures forall j :: 0 <= j < |prev + next| ==> (prev + next)[j].specificity <= specificity
    ensures (prev + next)[|prev| + r] == next[r]
    ensures forall j :: |prev| + r < j < |prev + next| ==> !(prev + next)[j].applies
  {
    var all := prev + next;
    forall j | |prev| <= j < |all|
      ensures all[j] == next[j - |prev|]
    {
    }
  }

  lemma BidsOfAppend(prev: seq<ItemRule>, next: seq<ItemRule>, i: int, total: int, slot: Slot)
    ensures Bids(prev + next, i, total, slot) == Bids(prev, i, total, slot) + Bids(next, i, total, slot)
  {
    var all := prev + next;
    assert forall j :: 0 <= j < |next| ==> all[|prev| + j] == next[j];
  }

  /**
   * A ruleset written after another, whose rules all have the specificity
   * the earlier rules reach at most, decides every slot it sets for the
   * item: the earlier ruleset no longer shows.
   */
  lemma LaterRulesetOverrides(prev: seq<ItemRule>, next: seq<ItemRule>, i: int, total: int, slot: Slot, specificity: nat)
    requires forall j :: 0 <= j < |prev| ==> Specificity(prev[j].selector) <= specificity
    requires forall j :: 0 <= j < |next| ==> Specificity(next[j].selector) == specificity
    requires SetsSlot(next, i, total, slot)
    ensures Computed(prev + next, i, total, slot) == Computed(next, i, total, slot)
  {
    var before := Bids(prev, i, total, slot);
    var after := Bids(next, i, total, slot);
    BidsOfAppend(prev, next, i, total, slot);
    var k :| 0 <= k < |next| && Matches(next[k].selector, i, total) && Declared(next[k].body, slot).Some?;
    assert after[k].applies;
    LaterBidsOverride(before, after, specificity);
  }

  // --------------------------------------------------- the grid's item rules

  /** The specificity every item rule of one `grid-inner` object is brought to. */
  function Equalized(target: Target): nat {
    if target == Legacy then 6 else 0
  }

  lemma ItemRulesTie(cols: int, target: Target)
    ensures forall j :: 0 <= j < 9 ==> Specificity(ItemRules(cols, target)[j].selector) == Equalized(target)
  {
    forall j | 0 <= j < 9
      ensures Specificity(ItemSelector(cols, target, j)) == Equalized(target)
    {
      assert Specificity(RawSelector(cols, j)) == Specificity(RawSelector(0, j));
    }
  }

  /**
   * Every item rule of the callback's object reaches at most the equalized
   * specificity, and exactly it except for `none` in legacy mode, whose one
   * rule stops at 5.
   */
  lemma ObjectRulesTie(value: string, target: Target)
    ensures forall j :: 0 <= j < |GridInner(value, target).items| ==>
      Specificity(GridInner(value, target).items[j].selector) <= Equalized(target)
    ensures !(target == Legacy && ParseValue(value) == Reset) ==>
      forall j :: 0 <= j < |GridInner(value, target).items| ==>
        Specificity(GridInner(value, target).items[j].selector) == Equalized(target)
  {
    match ParseValue(value)
    case Reset =>
    case Columns(cols, _) => ItemRulesTie(cols, target);
  }

  /** With the corrected `none` rule, every item rule of every object has the equalized specificity. */
  lemma CorrectedRulesTie(value: string, target: Target)
    ensures forall j :: 0 <= j < |GridInnerCorrected(value, target).items| ==>
      Specificity(GridInnerCorrected(value, target).items[j].selector) == Equalized(target)
  {
    match ParseValue(value)
    case Reset =>
    case Columns(cols, _) => ItemRulesTie(cols, target);
  }

  /** The first item rule of every object matches every item. */
  lemma FirstRuleCoversAll(value: string, target: Target, i: int, total: int)
    requires i >= 1
    ensures |GridInner(value, target).items| >= 1
    ensures Matches(GridInner(value, target).items[0].selector, i, total)
    ensures |GridInnerCorrected(value, target).items| >= 1
    ensures Matches(GridInnerCorrected(value, target).items[0].selector, i, total)
  {
    EqualizedKeepsMatches(target, AllItems(), 4, i, total);
    EqualizedKeepsMatches(target, AllItems(), 5, i, total);
  }

  /** The last item, when it does not end its row. */
  predicate LastShort(i: int, total: int, cols: int)
    requires cols >= 1
  {
    i == total && Col(total, cols) != cols - 1
  }

  /** The items the `j`-th item rule is meant for, in grid terms. */
  predicate InRegion(j: int, cols: int, i: int, total: int)
    requires 0 <= j < 9 && cols >= 1
  {
    match j
    case 0 => true
    case 1 => Row(i, cols) == 0
    case 2 => i == LastRowStart(total, cols)
    case 3 => LastRowStart(total, cols) < i
    case 4 => Col(i, cols) == 0
    case 5 => Col(i, cols) == cols - 1
    case 6 => LastShort(i, total, cols)
    case 7 => Overhangs(i, total, cols)
    case _ => Overhangs(i, total, cols) && Col(i, cols) == cols - 1
  }

  lemma LastShortRegion(cols: int, i: int, total: int)
    requires cols >= 1 && 1 <= i <= total
    ensures Matches(LastIfNotLastCol(cols), i, total) <==> LastShort(i, total, cols)
  {
    LastIfNotLastColMembership(cols, i, total);
    LastColMembership(cols, total, total);
  }

  lemma OverhangLastColRegion(cols: int, i: int, total: int)
    requires cols >= 1 && 1 <= i <= total
    ensures Matches(PenultimateRowOverhangLastCol(cols), i, total)
        <==> Overhangs(i, total, cols) && Col(i, cols) == cols - 1
  {
    PenultimateRowOverhangLastColMembership(cols, i, total);
    PenultimateRowOverhangsMembership(cols, i, total);
    LastColMembership(cols, i, total);
  }

  /** Each structural selector matches exactly the items of its region. */
  lemma RawSelectorRegion(cols: int, i: int, total: int, j: int)
    requires cols >= 1 && 1 <= i <= total && 0 <= j < 9
    ensures Matches(RawSelector(cols, j), i, total) <==> InRegion(j, cols, i, total)
  {
    match j
    case 0 =>
    case 1 => FirstRowMembership(cols, i, total);
    case 2 => FirstInLastRowMembership(cols, i, total);
    case 3 => OthersInLastRowMembership(cols, i, total);
    case 4 => FirstColMembership(cols, i, total);
    case 5 => LastColMembership(cols, i, total);
    case 6 => LastShortRegion(cols, i, total);
    case 7 => PenultimateRowOverhangsMembership(cols, i, total);
    case _ => OverhangLastColRegion(cols, i, total);
  }

  /** Each item rule matches exactly the items of its region. */
  lemma ItemRuleMatches(cols: int, target: Target, i: int, total: int, j: int)
    requires cols >= 1 && 1 <= i <= total && 0 <= j < 9
    ensures Matches(ItemRules(cols, target)[j].selector, i, total) <==> InRegion(j, cols, i, total)
  {
    EqualizedKeepsMatches(target, RawSelector(cols, j), Padding(j), i, total);
    RawSelectorRegion(cols, i, total, j);
  }

  /** What the body of the `j`-th item rule offers for a slot. */
  function BodyBid(j: int, target: Target, inRegion: bool, slot: Slot): Bid
    requires 0 <= j < 9
  {
    var declared := Declared(ItemBody(j), slot);
    Bid(inRegion && declared.Some?, Equalized(target), if declared.Some? then declared.value else "")
  }

  /** The `j`-th item rule bids for a slot exactly on its region, at the equalized specificity. */
  lemma ItemBid(cols: int, target: Target, i: int, total: int, slot: Slot, j: int)
    requires cols >= 1 && 1 <= i <= total && 0 <= j < 9
    ensures Bids(ItemRules(cols, target), i, total, slot)[j] == BodyBid(j, target, InRegion(j, cols, i, total), slot)
  {
    ItemRuleMatches(cols, target, i, total, j);
    ItemRulesTie(cols, target);
  }

  lemma ItemBids(cols: int, target: Target, i: int, total: int, slot: Slot)
    requires cols >= 1 && 1 <= i <= total
    ensures forall j :: 0 <= j < 9 ==>
      Bids(ItemRules(cols, target), i, total, slot)[j] == BodyBid(j, target, InRegion(j, cols, i, total), slot)
  {
    forall j | 0 <= j < 9
      ensures Bids(ItemRules(cols, target), i, total, slot)[j] == BodyBid(j, target, InRegion(j, cols, i, total), slot)
    {
      ItemBid(cols, target, i, total, slot, j);
    }
  }

  /**
   * For the nine item rules, given what each body declares for a slot: the
   * last rule whose region holds the item and whose body declares the slot
   * gives the value.
   */
  lemma LastRegionWins(cols: int, target: Target, i: int, total: int, slot: Slot, table: seq<Option<string>>, k: int)
    requires cols >= 1 && 1 <= i <= total && 0 <= k < 9
    requires |table| == 9 && forall j :: 0 <= j < 9 ==> Declared(ItemBody(j), slot) == table[j]
    requires InRegion(k, cols, i, total) && table[k].Some?
    requires forall j :: k < j < 9 ==> !InRegion(j, cols, i, total) || table[j].None?
    ensures Computed(ItemRules(cols, target), i, total, slot) == table[k]
  {
    var bids := Bids(ItemRules(cols, target), i, total, slot);
    forall j | 0 <= j < 9
      ensures bids[j].specificity == Equalized(target)
      ensures k < j ==> !bids[j].applies
    {
      ItemBid(cols, target, i, total, slot, j);
    }
    ItemBid(cols, target, i, total, slot, k);
    LastApplyingWins(bids, Equalized(target), k);
  }

  /** For the nine item rules: no value when no rule of the item's regions declares the slot. */
  lemma NoRegionDeclares(cols: int, target: Target, i: int, total: int, slot: Slot)
    requires cols >= 1 && 1 <= i <= total
    requires forall j :: 0 <= j < 9 ==> !InRegion(j, cols, i, total) || Declared(ItemBody(j), slot).None?
    ensures Computed(ItemRules(cols, target), i, total, slot) == None
  {
    ItemBids(cols, target, i, total, slot);
  }

  // ------------------------------------------------------------ the layout

  /*
   * Each `...Table` lemma reads off, for one slot, what each of the nine
   * bodies declares; each layout lemma then picks the last rule whose
   * region holds the item.
   */

  const TopWidths: seq<Option<string>> := [Some(HalfBorder), Some("0px"), None, None, None, None, None, None, None]

  lemma TopWidthTable()
    ensures forall j :: 0 <= j < 9 ==>
      Declared(ItemBody(j), OnItem(Longhand(BorderWidth, Top))) == TopWidths[j]
  {
    forall j | 0 <= j < 9
      ensures Declared(ItemBody(j), OnItem(Longhand(BorderWidth, Top))) == TopWidths[j]
    {
      match j
      case 0 => LastCoveringWins(AllItemsBody().decls, Longhand(BorderWidth, Top), 1);
      case _ =>
    }
  }

  /** Half borders everywhere, none on the outer edge of the first row. */
  lemma TopBorder(cols: int, target: Target, i: int, total: int)
    requires cols >= 1 && 1 <= i <= total
    ensures Computed(ItemRules(cols, target), i, total, OnItem(Longhand(BorderWidth, Top)))
         == Some(if Row(i, cols) == 0 then "0px" else HalfBorder)
  {
    TopWidthTable();
    var k := if Row(i, cols) == 0 then 1 else 0;
    LastRegionWins(cols, target, i, total, OnItem(Longhand(BorderWidth, Top)), TopWidths, k);
  }

  const BottomWidths: seq<Option<string>> := [Some(HalfBorder), None, Some("0px"), Some("0px"), None, None, None, None, None]

  lemma BottomWidthTable()
    ensures forall j :: 0 <= j < 9 ==>
      Declared(ItemBody(j), OnItem(Longhand(BorderWidth, Bottom))) == BottomWidths[j]
  {
    forall j | 0 <= j < 9
      ensures Declared(ItemBody(j), OnItem(Longhand(BorderWidth, Bottom))) == BottomWidths[j]
    {
      match j
      case 0 => LastCoveringWins(AllItemsBody().decls, Longhand(BorderWidth, Bottom), 1);
      case _ =>
    }
  }

  /** No bottom border in the last row, the first item of that row included. */
  lemma BottomBorder(cols: int, target: Target, i: int, total: int)
    requires cols >= 1 && 1 <= i <= total
    ensures Computed(ItemRules(cols, target), i, total, OnItem(Longhand(BorderWidth, Bottom)))
         == Some(if Row(i, cols) == Row(total, cols) then "0px" else HalfBorder)
  {
    BottomWidthTable();
    InLastRowIff(i, total, cols);
    var s := LastRowStart(total, cols);
    var k := if i == s then 2 else if s < i then 3 else 0;
    LastRegionWins(cols, target, i, total, OnItem(Longhand(BorderWidth, Bottom)), BottomWidths, k);
  }

  const LeftWidths: seq<Option<string>> := [Some(HalfBorder), None, None, None, Some("0px"), None, None, None, None]

  lemma LeftWidthTable()
    ensures forall j :: 0 <= j < 9 ==>
      Declared(ItemBody(j), OnItem(Longhand(BorderWidth, Left))) == LeftWidths[j]
  {
    forall j | 0 <= j < 9
      ensures Declared(ItemBody(j), OnItem(Longhand(BorderWidth, Left))) == LeftWidths[j]
    {
      match j
      case 0 => LastCoveringWins(AllItemsBody().decls, Longhand(BorderWidth, Left), 1);
      case 4 => LastCoveringWins(FirstColBody().decls, Longhand(BorderWidth, Left), 0);
      case _ =>
    }
  }

  /** No left border in the first column, a half border elsewhere. */
  lemma LeftBorder(cols: int, target: Target, i: int, total: int)
    requires cols >= 1 && 1 <= i <= total
    ensures Computed(ItemRules(cols, target), i, total, OnItem(Longhand(BorderWidth, Left)))
         == Some(if Col(i, cols) == 0 then "0px" else HalfBorder)
  {
    LeftWidthTable();
    LastRegionWins(cols, target, i, total, OnItem(Longhand(BorderWidth, Left)), LeftWidths, if Col(i, cols) == 0 then 4 else 0);
  }

  const LeftMargins: seq<Option<string>> := [Some("0px"), None, None, None, Some(EdgeMargin), None, None, None, None]

  lemma MarginLeftTable()
    ensures forall j :: 0 <= j < 9 ==>
      Declared(ItemBody(j), OnItem(Longhand(Margin, Left))) == LeftMargins[j]
  {
    forall j | 0 <= j < 9
      ensures Declared(ItemBody(j), OnItem(Longhand(Margin, Left))) == LeftMargins[j]
    {
      match j
      case 0 => LastCoveringWins(AllItemsBody().decls, Longhand(Margin, Left), 0);
      case 4 => LastCoveringWins(FirstColBody().decls, Longhand(Margin, Left), 1);
      case _ =>
    }
  }

  /**
   * The first column gets a positive left margin that takes back, inside
   * the grid, the wrapper's negative one; other items have none.
   */
  lemma LeftMargin(cols: int, target: Target, i: int, total: int)
    requires cols >= 1 && 1 <= i <= total
    ensures Computed(ItemRules(cols, target), i, total, OnItem(Longhand(Margin, Left)))
         == Some(if Col(i, cols) == 0 then EdgeMargin else "0px")
  {
    MarginLeftTable();
    LastRegionWins(cols, target, i, total, OnItem(Longhand(Margin, Left)), LeftMargins, if Col(i, cols) == 0 then 4 else 0);
  }

  const RightWidths: seq<Option<string>> := [Some(HalfBorder), None, None, None, None, Some("0px"), None, None, None]

  lemma RightWidthTable()
    ensures forall j :: 0 <= j < 9 ==>
      Declared(ItemBody(j), OnItem(Longhand(BorderWidth, Right))) == RightWidths[j]
  {
    forall j | 0 <= j < 9
      ensures Declared(ItemBody(j), OnItem(Longhand(BorderWidth, Right))) == RightWidths[j]
    {
      match j
      case 0 => LastCoveringWins(AllItemsBody().decls, Longhand(BorderWidth, Right), 1);
      case 5 => LastCoveringWins(LastColBody().decls, Longhand(BorderWidth, Right), 0);
      case _ =>
    }
  }

  /** No right border in the last column, a half border elsewhere. */
  lemma RightBorder(cols: int, target: Target, i: int, total: int)
    requires cols >= 1 && 1 <= i <= total
    ensures Computed(ItemRules(cols, target), i, total, OnItem(Longhand(BorderWidth, Right)))
         == Some(if Col(i, cols) == cols - 1 then "0px" else HalfBorder)
  {
    RightWidthTable();
    LastRegionWins(cols, target, i, total, OnItem(Longhand(BorderWidth, Right)), RightWidths, if Col(i, cols) == cols - 1 then 5 else 0);
  }

  const RightMargins: seq<Option<string>> := [Some("0px"), None, None, None, None, Some(EdgeMargin), None, None, None]

  lemma MarginRightTable()
    ensures forall j :: 0 <= j < 9 ==>
      Declared(ItemBody(j), OnItem(Longhand(Margin, Right))) == RightMargins[j]
  {
    forall j | 0 <= j < 9
      ensures Declared(ItemBody(j), OnItem(Longhand(Margin, Right))) == RightMargins[j]
    {
      match j
      case 0 => LastCoveringWins(AllItemsBody().decls, Longhand(Margin, Right), 0);
      case 5 => LastCoveringWins(LastColBody().decls, Longhand(Margin, Right), 1);
      case _ =>
    }
  }

  /** The mirror image of the left margin, for the last column. */
  lemma RightMargin(cols: int, target: Target, i: int, total: int)
    requires cols >= 1 && 1 <= i <= total
    ensures Computed(ItemRules(cols, target), i, total, OnItem(Longhand(Margin, Right)))
         == Some(if Col(i, cols) == cols - 1 then EdgeMargin else "0px")
  {
    MarginRightTable();
    LastRegionWins(cols, target, i, total, OnItem(Longhand(Margin, Right)), RightMargins, if Col(i, cols) == cols - 1 then 5 else 0);
  }

  const TopMargins: seq<Option<string>> := [Some("0px"), None, None, None, None, None, None, None, None]

  lemma MarginTopTable()
    ensures forall j :: 0 <= j < 9 ==>
      Declared(ItemBody(j), OnItem(Longhand(Margin, Top))) == TopMargins[j]
  {
    forall j | 0 <= j < 9
      ensures Declared(ItemBody(j), OnItem(Longhand(Margin, Top))) == TopMargins[j]
    {
      match j
      case 0 => LastCoveringWins(AllItemsBody().decls, Longhand(Margin, Top), 0);
      case _ =>
    }
  }

  /** No item has a top margin. */
  lemma TopMargin(cols: int, target: Target, i: int, total: int)
    requires cols >= 1 && 1 <= i <= total
    ensures Computed(ItemRules(cols, target), i, total, OnItem(Longhand(Margin, Top))) == Some("0px")
  {
    MarginTopTable();
    LastRegionWins(cols, target, i, total, OnItem(Longhand(Margin, Top)), TopMargins, 0);
  }

  const BottomMargins: seq<Option<string>> := [Some("0px"), None, None, None, None, None, None, None, None]

  lemma MarginBottomTable()
    ensures forall j :: 0 <= j < 9 ==>
      Declared(ItemBody(j), OnItem(Longhand(Margin, Bottom))) == BottomMargins[j]
  {
    forall j | 0 <= j < 9
      ensures Declared(ItemBody(j), OnItem(Longhand(Margin, Bottom))) == BottomMargins[j]
    {
      match j
      case 0 => LastCoveringWins(AllItemsBody().decls, Longhand(Margin, Bottom), 0);
      case _ =>
    }
  }

  /** No item has a bottom margin. */
  lemma BottomMargin(cols: int, target: Target, i: int, total: int)
    requires cols >= 1 && 1 <= i <= total
    ensures Computed(ItemRules(cols, target), i, total, OnItem(Longhand(Margin, Bottom))) == Some("0px")
  {
    MarginBottomTable();
    LastRegionWins(cols, target, i, total, OnItem(Longhand(Margin, Bottom)), BottomMargins, 0);
  }

  const Positions: seq<Option<string>> := [None, None, None, None, None, None, Some("relative"), Some("relative"), None]

  lemma PositionTable()
    ensures forall j :: 0 <= j < 9 ==>
      Declared(ItemBody(j), OnItem(Position)) == Positions[j]
  {
  }

  /**
   * Exactly the items whose `::after` element draws a second border are
   * positioned relatively, so that element is placed against them.
   */
  lemma PositionedWhereDoubled(cols: int, target: Target, i: int, total: int)
    requires cols >= 1 && 1 <= i <= total
    ensures Computed(ItemRules(cols, target), i, total, OnItem(Position))
         == if LastShort(i, total, cols) || Overhangs(i, total, cols) then Some("relative") else None
  {
    PositionTable();
    if Overhangs(i, total, cols) {
      LastRegionWins(cols, target, i, total, OnItem(Position), Positions, 7);
    } else if LastShort(i, total, cols) {
      LastRegionWins(cols, target, i, total, OnItem(Position), Positions, 6);
    } else {
      NoRegionDeclares(cols, target, i, total, OnItem(Position));
    }
  }

  const AfterDisplays: seq<Option<string>> := [Some("none"), None, None, None, None, None, Some("block"), Some("block"), None]

  lemma AfterDisplayTable()
    ensures forall j :: 0 <= j < 9 ==>
      Declared(ItemBody(j), OnAfter(Display)) == AfterDisplays[j]
  {
    forall j | 0 <= j < 9
      ensures Declared(ItemBody(j), OnAfter(Display)) == AfterDisplays[j]
    {
      match j
      case 6 => LastCoveringWins(LastIfNotLastColBody().after.value, Display, 4);
      case 7 => LastCoveringWins(OverhangBody().after.value, Display, 4);
      case _ =>
    }
  }

  /**
   * The `::after` element is shown exactly for the last item when it does
   * not end its row and for the items with no item below them; it is
   * hidden everywhere else.
   */
  lemma AfterShownWhereDoubled(cols: int, target: Target, i: int, total: int)
    requires cols >= 1 && 1 <= i <= total
    ensures Computed(ItemRules(cols, target), i, total, OnAfter(Display))
         == Some(if LastShort(i, total, cols) || Overhangs(i, total, cols) then "block" else "none")
  {
    AfterDisplayTable();
    var k := if Overhangs(i, total, cols) then 7 else if LastShort(i, total, cols) then 6 else 0;
    LastRegionWins(cols, target, i, total, OnAfter(Display), AfterDisplays, k);
  }

  const AfterLeftWidths: seq<Option<string>> := [None, None, None, None, None, None, Some(HalfBorder), None, None]

  lemma AfterLeftWidthTable()
    ensures forall j :: 0 <= j < 9 ==>
      Declared(ItemBody(j), OnAfter(Longhand(BorderWidth, Left))) == AfterLeftWidths[j]
  {
    forall j | 0 <= j < 9
      ensures Declared(ItemBody(j), OnAfter(Longhand(BorderWidth, Left))) == AfterLeftWidths[j]
    {
      match j
      case 6 => LastCoveringWins(LastIfNotLastColBody().after.value, Longhand(BorderWidth, Left), 1);
      case _ =>
    }
  }

  /** Only the last item's `::after` element draws a left (vertical) half-border. */
  lemma AfterVerticalBorder(cols: int, target: Target, i: int, total: int)
    requires cols >= 1 && 1 <= i <= total
    ensures Computed(ItemRules(cols, target), i, total, OnAfter(Longhand(BorderWidth, Left)))
         == if LastShort(i, total, cols) then Some(HalfBorder) else None
  {
    AfterLeftWidthTable();
    if LastShort(i, total, cols) {
      LastRegionWins(cols, target, i, total, OnAfter(Longhand(BorderWidth, Left)), AfterLeftWidths, 6);
    } else {
      NoRegionDeclares(cols, target, i, total, OnAfter(Longhand(BorderWidth, Left)));
    }
  }

  const AfterTopWidths: seq<Option<string>> := [None, None, None, None, None, None, None, Some(HalfBorder), None]

  lemma AfterTopWidthTable()
    ensures forall j :: 0 <= j < 9 ==>
      Declared(ItemBody(j), OnAfter(Longhand(BorderWidth, Top))) == AfterTopWidths[j]
  {
    forall j | 0 <= j < 9
      ensures Declared(ItemBody(j), OnAfter(Longhand(BorderWidth, Top))) == AfterTopWidths[j]
    {
      match j
      case 7 => LastCoveringWins(OverhangBody().after.value, Longhand(BorderWidth, Top), 1);
      case _ =>
    }
  }

  /** Only the `::after` element of an item with nothing below draws a top (horizontal) half-border. */
  lemma AfterHorizontalBorder(cols: int, target: Target, i: int, total: int)
    requires cols >= 1 && 1 <= i <= total
    ensures Computed(ItemRules(cols, target), i, total, OnAfter(Longhand(BorderWidth, Top)))
         == if Overhangs(i, total, cols) then Some(HalfBorder) else None
  {
    AfterTopWidthTable();
    if Overhangs(i, total, cols) {
      LastRegionWins(cols, target, i, total, OnAfter(Longhand(BorderWidth, Top)), AfterTopWidths, 7);
    } else {
      NoRegionDeclares(cols, target, i, total, OnAfter(Longhand(BorderWidth, Top)));
    }
  }

  const AfterLefts: seq<Option<string>> := [None, None, None, None, None, None, Some(PastFarEdge), Some(MinusHalfBorder), None]

  lemma AfterLeftTable()
    ensures forall j :: 0 <= j < 9 ==>
      Declared(ItemBody(j), OnAfter(Offset(Left))) == AfterLefts[j]
  {
    forall j | 0 <= j < 9
      ensures Declared(ItemBody(j), OnAfter(Offset(Left))) == AfterLefts[j]
    {
      match j
      case 6 => LastCoveringWins(LastIfNotLastColBody().after.value, Offset(Left), 6);
      case 7 => LastCoveringWins(OverhangBody().after.value, Offset(Left), 6);
      case _ =>
    }
  }

  /**
   * The last item's `::after` element starts just past the item's right
   * edge; that of an item with nothing below starts half a border before
   * its left edge.
   */
  lemma AfterLeftOffset(cols: int, target: Target, i: int, total: int)
    requires cols >= 1 && 1 <= i <= total
    ensures Computed(ItemRules(cols, target), i, total, OnAfter(Offset(Left)))
         == if Overhangs(i, total, cols) then Some(MinusHalfBorder)
            else if LastShort(i, total, cols) then Some(PastFarEdge) else None
  {
    AfterLeftTable();
    if Overhangs(i, total, cols) {
      LastRegionWins(cols, target, i, total, OnAfter(Offset(Left)), AfterLefts, 7);
    } else if LastShort(i, total, cols) {
      LastRegionWins(cols, target, i, total, OnAfter(Offset(Left)), AfterLefts, 6);
    } else {
      NoRegionDeclares(cols, target, i, total, OnAfter(Offset(Left)));
    }
  }

  const AfterRights: seq<Option<string>> := [None, None, None, None, None, None, None, Some(MinusHalfBorder), Some("0")]

  lemma AfterRightTable()
    ensures forall j :: 0 <= j < 9 ==>
      Declared(ItemBody(j), OnAfter(Offset(Right))) == AfterRights[j]
  {
    forall j | 0 <= j < 9
      ensures Declared(ItemBody(j), OnAfter(Offset(Right))) == AfterRights[j]
    {
      match j
      case 7 => LastCoveringWins(OverhangBody().after.value, Offset(Right), 7);
      case 8 => LastCoveringWins(OverhangLastColBody().after.value, Offset(Right), 0);
      case _ =>
    }
  }

  /**
   * Under an item with nothing below, the extra border reaches half a
   * border past its right edge, except in the last column, where it stops
   * at the grid's edge.
   */
  lemma AfterRightOffset(cols: int, target: Target, i: int, total: int)
    requires cols >= 1 && 1 <= i <= total
    ensures Computed(ItemRules(cols, target), i, total, OnAfter(Offset(Right)))
         == if Overhangs(i, total, cols) && Col(i, cols) == cols - 1 then Some("0")
            else if Overhangs(i, total, cols) then Some(MinusHalfBorder) else None
  {
    AfterRightTable();
    if Overhangs(i, total, cols) {
      LastRegionWins(cols, target, i, total, OnAfter(Offset(Right)), AfterRights, if Col(i, cols) == cols - 1 then 8 else 7);
    } else {
      NoRegionDeclares(cols, target, i, total, OnAfter(Offset(Right)));
    }
  }

  // ------------------------------------------------ responsive variants

  /** A bid of strictly lower specificity written after the winner leaves it in place. */
  lemma LowerBidLoses(prev: seq<Bid>, b: Bid, w: Winner)
    requires Resolve(prev) == Some(w) && b.specificity < w.specificity
    ensures Resolve(prev + [b]) == Some(w)
  {
    assert (prev + [b])[..|prev|] == prev;
  }

  /**
   * Bids written after a winner, all of strictly lower specificity, leave
   * the winner in place.
   */
  lemma {:induction false} LowerBidsLose(prev: seq<Bid>, next: seq<Bid>, w: Winner)
    requires Resolve(prev) == Some(w)
    requires forall j :: 0 <= j < |next| ==> next[j].specificity < w.specificity
    ensures Resolve(prev + next) == Some(w)
    decreases |next|
  {
    if next == [] {
      assert prev + next == prev;
    } else {
      var shorter := next[..|next| - 1];
      LowerBidsLose(prev, shorter, w);
      assert prev + next == (prev + shorter) + [next[|next| - 1]];
      LowerBidLoses(prev + shorter, next[|next| - 1], w);
    }
  }

  /**
   * A ruleset written after another whose rules all have a strictly lower
   * specificity changes nothing the earlier ruleset sets: order cannot make
   * up for specificity.
   */
  lemma LowerRulesetLoses(prev: seq<ItemRule>, next: seq<ItemRule>, i: int, total: int, slot: Slot, specificity: nat)
    requires forall j :: 0 <= j < |prev| ==> Specificity(prev[j].selector) == specificity
    requires forall j :: 0 <= j < |next| ==> Specificity(next[j].selector) < specificity
    requires Computed(prev, i, total, slot).Some?
    ensures Computed(prev + next, i, total, slot) == Computed(prev, i, total, slot)
  {
    var before := Bids(prev, i, total, slot);
    var after := Bids(next, i, total, slot);
    BidsOfAppend(prev, next, i, total, slot);
    var w := Resolve(before).value;
    assert w.specificity == specificity;
    LowerBidsLose(before, after, w);
  }

  /**
   * A `grid-inner` object emitted after another (a responsive variant such
   * as `md:grid-inner-3` after `grid-inner-2`, both under one `target`)
   * decides every slot one of its rules sets for the item: the earlier
   * object no longer shows, whatever edge case the item was before. As
   * written, this holds except for a later `none` in legacy mode.
   */
  lemma BreakpointOverride(prev: string, next: string, target: Target, i: int, total: int, slot: Slot)
    requires target == Modern || ParseValue(next) != Reset
    requires SetsSlot(GridInner(next, target).items, i, total, slot)
    ensures Computed(GridInner(prev, target).items + GridInner(next, target).items, i, total, slot)
         == Computed(GridInner(next, target).items, i, total, slot)
  {
    ObjectRulesTie(prev, target);
    ObjectRulesTie(next, target);
    LaterRulesetOverrides(GridInner(prev, target).items, GridInner(next, target).items, i, total, slot, Equalized(target));
  }

  /** With the corrected `none` rule, a later object decides every slot it sets, `none` included. */
  lemma BreakpointOverrideCorrected(prev: string, next: string, target: Target, i: int, total: int, slot: Slot)
    requires SetsSlot(GridInnerCorrected(next, target).items, i, total, slot)
    ensures Computed(GridInnerCorrected(prev, target).items + GridInnerCorrected(next, target).items, i, total, slot)
         == Computed(GridInnerCorrected(next, target).items, i, total, slot)
  {
    CorrectedRulesTie(prev, target);
    CorrectedRulesTie(next, target);
    LaterRulesetOverrides(GridInnerCorrected(prev, target).items, GridInnerCorrected(next, target).items,
                          i, total, slot, Equalized(target));
  }

  /** A single rule that matches the item and declares the slot gives it its value. */
  lemma SingleRuleGives(rule: ItemRule, i: int, total: int, slot: Slot)
    requires Matches(rule.selector, i, total) && Declared(rule.body, slot).Some?
    ensures SetsSlot([rule], i, total, slot)
    ensures Computed([rule], i, total, slot) == Declared(rule.body, slot)
  {
    var bids := Bids([rule], i, total, slot);
    assert bids[0].applies;
    LastApplyingWins(bids, bids[0].specificity, 0);
  }

  /** The `none` body zeroes each margin and border width and hides `::after`. */
  lemma ResetBodyDeclares(side: Side)
    ensures Declared(ResetBody(), OnItem(Longhand(Margin, side))) == Some("0px")
    ensures Declared(ResetBody(), OnItem(Longhand(BorderWidth, side))) == Some("0px")
    ensures Declared(ResetBody(), OnAfter(Display)) == Some("none")
  {
    LastCoveringWins(ResetBody().decls, Longhand(Margin, side), 0);
    LastCoveringWins(ResetBody().decls, Longhand(BorderWidth, side), 1);
    LastCoveringWins(ResetBody().after.value, Display, 0);
  }

  /**
   * What the `none` object, as written and corrected, gives an item on its
   * own: no margins, no borders, no `::after`.
   */
  lemma ResetValues(target: Target, i: int, total: int, side: Side)
    requires i >= 1
    ensures Computed(ResetStylesAsWritten(target).items, i, total, OnItem(Longhand(Margin, side))) == Some("0px")
    ensures Computed(ResetStylesAsWritten(target).items, i, total, OnItem(Longhand(BorderWidth, side))) == Some("0px")
    ensures Computed(ResetStylesAsWritten(target).items, i, total, OnAfter(Display)) == Some("none")
    ensures SetsSlot(ResetStylesAsWritten(target).items, i, total, OnItem(Longhand(Margin, side)))
    ensures SetsSlot(ResetStylesAsWritten(target).items, i, total, OnItem(Longhand(BorderWidth, side)))
    ensures SetsSlot(ResetStylesAsWritten(target).items, i, total, OnAfter(Display))
    ensures Computed(ResetStyles(target).items, i, total, OnItem(Longhand(Margin, side))) == Some("0px")
    ensures Computed(ResetStyles(target).items, i, total, OnItem(Longhand(BorderWidth, side))) == Some("0px")
    ensures Computed(ResetStyles(target).items, i, total, OnAfter(Display)) == Some("none")
    ensures SetsSlot(ResetStyles(target).items, i, total, OnItem(Longhand(Margin, side)))
    ensures SetsSlot(ResetStyles(target).items, i, total, OnItem(Longhand(BorderWidth, side)))
    ensures SetsSlot(ResetStyles(target).items, i, total, OnAfter(Display))
  {
    var written := ResetStylesAsWritten(target).items[0];
    assert ResetStylesAsWritten(target).items == [written];
    EqualizedKeepsMatches(target, AllItems(), 4, i, total);
    ResetRuleValues(written, i, total, side);
    var corrected := ResetStyles(target).items[0];
    assert ResetStyles(target).items == [corrected];
    EqualizedKeepsMatches(target, AllItems(), 5, i, total);
    ResetRuleValues(corrected, i, total, side);
  }

  /** A lone rule with the `none` body that matches the item gives it the reset values. */
  lemma ResetRuleValues(rule: ItemRule, i: int, total: int, side: Side)
    requires rule.body == ResetBody() && Matches(rule.selector, i, total)
    ensures Computed([rule], i, total, OnItem(Longhand(Margin, side))) == Some("0px")
    ensures Computed([rule], i, total, OnItem(Longhand(BorderWidth, side))) == Some("0px")
    ensures Computed([rule], i, total, OnAfter(Display)) == Some("none")
    ensures SetsSlot([rule], i, total, OnItem(Longhand(Margin, side)))
    ensures SetsSlot([rule], i, total, OnItem(Longhand(BorderWidth, side)))
    ensures SetsSlot([rule], i, total, OnAfter(Display))
  {
    ResetBodyDeclares(side);
    SingleRuleGives(rule, i, total, OnItem(Longhand(Margin, side)));
    SingleRuleGives(rule, i, total, OnItem(Longhand(BorderWidth, side)));
    SingleRuleGives(rule, i, total, OnAfter(Display));
  }

  /**
   * With the corrected `none` rule, `grid-inner-none` after any `grid-inner`
   * object, under either target, takes every item's margins and borders to
   * zero and hides its `::after`.
   */
  lemma NoneClearsGrid(prev: string, target: Target, i: int, total: int, side: Side)
    requires i >= 1
    ensures Computed(GridInnerCorrected(prev, target).items + GridInnerCorrected("none", target).items,
                     i, total, OnItem(Longhand(Margin, side)))
         == Some("0px")
    ensures Computed(GridInnerCorrected(prev, target).items + GridInnerCorrected("none", target).items,
                     i, total, OnItem(Longhand(BorderWidth, side)))
         == Some("0px")
    ensures Computed(GridInnerCorrected(prev, target).items + GridInnerCorrected("none", target).items,
                     i, total, OnAfter(Display))
         == Some("none")
  {
    assert GridInnerCorrected("none", target) == ResetStyles(target);
    ResetValues(target, i, total, side);
    BreakpointOverrideCorrected(prev, "none", target, i, total, OnItem(Longhand(Margin, side)));
    BreakpointOverrideCorrected(prev, "none", target, i, total, OnItem(Longhand(BorderWidth, side)));
    BreakpointOverrideCorrected(prev, "none", target, i, total, OnAfter(Display));
  }

  /** As written, `grid-inner-none` in modern mode clears the grid of any object before it. */
  lemma NoneClearsGridModern(prev: string, i: int, total: int, side: Side)
    requires i >= 1
    ensures Computed(GridInner(prev, Modern).items + GridInner("none", Modern).items, i, total, OnItem(Longhand(Margin, side)))
         == Some("0px")
    ensures Computed(GridInner(prev, Modern).items + GridInner("none", Modern).items, i, total, OnItem(Longhand(BorderWidth, side)))
         == Some("0px")
    ensures Computed(GridInner(prev, Modern).items + GridInner("none", Modern).items, i, total, OnAfter(Display))
         == Some("none")
  {
    assert GridInner("none", Modern) == ResetStylesAsWritten(Modern);
    AsWrittenAgreesInModern();
    ResetValues(Modern, i, total, side);
    BreakpointOverride(prev, "none", Modern, i, total, OnItem(Longhand(Margin, side)));
    BreakpointOverride(prev, "none", Modern, i, total, OnItem(Longhand(BorderWidth, side)));
    BreakpointOverride(prev, "none", Modern, i, total, OnAfter(Display));
  }

  // --------------------------------------- the `none` rule's padding as written

  /** With `:where()`, the padding count is irrelevant: both `none` objects are one. */
  lemma AsWrittenAgreesInModern()
    ensures ResetStylesAsWritten(Modern) == ResetStyles(Modern)
  {
  }

  /** On its own, the `none` rule as written zeroes the lone item's right border. */
  lemma ResetAsWrittenAlone()
    ensures Specificity(ResetStylesAsWritten(Legacy).items[0].selector) == 5
    ensures Computed(ResetStylesAsWritten(Legacy).items, 1, 1, OnItem(Longhand(BorderWidth, Right))) == Some("0px")
  {
    var rule := ResetStylesAsWritten(Legacy).items[0];
    assert ResetStylesAsWritten(Legacy).items == [rule];
    PadKeepsMatches(AllItems(), 4, 1, 1);
    ResetBodyDeclares(Right);
    SingleRuleGives(rule, 1, 1, OnItem(Longhand(BorderWidth, Right)));
  }

  /** A column count written as a numeral gives that many columns' item rules. */
  lemma NumeralItemRules(cols: int, target: Target)
    requires cols != 0
    ensures GridInner(Text.IntToString(cols), target).items == ItemRules(cols, target)
  {
    ParseColumnsValue(cols);
  }

  /** With two or more columns a lone item is not in the last column, so it keeps a half right border. */
  lemma LoneItemRightBorder(cols: int, target: Target)
    requires cols >= 2
    ensures Computed(ItemRules(cols, target), 1, 1, OnItem(Longhand(BorderWidth, Right))) == Some(HalfBorder)
  {
    assert Col(1, cols) == 0;
    RightBorder(cols, target, 1, 1);
  }

  /**
   * In legacy mode the `none` rule as written never overrides a value an
   * earlier ruleset at the equalized specificity sets.
   */
  lemma ResetAsWrittenNeverOverrides(prev: seq<ItemRule>, i: int, total: int, slot: Slot)
    requires forall j :: 0 <= j < |prev| ==> Specificity(prev[j].selector) == Equalized(Legacy)
    requires Computed(prev, i, total, slot).Some?
    ensures Computed(prev + ResetStylesAsWritten(Legacy).items, i, total, slot) == Computed(prev, i, total, slot)
  {
    var next := ResetStylesAsWritten(Legacy).items;
    assert Specificity(next[0].selector) == 5;
    LowerRulesetLoses(prev, next, i, total, slot, Equalized(Legacy));
  }

  /**
   * In legacy mode the `none` rule as written (`allItems` padded 4 times)
   * reaches specificity 5, one short of the 6 of every other item rule. So
   * `grid-inner-none` at a breakpoint does not clear the borders of the
   * object before it: in a grid of two or more columns with one item, the
   * item keeps its half right border, which the `none` rule alone sets to
   * `0px`.
   */
  lemma ResetAsWrittenLoses(cols: int)
    requires cols >= 2
    ensures Computed(GridInner(Text.IntToString(cols), Legacy).items + GridInner("none", Legacy).items,
                     1, 1, OnItem(Longhand(BorderWidth, Right)))
         == Some(HalfBorder)
  {
    assert GridInner("none", Legacy) == ResetStylesAsWritten(Legacy);
    NumeralItemRules(cols, Legacy);
    LoneItemRightBorder(cols, Legacy);
    ItemRulesTie(cols, Legacy);
    ResetAsWrittenNeverOverrides(ItemRules(cols, Legacy), 1, 1, OnItem(Longhand(BorderWidth, Right)));
  }
}
