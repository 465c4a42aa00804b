/**
 * The `grid-inner` value callback: from a utility value (`"3"`, `"3,4"`,
 * `"none"`) to the CSS-in-JS object Tailwind serialises. The object is a
 * list of wrapper declarations followed by the item rules, each keyed
 * `& > <selector>`, in the order the callback writes them. CSS values stay
 * opaque strings.
 */
module Styles {
  import opened Wrappers
  import opened Text
  import opened Selectors
  import opened Structural
  import opened Equalize
  import opened Keys

  const BorderCustomVarName := "--tw-grid-inner-border-custom"
  const BorderVarName := "--tw-grid-inner-border"

  // Values that mention the border variable, spelled as the callback writes them.
  const BorderVarWithDefault := "var(--tw-grid-inner-border-custom, 2px)"
  const HalfBorder := "calc(var(--tw-grid-inner-border) / 2)"
  const MinusHalfBorder := "calc(var(--tw-grid-inner-border) / -2)"
  const WrapperMargin := "calc(var(--tw-grid-inner-border)/-2)"
  const EdgeMargin := "calc(var(--tw-grid-inner-border)/2)"
  const PastFarEdge := "calc(100% + var(--tw-grid-inner-border) / 2)"

  /** The properties that have a shorthand setting all four sides. */
  datatype Box = Margin | BorderWidth | BorderColor | BorderStyle

  datatype Side = Top | Right | Bottom | Left

  /**
   * The properties the callback writes: `Shorthand(BorderWidth)` is
   * `borderWidth`, `Longhand(BorderWidth, Top)` is `borderTopWidth` and
   * `Offset(Left)` is the inset property `left`.
   */
  datatype Prop =
    | BorderCustomVar | BorderVar
    | Display | Gap | GridTemplateColumns | GridColumn | Position | Content
    | Shorthand(box: Box) | Longhand(box: Box, side: Side) | Offset(side: Side)

  function SideName(side: Side): string {
    match side
    case Top => "Top"
    case Right => "Right"
    case Bottom => "Bottom"
    case Left => "Left"
  }

  /** The camel-case key of a box property, `sideName` being empty for the shorthand. */
  function BoxName(box: Box, sideName: string): string {
    match box
    case Margin => "margin" + sideName
    case BorderWidth => "border" + sideName + "Width"
    case BorderColor => "border" + sideName + "Color"
    case BorderStyle => "border" + sideName + "Style"
  }

  /** The property's key in the CSS-in-JS object. */
  function PropName(p: Prop): string {
    match p
    case BorderCustomVar => BorderCustomVarName
    case BorderVar => BorderVarName
    case Display => "display"
    case Gap => "gap"
    case GridTemplateColumns => "gridTemplateColumns"
    case GridColumn => "gridColumn"
    case Position => "position"
    case Content => "content"
    case Shorthand(box) => BoxName(box, "")
    case Longhand(box, side) => BoxName(box, SideName(side))
    case Offset(Top) => "top"
    case Offset(Right) => "right"
    case Offset(Bottom) => "bottom"
    case Offset(Left) => "left"
  }

  datatype Decl = Decl(prop: Prop, value: string)

  /** Declarations for an item, and the nested `'&::after'` object when present. */
  datatype Block = Block(decls: seq<Decl>, after: Option<seq<Decl>>)

  /** One entry `& > <selector>: { ... }` of the returned object. */
  datatype ItemRule = ItemRule(selector: Selector, body: Block)

  datatype StyleObject = StyleObject(wrapper: seq<Decl>, items: seq<ItemRule>)

  // ---------------------------------------------------------------- parsing

  /** A utility value: the reset value `none`, or a column count and an optional border width. */
  datatype Value = Reset | Columns(cols: int, customWidth: Option<int>)

  /** `parseInt(rawCols) || 1`: zero and `NaN` fall back to one column. */
  function ColumnCount(rawCols: string): (cols: int)
    ensures cols != 0
    ensures ParseInt(rawCols).Some? && ParseInt(rawCols).value != 0 ==> cols == ParseInt(rawCols).value
    ensures ParseInt(rawCols).None? || ParseInt(rawCols).value == 0 ==> cols == 1
  {
    match ParseInt(rawCols)
    case Some(n) => if n != 0 then n else 1
    case None => 1
  }

  /**
   * `rawCustomBorderWidth && parseInt(rawCustomBorderWidth)`, kept only when
   * truthy: a missing or empty piece, `NaN` and zero all mean "no override".
   */
  function CustomBorderWidth(raw: Option<string>): (w: Option<int>)
    ensures w.Some? <==> raw.Some? && ParseInt(raw.value).Some? && ParseInt(raw.value).value != 0
    ensures w.Some? ==> w.value == ParseInt(raw.value).value
  {
    match raw
    case None => None
    case Some(text) =>
      if text == "" then None
      else match ParseInt(text)
        case Some(n) => if n != 0 then Some(n) else None
        case None => None
  }

  /** The value is the reset exactly when it is `none`; zero never survives as a count or a width. */
  function ParseValue(value: string): (v: Value)
    ensures v == Reset <==> value == "none"
    ensures v.Columns? ==> v.cols != 0 && (v.customWidth.Some? ==> v.customWidth.value != 0)
  {
    if value == "none" then Reset
    else
      var pieces := Split(value, ',');
      Columns(ColumnCount(pieces[0]), CustomBorderWidth(if |pieces| > 1 then Some(pieces[1]) else None))
  }

  // ---------------------------------------------------------- border width

  /** `Math.round(w / 2)`: the integer nearest to `w / 2`, halves rounded up. */
  function RoundHalf(w: int): (r: int)
    ensures 2 * r - 1 <= w < 2 * r + 1
  {
    (w + 1) / 2
  }

  /** `Math.abs(2 * Math.round(w / 2))`: the border width in pixels. */
  function BorderPx(w: int): (px: nat)
    ensures px % 2 == 0
    ensures px == if w % 2 == 0 then Abs(w) else Abs(w + 1)
  {
    Abs(2 * RoundHalf(w))
  }

  function Abs(n: int): nat {
    if n < 0 then -n else n
  }

  // ------------------------------------------------------------ the object

  function WrapperDecls(cols: int, customWidth: Option<int>): seq<Decl> {
    (if customWidth.Some? then [Decl(BorderCustomVar, IntToString(BorderPx(customWidth.value)) + "px")] else [])
    + [ Decl(BorderVar, BorderVarWithDefault),
        Decl(Display, "grid"),
        Decl(Gap, "0px"),
        Decl(GridTemplateColumns, "repeat(" + IntToString(cols) + ",minmax(0,1fr))"),
        Decl(Longhand(Margin, Left), WrapperMargin),
        Decl(Longhand(Margin, Right), WrapperMargin) ]
  }

  function AllItemsBody(): Block {
    Block([ Decl(Shorthand(Margin), "0px"), Decl(Shorthand(BorderWidth), HalfBorder), Decl(Shorthand(BorderColor), "inherit"),
            Decl(Shorthand(BorderStyle), "inherit"), Decl(GridColumn, "span 1 / span 1") ],
          Some([Decl(Display, "none")]))
  }

  function FirstRowBody(): Block {
    Block([Decl(Longhand(BorderWidth, Top), "0px")], None)
  }

  function LastRowBody(): Block {
    Block([Decl(Longhand(BorderWidth, Bottom), "0px")], None)
  }

  function FirstColBody(): Block {
    Block([Decl(Longhand(BorderWidth, Left), "0px"), Decl(Longhand(Margin, Left), EdgeMargin)], None)
  }

  function LastColBody(): Block {
    Block([Decl(Longhand(BorderWidth, Right), "0px"), Decl(Longhand(Margin, Right), EdgeMargin)], None)
  }

  /** A second half-border drawn just right of the last item. */
  function LastIfNotLastColBody(): Block {
    Block([Decl(Position, "relative")],
          Some([ Decl(Content, "''"), Decl(Longhand(BorderWidth, Left), HalfBorder), Decl(Longhand(BorderStyle, Left), "inherit"),
                 Decl(Longhand(BorderColor, Left), "inherit"), Decl(Display, "block"), Decl(Position, "absolute"),
                 Decl(Offset(Left), PastFarEdge), Decl(Offset(Top), MinusHalfBorder), Decl(Offset(Bottom), "0") ]))
  }

  /** A second half-border drawn under an item that has no item below it. */
  function OverhangBody(): Block {
    Block([Decl(Position, "relative")],
          Some([ Decl(Content, "''"), Decl(Longhand(BorderWidth, Top), HalfBorder), Decl(Longhand(BorderStyle, Top), "inherit"),
                 Decl(Longhand(BorderColor, Top), "inherit"), Decl(Display, "block"), Decl(Position, "absolute"),
                 Decl(Offset(Left), MinusHalfBorder), Decl(Offset(Right), MinusHalfBorder), Decl(Offset(Top), PastFarEdge) ]))
  }

  function OverhangLastColBody(): Block {
    Block([], Some([Decl(Offset(Right), "0")]))
  }

  /** The declarations of the nine item rules, in rule order. */
  function ItemBody(j: int): Block
    requires 0 <= j < 9
  {
    match j
    case 0 => AllItemsBody()
    case 1 => FirstRowBody()
    case 2 => LastRowBody()
    case 3 => LastRowBody()
    case 4 => FirstColBody()
    case 5 => LastColBody()
    case 6 => LastIfNotLastColBody()
    case 7 => OverhangBody()
    case _ => OverhangLastColBody()
  }

  /**
   * The item rules of a column-count value, in the order they are written:
   * the `j`-th structural selector, equalized, with the `j`-th body.
   */
  function ItemRules(cols: int, target: Target): (rules: seq<ItemRule>)
    ensures |rules| == 9
  {
    seq(9, j requires 0 <= j < 9 => ItemRule(ItemSelector(cols, target, j), ItemBody(j)))
  }

  function ColumnStyles(cols: int, customWidth: Option<int>, target: Target): StyleObject {
    StyleObject(WrapperDecls(cols, customWidth), ItemRules(cols, target))
  }

  function ResetBody(): Block {
    Block([ Decl(Shorthand(Margin), "0px"), Decl(Shorthand(BorderWidth), "0px"), Decl(Shorthand(BorderColor), "currentcolor"),
            Decl(Shorthand(BorderStyle), "solid"), Decl(GridColumn, "auto") ],
          Some([Decl(Display, "none")]))
  }

  /**
   * The `none` object as written: its item rule is padded with 4 copies of
   * `:nth-child(n)`, reaching specificity 5 in legacy mode.
   */
  function ResetStylesAsWritten(target: Target): (obj: StyleObject)
    ensures |obj.items| == 1
    ensures Specificity(obj.items[0].selector) == if target == Legacy then 5 else 0
  {
    StyleObject([Decl(Longhand(Margin, Left), "0px"), Decl(Longhand(Margin, Right), "0px")],
                [ItemRule(UseWhereOrIncreaseSpecificity(target, AllItems(), 4), ResetBody())])
  }

  /** The `none` object with the padding (5) that ties it with every other item rule at 6. */
  function ResetStyles(target: Target): (obj: StyleObject)
    ensures |obj.items| == 1
    ensures Specificity(obj.items[0].selector) == if target == Legacy then 6 else 0
  {
    StyleObject([Decl(Longhand(Margin, Left), "0px"), Decl(Longhand(Margin, Right), "0px")],
                [ItemRule(UseWhereOrIncreaseSpecificity(target, AllItems(), 5), ResetBody())])
  }

  /** The `grid-inner` callback as written: `none` pads `allItems` 4 times. */
  function GridInner(value: string, target: Target): (obj: StyleObject)
    ensures |obj.items| == if value == "none" then 1 else 9
  {
    match ParseValue(value)
    case Reset => ResetStylesAsWritten(target)
    case Columns(cols, customWidth) => ColumnStyles(cols, customWidth, target)
  }

  /** The `grid-inner` callback with the `none` rule padded 5 times, like every other item rule. */
  function GridInnerCorrected(value: string, target: Target): (obj: StyleObject)
    ensures |obj.items| == if value == "none" then 1 else 9
  {
    match ParseValue(value)
    case Reset => ResetStyles(target)
    case Columns(cols, customWidth) => ColumnStyles(cols, customWidth, target)
  }

  /** The correction changes the object for `none` in legacy mode and nowhere else. */
  lemma CorrectionOnlyForLegacyNone(value: string, target: Target)
    ensures GridInnerCorrected(value, target) == GridInner(value, target)
        <==> !(target == Legacy && ParseValue(value) == Reset)
  {
    if target == Legacy && ParseValue(value) == Reset {
      assert Specificity(GridInner(value, target).items[0].selector) == 5;
      assert Specificity(GridInnerCorrected(value, target).items[0].selector) == 6;
    }
  }

  /** The default `values` table: `1` to `12`, then `none`, each mapping to its own text. */
  function DefaultValues(): seq<(string, string)> {
    seq(12, k requires 0 <= k < 12 => (IntToString(k + 1), IntToString(k + 1))) + [("none", "none")]
  }

  // ---------------------------------------------------------- object keys

  /** The keys of the returned object, in order. */
  function ObjectKeys(obj: StyleObject): seq<string> {
    seq(|obj.wrapper|, k requires 0 <= k < |obj.wrapper| => PropName(obj.wrapper[k].prop))
    + seq(|obj.items|, k requires 0 <= k < |obj.items| => Key(obj.items[k].selector))
  }

  predicate Distinct<T(==)>(xs: seq<T>) {
    forall a, b :: 0 <= a < b < |xs| ==> xs[a] != xs[b]
  }

  // ----------------------------------------------------- parsing lemmas

  lemma NumeralIsNotNone(n: int)
    ensures IntToString(n) != "none"
    ensures ',' !in IntToString(n)
  {
    assert IntToString(n)[0] != 'n';
  }

  /** A numeral value selects that many columns, zero falling back to one. */
  lemma ParseColumnsValue(n: int)
    ensures ParseValue(IntToString(n)) == Columns(if n != 0 then n else 1, None)
  {
    NumeralIsNotNone(n);
    SplitWithoutSeparator(IntToString(n), ',');
    ParseIntOfIntToString(n, []);
    assert IntToString(n) + [] == IntToString(n);
  }

  /** `"<cols>,<width>"` selects the columns and, when non-zero, the border width. */
  lemma ParseColumnsAndWidthValue(n: int, w: int)
    ensures ParseValue(IntToString(n) + "," + IntToString(w))
         == Columns(if n != 0 then n else 1, if w != 0 then Some(w) else None)
  {
    var value := IntToString(n) + "," + IntToString(w);
    NumeralIsNotNone(n);
    NumeralIsNotNone(w);
    assert value[0] == IntToString(n)[0];
    assert value != "none";
    SplitAtFirst(IntToString(n), IntToString(w), ',');
    SplitWithoutSeparator(IntToString(w), ',');
    ParseIntOfIntToString(n, []);
    ParseIntOfIntToString(w, []);
    assert IntToString(n) + [] == IntToString(n);
    assert IntToString(w) + [] == IntToString(w);
  }

  /** A value whose column piece does not parse falls back to one column. */
  lemma UnparseableColumns(value: string)
    requires value != "none" && ParseInt(Split(value, ',')[0]).None?
    ensures ParseValue(value).Columns? && ParseValue(value).cols == 1
  {
  }

  /** The wrapper declares the border variable with its `2px` fallback and a template of `cols` columns. */
  lemma WrapperLayout(cols: int, customWidth: Option<int>)
    ensures var wrapper := WrapperDecls(cols, customWidth);
      && (exists k :: 0 <= k < |wrapper| && wrapper[k] == Decl(BorderVar, BorderVarWithDefault))
      && (exists k :: 0 <= k < |wrapper| &&
            wrapper[k] == Decl(GridTemplateColumns, "repeat(" + IntToString(cols) + ",minmax(0,1fr))"))
  {
    var wrapper := WrapperDecls(cols, customWidth);
    var o := if customWidth.Some? then 1 else 0;
    assert wrapper[o] == Decl(BorderVar, BorderVarWithDefault);
    assert wrapper[o + 3] == Decl(GridTemplateColumns, "repeat(" + IntToString(cols) + ",minmax(0,1fr))");
  }

  /**
   * For any value other than `none`, the wrapper's grid template has as
   * many columns as the item selectors are built for, and the border
   * variable falls back to `2px`.
   */
  lemma ColumnsLayout(value: string, target: Target)
    requires value != "none"
    ensures var cols := ColumnCount(Split(value, ',')[0]);
      var obj := GridInner(value, target);
      && obj.items == ItemRules(cols, target)
      && (exists k :: 0 <= k < |obj.wrapper| && obj.wrapper[k] == Decl(BorderVar, BorderVarWithDefault))
      && (exists k :: 0 <= k < |obj.wrapper| &&
            obj.wrapper[k] == Decl(GridTemplateColumns, "repeat(" + IntToString(cols) + ",minmax(0,1fr))"))
  {
    var v := ParseValue(value);
    assert GridInner(value, target) == ColumnStyles(v.cols, v.customWidth, target);
    WrapperLayout(v.cols, v.customWidth);
  }

  /**
   * The `none` object zeroes the wrapper's side margins and declares
   * nothing else on it: `display` and the grid template stay as an
   * earlier object set them.
   */
  lemma NoneKeepsWrapperLayout(target: Target)
    ensures GridInner("none", target).wrapper == [Decl(Longhand(Margin, Left), "0px"), Decl(Longhand(Margin, Right), "0px")]
    ensures forall k :: 0 <= k < |GridInner("none", target).wrapper| ==>
      GridInner("none", target).wrapper[k].prop !in {Display, GridTemplateColumns}
    ensures |GridInner("none", target).items| == 1
  {
    assert GridInner("none", target) == ResetStylesAsWritten(target);
  }

  // ------------------------------------------------ border width lemmas

  /** Widths 3, 4 and -4 all become a 4px border; 3 and -3 differ because halves round up. */
  lemma BorderWidthExamples()
    ensures WrapperDecls(3, Some(3))[0] == Decl(BorderCustomVar, "4px")
    ensures WrapperDecls(3, Some(4))[0] == Decl(BorderCustomVar, "4px")
    ensures WrapperDecls(3, Some(-4))[0] == Decl(BorderCustomVar, "4px")
    ensures BorderPx(-3) == 2
  {
    assert IntToString(4) == "4";
  }

  /** The wrapper declares the override variable exactly when a width is given, and then first. */
  lemma WrapperCustomVar(cols: int, customWidth: Option<int>)
    ensures var wrapper := WrapperDecls(cols, customWidth);
      (exists k :: 0 <= k < |wrapper| && wrapper[k].prop == BorderCustomVar) <==> customWidth.Some?
    ensures customWidth.Some? ==>
      WrapperDecls(cols, customWidth)[0] == Decl(BorderCustomVar, IntToString(BorderPx(customWidth.value)) + "px")
  {
    var wrapper := WrapperDecls(cols, customWidth);
    if customWidth.Some? {
      assert wrapper[0].prop == BorderCustomVar;
    } else {
      forall k | 0 <= k < |wrapper|
        ensures wrapper[k].prop != BorderCustomVar
      {
        assert k < 6;
      }
    }
  }

  /**
   * The border-width override is emitted exactly when the second piece is a
   * non-zero number, and it is then the first wrapper declaration.
   */
  lemma CustomWidthEmitted(n: int, w: int, target: Target)
    ensures var obj := GridInner(IntToString(n) + "," + IntToString(w), target);
      (exists k :: 0 <= k < |obj.wrapper| && obj.wrapper[k].prop == BorderCustomVar) <==> w != 0
    ensures var obj := GridInner(IntToString(n) + "," + IntToString(w), target);
      w != 0 ==> obj.wrapper[0] == Decl(BorderCustomVar, IntToString(BorderPx(w)) + "px")
  {
    ParseColumnsAndWidthValue(n, w);
    var customWidth := if w != 0 then Some(w) else None;
    assert GridInner(IntToString(n) + "," + IntToString(w), target).wrapper
        == WrapperDecls(if n != 0 then n else 1, customWidth);
    WrapperCustomVar(if n != 0 then n else 1, customWidth);
  }

  // ------------------------------------------------- default values

  /**
   * The default table lists `1` to `12` and `none`, each under its own
   * text; every entry parses to its column count, `none` to the reset.
   */
  lemma DefaultValuesTable()
    ensures |DefaultValues()| == 13
    ensures DefaultValues()[12] == ("none", "none") && ParseValue("none") == Reset
    ensures forall k :: 0 <= k < 12 ==>
      DefaultValues()[k].0 == DefaultValues()[k].1 && ParseValue(DefaultValues()[k].1) == Columns(k + 1, None)
  {
    var table := DefaultValues();
    assert forall k :: 0 <= k < 12 ==> table[k] == (IntToString(k + 1), IntToString(k + 1));
    forall k | 0 <= k < 12
      ensures ParseValue(table[k].1) == Columns(k + 1, None)
    {
      ParseColumnsValue(k + 1);
    }
  }

  /** No two entries of the default table share a name. */
  lemma DefaultNamesDistinct()
    ensures Distinct(seq(13, k requires 0 <= k < 13 => DefaultValues()[k].0))
  {
    var table := DefaultValues();
    forall a, b | 0 <= a < b < 13
      ensures table[a].0 != table[b].0
    {
      if b == 12 {
        NumeralIsNotNone(a + 1);
      } else if table[a].0 == table[b].0 {
        IntToStringInjective(a + 1, b + 1);
      }
    }
  }

  // ---------------------------------------------------------- distinct keys

  /** Wrapper keys are property names, which never start with `&`. */
  lemma PropNameIsNotNested(p: Prop)
    ensures |PropName(p)| >= 3 && PropName(p)[0] != '&'
  {
  }

  /** The properties the wrapper declares, in order. */
  function WrapperProps(customWidth: Option<int>): seq<Prop> {
    (if customWidth.Some? then [BorderCustomVar] else [])
    + [BorderVar, Display, Gap, GridTemplateColumns, Longhand(Margin, Left), Longhand(Margin, Right)]
  }

  lemma WrapperPropsInOrder(cols: int, customWidth: Option<int>)
    ensures |WrapperDecls(cols, customWidth)| == |WrapperProps(customWidth)|
    ensures forall k :: 0 <= k < |WrapperProps(customWidth)| ==>
      WrapperDecls(cols, customWidth)[k].prop == WrapperProps(customWidth)[k]
  {
  }

  lemma WrapperNameLengths()
    ensures |PropName(BorderCustomVar)| == 29 && |PropName(BorderVar)| == 22
    ensures |PropName(Display)| == 7 && |PropName(Gap)| == 3 && |PropName(GridTemplateColumns)| == 19
    ensures |PropName(Longhand(Margin, Left))| == 10 && |PropName(Longhand(Margin, Right))| == 11
  {
  }

  /** The length of the name of the `n`-th possible wrapper property, the override variable being the 0th. */
  function WrapperNameLengthAt(n: int): int {
    match n
    case 0 => 29
    case 1 => 22
    case 2 => 7
    case 3 => 3
    case 4 => 19
    case 5 => 10
    case _ => 11
  }

  lemma WrapperNameLengthsDistinct(x: int, y: int)
    requires 0 <= x < y <= 6
    ensures WrapperNameLengthAt(x) != WrapperNameLengthAt(y)
  {
  }

  /** The length of the name of the wrapper's `k`-th property. */
  lemma WrapperNameLength(customWidth: Option<int>, k: int)
    requires 0 <= k < |WrapperProps(customWidth)|
    ensures |PropName(WrapperProps(customWidth)[k])| == WrapperNameLengthAt(if customWidth.Some? then k else k + 1)
  {
    WrapperNameLengths();
    var props := WrapperProps(customWidth);
    var o := if customWidth.Some? then 1 else 0;
    assert customWidth.Some? ==> props[0] == BorderCustomVar;
    assert props[o] == BorderVar && props[o + 1] == Display && props[o + 2] == Gap;
    assert props[o + 3] == GridTemplateColumns;
    assert props[o + 4] == Longhand(Margin, Left) && props[o + 5] == Longhand(Margin, Right);
    assert k < o || k - o in {0, 1, 2, 3, 4, 5};
  }

  /** The wrapper declarations name each property once, under names of different lengths. */
  lemma WrapperNamesDiffer(customWidth: Option<int>, a: int, b: int)
    requires 0 <= a < b < |WrapperProps(customWidth)|
    ensures |PropName(WrapperProps(customWidth)[a])| != |PropName(WrapperProps(customWidth)[b])|
  {
    WrapperNameLength(customWidth, a);
    WrapperNameLength(customWidth, b);
    var o := if customWidth.Some? then 0 else 1;
    WrapperNameLengthsDistinct(a + o, b + o);
  }

  /** Keys of an object whose wrapper names differ in length and whose item keys differ. */
  lemma KeysOfObject(obj: StyleObject)
    requires forall a, b :: 0 <= a < b < |obj.wrapper| ==>
      |PropName(obj.wrapper[a].prop)| != |PropName(obj.wrapper[b].prop)|
    requires forall a, b :: 0 <= a < b < |obj.items| ==>
      Key(obj.items[a].selector) != Key(obj.items[b].selector)
    ensures Distinct(ObjectKeys(obj))
  {
    var names := seq(|obj.wrapper|, k requires 0 <= k < |obj.wrapper| => PropName(obj.wrapper[k].prop));
    var itemKeys := seq(|obj.items|, k requires 0 <= k < |obj.items| => Key(obj.items[k].selector));
    var keys := names + itemKeys;
    assert keys == ObjectKeys(obj);
    forall a, b | 0 <= a < b < |keys|
      ensures keys[a] != keys[b]
    {
      if b < |names| {
        assert |names[a]| != |names[b]|;
      } else if a < |names| {
        PropNameIsNotNested(obj.wrapper[a].prop);
        assert names[a][0] != '&';
        assert itemKeys[b - |names|][0] == '&';
      } else {
        assert itemKeys[a - |names|] != itemKeys[b - |names|];
      }
    }
  }

  lemma ResetKeysDistinct(target: Target)
    ensures Distinct(ObjectKeys(ResetStylesAsWritten(target)))
    ensures Distinct(ObjectKeys(ResetStyles(target)))
  {
    WrapperNameLengths();
    KeysOfObject(ResetStylesAsWritten(target));
    KeysOfObject(ResetStyles(target));
  }

  lemma ColumnKeysDistinct(cols: int, customWidth: Option<int>, target: Target)
    ensures Distinct(ObjectKeys(ColumnStyles(cols, customWidth, target)))
  {
    var obj := ColumnStyles(cols, customWidth, target);
    WrapperPropsInOrder(cols, customWidth);
    forall a, b | 0 <= a < b < |obj.wrapper|
      ensures |PropName(obj.wrapper[a].prop)| != |PropName(obj.wrapper[b].prop)|
    {
      WrapperNamesDiffer(customWidth, a, b);
    }
    ItemKeysDistinct(cols, target);
    KeysOfObject(obj);
  }

  /**
   * No key of the returned object repeats, so no declaration or rule is
   * lost when the object is built: wrapper properties have names of
   * different lengths, item keys start with `&`, and item keys differ
   * from one another.
   */
  lemma ObjectKeysDistinct(value: string, target: Target)
    ensures Distinct(ObjectKeys(GridInner(value, target)))
    ensures Distinct(ObjectKeys(GridInnerCorrected(value, target)))
  {
    match ParseValue(value)
    case Reset => ResetKeysDistinct(target);
    case Columns(cols, customWidth) => ColumnKeysDistinct(cols, customWidth, target);
  }
}
