/**
 * The fragment of CSS selector syntax the plugin writes: tree-structural
 * pseudo-classes over `an+b` formulas, `:not()`, `:where()`, compound
 * selectors (juxtaposition) and the general-sibling combinator `~ *`.
 * A selector is matched against a child by its 1-based position among its
 * `total` siblings.
 */
module Selectors {
  import opened Text
  import Grid

  /** The three spellings of an `an+b` argument that appear in the plugin. */
  datatype NthArg =
    | EveryN                                     // `n`
    | UpTo(bound: int)                           // `-n + bound`
    | Step(step: int, offset: int, spaced: bool) // `{step}n + {offset}` or `{step}n+{offset}`

  function A(x: NthArg): int {
    match x
    case EveryN => 1
    case UpTo(_) => -1
    case Step(step, _, _) => step
  }

  function B(x: NthArg): int {
    match x
    case EveryN => 0
    case UpTo(bound) => bound
    case Step(_, offset, _) => offset
  }

  datatype Selector =
    | NthChild(arg: NthArg)
    | NthLastChild(arg: NthArg)
    | LastChild
    | Not(negated: Selector)
    | Where(inner: Selector)
    | And(left: Selector, right: Selector)  // written one after the other
    | LaterSiblingOf(anchor: Selector)      // `anchor ~ *`

  function ArgText(x: NthArg): string {
    match x
    case EveryN => "n"
    case UpTo(bound) => "-n + " + IntToString(bound)
    case Step(step, offset, spaced) =>
      IntToString(step) + "n" + (if spaced then " + " else "+") + IntToString(offset)
  }

  /** The selector text the plugin builds by string concatenation. */
  function Render(s: Selector): string {
    match s
    case NthChild(x) => ":nth-child(" + ArgText(x) + ")"
    case NthLastChild(x) => ":nth-last-child(" + ArgText(x) + ")"
    case LastChild => ":last-child"
    case Not(t) => ":not(" + Render(t) + ")"
    case Where(t) => ":where(" + Render(t) + ")"
    case And(l, r) => Render(l) + Render(r)
    case LaterSiblingOf(t) => Render(t) + " ~ *"
  }

  /** A selector with no combinator at its top level: one compound selector. */
  predicate IsCompound(s: Selector) {
    match s
    case And(l, r) => IsCompound(l) && IsCompound(r)
    case LaterSiblingOf(_) => false
    case _ => true
  }

  /**
   * Appending text after a selector intersects what it matches only when the
   * appended part is itself compound: `x ~ *:a` constrains the `*`, but
   * `:a` followed by `x ~ *` would not mean "both". Every `And` the plugin
   * builds has a compound right-hand side.
   */
  predicate WellFormed(s: Selector) {
    match s
    case NthChild(_) => true
    case NthLastChild(_) => true
    case LastChild => true
    case Not(t) => WellFormed(t)
    case Where(t) => WellFormed(t)
    case And(l, r) => WellFormed(l) && WellFormed(r) && IsCompound(r)
    case LaterSiblingOf(t) => WellFormed(t)
  }

  function Term(a: int, n: int, b: int): int {
    a * n + b
  }

  /** Decides whether `p == a*n + b` for some `n >= 0`. */
  predicate AnPlusB(a: int, b: int, p: int) {
    if a > 0 then p >= b && (p - b) % a == 0
    else if a == 0 then p == b
    else p <= b && (b - p) % (-a) == 0
  }

  /** Each position `AnPlusB` accepts is `a*n + b` for some `n >= 0`. */
  lemma AnPlusBWitness(a: int, b: int, p: int)
    requires AnPlusB(a, b, p)
    ensures exists n: nat :: p == Term(a, n, b)
  {
    if a > 0 {
      var n := (p - b) / a;
      assert p == Term(a, n, b);
    } else if a == 0 {
      assert p == Term(a, 0, b);
    } else {
      var n := (b - p) / (-a);
      assert b - p == (-a) * n;
      assert p == Term(a, n, b);
    }
  }

  /** Each `a*n + b` with `n >= 0` is accepted by `AnPlusB`. */
  lemma AnPlusBOfTerm(a: int, b: int, n: nat)
    ensures AnPlusB(a, b, Term(a, n, b))
  {
    var p := Term(a, n, b);
    if a > 0 {
      Grid.DivModUnique(p - b, a, n, 0);
    } else if a < 0 {
      assert b - p == (-a) * n;
      Grid.DivModUnique(b - p, -a, n, 0);
    }
  }

  /** `AnPlusB` is the meaning of `an+b` given in CSS Syntax Level 3, section 6 (the An+B microsyntax). */
  lemma AnPlusBMeaning(a: int, b: int, p: int)
    ensures AnPlusB(a, b, p) <==> exists n: nat :: p == Term(a, n, b)
  {
    if AnPlusB(a, b, p) {
      AnPlusBWitness(a, b, p);
    }
    if exists n: nat :: p == Term(a, n, b) {
      var n: nat :| p == Term(a, n, b);
      AnPlusBOfTerm(a, b, n);
    }
  }

  /** Whether the child at 1-based position `p` of `total` siblings matches `s`. */
  predicate Matches(s: Selector, p: int, total: int) {
    match s
    case NthChild(x) => AnPlusB(A(x), B(x), p)
    case NthLastChild(x) => AnPlusB(A(x), B(x), total - p + 1)
    case LastChild => p == total
    case Not(t) => !Matches(t, p, total)
    case Where(t) => Matches(t, p, total)
    case And(l, r) => Matches(l, p, total) && Matches(r, p, total)
    case LaterSiblingOf(t) => exists q | 1 <= q < p :: Matches(t, q, total)
  }

  /**
   * The middle (class, attribute and pseudo-class) component of a
   * selector's specificity, per CSS Selectors Level 4, section 17:
   * each tree-structural pseudo-class counts one, `:not()` counts as its
   * argument, `:where()` counts nothing and `*` counts nothing. No selector
   * here has an id or a type selector, so the other two components are 0.
   */
  function Specificity(s: Selector): nat {
    match s
    case NthChild(_) => 1
    case NthLastChild(_) => 1
    case LastChild => 1
    case Not(t) => Specificity(t)
    case Where(_) => 0
    case And(l, r) => Specificity(l) + Specificity(r)
    case LaterSiblingOf(t) => Specificity(t)
  }
}
