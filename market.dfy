/**
 * The market page: the outcome options 0..10, the linear price rule
 * `costFor`, and the single `selected` state cell together with the values
 * derived from it (the highlighted option, the selection text, the total
 * cost and whether the Place Bet button is disabled). Amounts are cents.
 */
module Market {
  import opened Wrappers
  import Decimal

  /**
   * `Array.from({ length: 11 }, (_, x) => x)`: bet on 0 to 10 "Yes" answers.
   * The options are exactly the whole numbers 0..10, in ascending order.
   */
  function Options(): (r: seq<int>)
    ensures forall x :: x in r <==> 0 <= x <= 10
    ensures forall i, j :: 0 <= i < j < |r| ==> r[i] < r[j]
  {
    var r := seq(11, x => x);
    forall x | 0 <= x <= 10 ensures x in r {
      assert r[x] == x;
    }
    r
  }

  /**
   * `costFor(x) = +(0.1 * x).toFixed(2)`: ten cents per "Yes".
   * The product is taken over exact reals.
   */
  function CostFor(x: int): (c: int)
    ensures c == 10 * x
  {
    var dollars := 0.1 * (x as real);
    Decimal.ToFixed2RoundTrip(dollars);
    Decimal.ParseCents(Decimal.ToFixed2(dollars)).value
  }

  /** The cheapest option is free, the dearest costs $1.00, and the price rises with x. */
  lemma CostForShape(x: int, y: int)
    requires x < y
    ensures CostFor(0) == 0 && CostFor(10) == 100
    ensures CostFor(x) < CostFor(y)
  {
  }

  /**
   * `selected === x`: whether the button for option x is highlighted. A
   * highlighted option is the one the total charges for, and the Place Bet
   * button is enabled while it is highlighted.
   */
  predicate Active(selected: Option<int>, x: int): (b: bool)
    ensures b ==> !BetDisabled(selected) && TotalCost(selected) == CostFor(x)
    ensures b ==> SelectionText(selected) != "None"
  {
    selected == Some(x)
  }

  /** The options in `xs` whose button is highlighted. */
  function ActiveAmong(selected: Option<int>, xs: seq<int>): (r: seq<int>)
    ensures forall x :: x in r <==> x in xs && Active(selected, x)
  {
    if xs == [] then []
    else (if Active(selected, xs[0]) then [xs[0]] else []) + ActiveAmong(selected, xs[1..])
  }

  /** With no selection nothing is highlighted; with a selection only that option is. */
  lemma {:induction false} ActiveAmongDistinct(selected: Option<int>, xs: seq<int>)
    requires forall i, j :: 0 <= i < j < |xs| ==> xs[i] != xs[j]
    ensures ActiveAmong(selected, xs) == if selected.Some? && selected.value in xs then [selected.value] else []
  {
    if xs != [] {
      ActiveAmongDistinct(selected, xs[1..]);
      if Active(selected, xs[0]) {
        assert xs[0] !in xs[1..] by {
          forall k | 0 <= k < |xs[1..]| ensures xs[1..][k] != xs[0] { assert xs[1..][k] == xs[k + 1]; }
        }
      } else {
        assert selected.Some? && selected.value in xs ==> selected.value in xs[1..] by {
          if selected.Some? && selected.value in xs {
            var k :| 0 <= k < |xs| && xs[k] == selected.value;
            assert k != 0 && xs[1..][k - 1] == xs[k];
          }
        }
      }
    }
  }

  /** Exactly the selected option is highlighted, and none when nothing is selected. */
  lemma ExactlyOneActive(selected: Option<int>)
    requires selected.Some? ==> selected.value in Options()
    ensures ActiveAmong(selected, Options()) == if selected.Some? then [selected.value] else []
  {
    ActiveAmongDistinct(selected, Options());
  }

  /**
   * "Your Selection": `None`, or the numeral of the selected option followed
   * by " Yes".
   */
  function SelectionText(selected: Option<int>): (s: string)
    ensures s == "None" <==> selected.None?
    ensures selected.Some? ==> |s| > 4 && s[|s| - 4..] == " Yes"
    ensures selected.Some? && selected.value >= 0 ==>
      && Decimal.AllDigits(s[..|s| - 4]) && Decimal.DigitsValue(s[..|s| - 4]) == selected.value
      && (s[0] == '0' ==> selected.value == 0 && s == "0 Yes")
    ensures selected.Some? && selected.value < 0 ==>
      && s[0] == '-' && Decimal.AllDigits(s[1..|s| - 4]) && Decimal.DigitsValue(s[1..|s| - 4]) == -selected.value
      && s[1] != '0'
  {
    match selected
    case None => "None"
    case Some(x) =>
      var t := Decimal.IntText(x) + " Yes";
      assert t[|t| - 4..] == " Yes";
      if x >= 0 then
        assert t[..|t| - 4] == Decimal.NatText(x);
        Decimal.NatTextRoundTrip(x);
        t
      else
        assert t[1..|t| - 4] == Decimal.NatText(-x);
        Decimal.NatTextRoundTrip(-x);
        t
  }

  /** The amount under "Total Cost", in cents. */
  function TotalCost(selected: Option<int>): (c: int)
    ensures selected.None? ==> c == 0
    ensures selected.Some? ==> c == CostFor(selected.value) == 10 * selected.value
  {
    match selected
    case None => 0
    case Some(x) => CostFor(x)
  }

  /**
   * The text under "Total Cost": `'0.00'`, or `costFor(selected).toFixed(2)`.
   * It reads back as the total cost.
   */
  function TotalCostText(selected: Option<int>): (t: string)
    ensures Decimal.ParseCents(t) == Some(TotalCost(selected))
    ensures selected.None? ==> t == "0.00"
    ensures selected.Some? && selected.value >= 0 ==> t == Decimal.CentsText(10 * selected.value)
    ensures selected.Some? && selected.value < 0 ==> t == "-" + Decimal.CentsText(-10 * selected.value)
  {
    if selected.None? then
      NoCostText();
      "0.00"
    else
      var c := CostFor(selected.value);
      CostText(selected.value, c);
      Decimal.ToFixed2(c as real / 100.0)
  }

  /** The text shown before anything is selected reads back as no cost. */
  lemma NoCostText()
    ensures Decimal.ParseCents("0.00") == Some(0)
  {
    Decimal.SignedCentsRoundTrip(0);
    assert Decimal.CentsText(0) == "0.00";
  }

  /** Printing `c = 10 * x` cents with `toFixed(2)`: ten cents per "Yes", which read back. */
  lemma CostText(x: int, c: int)
    requires c == 10 * x
    ensures Decimal.ParseCents(Decimal.ToFixed2(c as real / 100.0)) == Some(10 * x)
    ensures x >= 0 ==> Decimal.ToFixed2(c as real / 100.0) == Decimal.CentsText(10 * x)
    ensures x < 0 ==> Decimal.ToFixed2(c as real / 100.0) == "-" + Decimal.CentsText(-10 * x)
  {
    Decimal.WholeCentsReadBack(c);
    Decimal.WholeCentsText(c, if x < 0 then -10 * x else 10 * x);
  }


  /**
   * `disabled={selected === null}` on the Place Bet button: disabled exactly
   * while the selection reads "None", and then nothing is charged.
   */
  predicate BetDisabled(selected: Option<int>): (d: bool)
    ensures d <==> SelectionText(selected) == "None"
    ensures d ==> TotalCost(selected) == 0
  {
    selected.None?
  }

  /**
   * The page state: the `selected` cell of `useState`, initially null and
   * overwritten with an option when its button is clicked.
   */
  class Page {
    var selected: Option<int>

    constructor ()
      ensures selected == None
      ensures BetDisabled(selected) && ActiveAmong(selected, Options()) == []
      ensures SelectionText(selected) == "None" && TotalCostText(selected) == "0.00"
    {
      selected := None;
      ExactlyOneActive(None);
    }

    /** `onClick={() => setSelected(x)}` on the button of option x. */
    method Click(x: int)
      requires x in Options()
      modifies this
      ensures selected == Some(x)
      ensures !BetDisabled(selected) && ActiveAmong(selected, Options()) == [x]
      ensures TotalCost(selected) == 10 * x
    {
      selected := Some(x);
      ExactlyOneActive(selected);
    }
  }
}
