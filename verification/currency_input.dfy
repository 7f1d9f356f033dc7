/** The currency input widget (`currency-input.ts`): a thousands-separator
    formatter, a digits-only parser, min/max clamping and the focus/blur
    display rules. Values are whole numbers. */
module CurrencyInput {
  import opened Wrappers
  import opened Decimal
  import Seqs

  predicate NotSpace(c: char)
  {
    c != ' '
  }

  /** Inserts one space before every group of three digits counted from the right. */
  function Group(d: string): (r: string)
    decreases |d|
  {
    if |d| <= 3 then d
    else Group(d[..|d| - 3]) + " " + d[|d| - 3..]
  }

  lemma Mod4Shift(k: int)
    requires k >= 0
    ensures (k + 4) % 4 == k % 4
  {
  }

  /** A space sits exactly where a multiple of four characters remains to the
      right of it, every other character is a digit, and the text grows by one
      space per full group of three after the first. */
  lemma {:induction false} GroupShape(d: string)
    requires AllDigits(d)
    ensures var r := Group(d);
            forall i :: 0 <= i < |r| ==> (r[i] == ' ' <==> (|r| - i) % 4 == 0)
    ensures var r := Group(d);
            forall i :: 0 <= i < |r| ==> r[i] == ' ' || IsDigit(r[i])
    ensures |d| >= 1 ==> |Group(d)| == |d| + (|d| - 1) / 3
    decreases |d|
  {
    if |d| > 3 {
      var pre := d[..|d| - 3];
      GroupShape(pre);
      var g := Group(pre);
      var r := Group(d);
      assert r == g + " " + d[|d| - 3..];
      assert |r| == |g| + 4;
      forall i | 0 <= i < |r|
        ensures (r[i] == ' ' <==> (|r| - i) % 4 == 0)
        ensures r[i] == ' ' || IsDigit(r[i])
      {
        if i < |g| {
          assert r[i] == g[i];
          Mod4Shift(|g| - i);
        } else if i > |g| {
          assert r[i] == d[|d| - 3 + (i - |g| - 1)];
        }
      }
    }
  }

  /** Deleting the spaces from a grouped digit string gives the digits back. */
  lemma {:induction false} GroupStripsToDigits(d: string)
    requires AllDigits(d)
    ensures Seqs.Filter(Group(d), NotSpace) == d
    decreases |d|
  {
    if |d| <= 3 {
      Seqs.FilterAll(d, NotSpace);
    } else {
      var pre := d[..|d| - 3];
      DigitsSplit(d);
      GroupStripsToDigits(pre);
      StripJoint(d, Group(pre));
    }
  }

  /** Both sides of the last group's cut are digits, so the last three hold no space. */
  lemma DigitsSplit(d: string)
    requires |d| > 3 && AllDigits(d)
    ensures AllDigits(d[..|d| - 3])
    ensures Seqs.Filter(d[|d| - 3..|d|], NotSpace) == d[|d| - 3..|d|]
  {
    var pre := d[..|d| - 3];
    forall k | 0 <= k < |pre|
      ensures IsDigit(pre[k])
    {
      assert pre[k] == d[k];
    }
    Seqs.FilterAllSlice(d, |d| - 3, |d|, NotSpace);
  }

  /** One more group: with the earlier groups stripped back to the front
      digits and the last three digits free of spaces, the joint space
      disappears and the digits are whole again. */
  lemma StripJoint(d: string, g: string)
    requires |d| > 3
    requires Seqs.Filter(g, NotSpace) == d[..|d| - 3]
    requires Seqs.Filter(d[|d| - 3..|d|], NotSpace) == d[|d| - 3..|d|]
    ensures Seqs.Filter(g + " " + d[|d| - 3..], NotSpace) == d
  {
    var t := d[|d| - 3..];
    assert d[|d| - 3..|d|] == t;
    Seqs.FilterAppend(g + " ", t, NotSpace);
    Seqs.FilterAppend(g, " ", NotSpace);
    assert Seqs.Filter(" ", NotSpace) == [];
    assert d[..|d| - 3] + t == d;
  }

  /** `formatNumber(n)` on a natural: its decimal digits grouped by three. */
  function FormatNat(n: nat): (r: string)
    ensures |r| >= 1 && r[0] != ' ' && r[|r| - 1] != ' '
    ensures forall i :: 0 <= i < |r| ==> (r[i] == ' ' <==> (|r| - i) % 4 == 0)
    ensures forall i :: 0 <= i < |r| ==> r[i] == ' ' || IsDigit(r[i])
    ensures Seqs.Filter(r, NotSpace) == NatToString(n)
  {
    var d := NatToString(n);
    GroupStripsToDigits(d);
    GroupShape(d);
    var r := Group(d);
    assert |r| % 4 != 0 by { NoFullGroup(|d|); }
    r
  }

  /** A grouped text never has a length divisible by four, so it never starts with a space. */
  lemma NoFullGroup(n: nat)
    requires n >= 1
    ensures (n + (n - 1) / 3) % 4 != 0
  {
    var q := (n - 1) / 3;
    var m := (n - 1) % 3;
    assert n - 1 == 3 * q + m;
    assert n + q == 4 * q + m + 1;
  }

  /** `formatNumber(x)` on an integer: the sign stays in front, since the
      grouping only ever fires between two digits. */
  function FormatInt(x: int): (r: string)
    ensures Seqs.Filter(r, NotSpace) == IntToString(x)
    ensures x < 0 <==> |r| > 0 && r[0] == '-'
    ensures SignedGrouping(r)
    ensures r[0] != ' ' && r[|r| - 1] != ' ' && (x < 0 ==> r[1] != ' ')
  {
    if x < 0 then
      SignedShape(x);
      "-" + FormatNat(-x)
    else
      UnsignedShape(x);
      FormatNat(x)
  }

  /** The layout of a formatted integer: apart from a leading minus sign every
      character is a digit or a space, and a space sits exactly where a
      multiple of four characters remains to its right. */
  predicate SignedGrouping(r: string)
  {
    (forall i :: 0 <= i < |r| ==> r[i] == ' ' || IsDigit(r[i]) || (i == 0 && r[i] == '-'))
    && (forall i :: 0 <= i < |r| && r[i] != '-' ==> (r[i] == ' ' <==> (|r| - i) % 4 == 0))
  }

  /** The grouped text of a natural, read as the text of a non-negative integer. */
  lemma UnsignedShape(n: nat)
    ensures var r := FormatNat(n);
            Seqs.Filter(r, NotSpace) == IntToString(n)
            && |r| > 0 && r[0] != '-' && r[0] != ' ' && SignedGrouping(r) && r[|r| - 1] != ' '
  {
  }

  /** A minus sign in front of the grouped text of a positive number keeps
      every space where the grouping put it, counted from the right, and
      dropping the spaces gives the integer's text. */
  lemma SignedShape(x: int)
    requires x < 0
    ensures var r := "-" + FormatNat(-x);
            Seqs.Filter(r, NotSpace) == IntToString(x)
            && |r| > 0 && r[0] == '-' && SignedGrouping(r)
            && r[|r| - 1] != ' ' && r[1] != ' '
  {
    var g := FormatNat(-x);
    MinusGrouping(g);
    MinusFilter(g);
  }

  /** A minus sign in front of a grouped text keeps every space in place. */
  lemma MinusGrouping(g: string)
    requires forall i :: 0 <= i < |g| ==> (g[i] == ' ' <==> (|g| - i) % 4 == 0)
    requires forall i :: 0 <= i < |g| ==> g[i] == ' ' || IsDigit(g[i])
    ensures SignedGrouping("-" + g)
  {
    var r := "-" + g;
    forall i | 0 <= i < |r| && r[i] != '-'
      ensures r[i] == ' ' <==> (|r| - i) % 4 == 0
    {
      assert r[i] == g[i - 1];
    }
    forall i | 0 <= i < |r|
      ensures r[i] == ' ' || IsDigit(r[i]) || (i == 0 && r[i] == '-')
    {
      if i > 0 { assert r[i] == g[i - 1]; }
    }
  }

  /** Dropping the spaces keeps a leading minus sign. */
  lemma MinusFilter(g: string)
    ensures Seqs.Filter("-" + g, NotSpace) == "-" + Seqs.Filter(g, NotSpace)
  {
    Seqs.FilterAppend("-", g, NotSpace);
    Seqs.FilterSingle('-', NotSpace);
  }

  /** `unformatNumber(s)`: keep the ASCII digits, read them in base ten, and
      read no digits at all as 0. */
  function Unformat(s: string): (n: nat)
    ensures AllDigits(s) ==> n == DigitsValue(s)
    ensures (forall k :: 0 <= k < |s| ==> !IsDigit(s[k])) ==> n == 0
  {
    var cleaned := Seqs.Filter(s, IsDigit);
    assert AllDigits(s) ==> cleaned == s by {
      if AllDigits(s) { Seqs.FilterAll(s, IsDigit); }
    }
    if cleaned == [] then 0 else DigitsValue(cleaned)
  }

  /** A character that is not a digit is skipped wherever it stands: with the
      all-digits clause of `Unformat` this fixes the value of every text. */
  lemma UnformatSkips(a: string, c: char, b: string)
    requires !IsDigit(c)
    ensures Unformat(a + [c] + b) == Unformat(a + b)
  {
    var fa := Seqs.Filter(a, IsDigit);
    var fb := Seqs.Filter(b, IsDigit);
    assert Seqs.Filter(a + [c], IsDigit) == fa by {
      Seqs.FilterAppend(a, [c], IsDigit);
      Seqs.FilterSingle(c, IsDigit);
      assert fa + [] == fa;
    }
    Seqs.FilterAppend(a + [c], b, IsDigit);
    Seqs.FilterAppend(a, b, IsDigit);
    SameDigitsSameValue(a + [c] + b, a + b);
  }

  /** `Unformat` looks at the digits of a text only. */
  lemma SameDigitsSameValue(s: string, t: string)
    requires Seqs.Filter(s, IsDigit) == Seqs.Filter(t, IsDigit)
    ensures Unformat(s) == Unformat(t)
  {
  }

  /** A text reads as its digits alone: texts with the same digits in the same
      order read the same, and any digit at all gives their base-ten value. */
  lemma UnformatReadsDigits(s: string)
    ensures Unformat(s) == Unformat(Seqs.Filter(s, IsDigit))
    ensures AllDigits(Seqs.Filter(s, IsDigit))
    ensures Seqs.Filter(s, IsDigit) != [] ==> Unformat(s) == DigitsValue(Seqs.Filter(s, IsDigit))
  {
    var d := Seqs.Filter(s, IsDigit);
    assert AllDigits(d) by {
      forall k | 0 <= k < |d|
        ensures IsDigit(d[k])
      {
        assert d[k] in d;
      }
    }
    Seqs.FilterAll(d, IsDigit);
  }

  /** Parsing a formatted natural gives the natural back. */
  lemma UnformatFormat(n: nat)
    ensures Unformat(FormatNat(n)) == n
  {
    var r := FormatNat(n);
    var d := NatToString(n);
    SameFilter(r);
    assert Seqs.Filter(r, IsDigit) == d;
    Seqs.FilterAll(d, IsDigit);
    ParsePrinted(n);
  }

  /** On a string of digits and spaces, keeping digits and dropping spaces agree. */
  lemma {:induction false} SameFilter(r: string)
    requires forall i :: 0 <= i < |r| ==> r[i] == ' ' || IsDigit(r[i])
    ensures Seqs.Filter(r, IsDigit) == Seqs.Filter(r, NotSpace)
    decreases |r|
  {
    if r != [] {
      SameFilter(r[1..]);
    }
  }

  /** Parsing the grouped text of an integer gives back its magnitude: the
      parser drops the minus sign along with the spaces. */
  lemma FormatIntReadsBack(x: int)
    ensures Unformat(FormatInt(x)) == if x < 0 then -x else x
  {
    if x < 0 {
      NegativeReadsBack(x);
    } else {
      UnformatFormat(x);
    }
  }

  lemma NegativeReadsBack(x: int)
    requires x < 0
    ensures Unformat(FormatInt(x)) == -x
  {
    var n: nat := -x;
    NegativeText(x, n);
    SignedReadsBack(n);
  }

  /** The grouped text of a negative number is a minus sign before the grouped magnitude. */
  lemma NegativeText(x: int, n: nat)
    requires x < 0 && n == -x
    ensures FormatInt(x) == "-" + FormatNat(n)
  {
  }

  lemma SignedReadsBack(n: nat)
    ensures Unformat("-" + FormatNat(n)) == n
  {
    var g := FormatNat(n);
    UnformatFormat(n);
    UnformatSigned(g);
  }

  /** A leading minus sign is not read. */
  lemma UnformatSigned(g: string)
    ensures Unformat("-" + g) == Unformat(g)
  {
    UnformatSkips("", '-', g);
    assert "" + ['-'] + g == "-" + g;
    assert "" + g == g;
  }

  /** Parsing the plain (focused) text of a natural gives it back. */
  lemma UnformatPlain(n: nat)
    ensures Unformat(NatToString(n)) == n
  {
    ParsePrinted(n);
  }

  /** The widget's state: its bounds, the text shown, and the numeric value. */
  datatype Currency = Currency(
    minValue: int,
    maxValue: Option<int>,
    display: string,
    value: int,
    focused: bool,
    disabled: bool)

  /** A freshly created widget: minimum 0, no maximum, empty, value 0. */
  function Initial(maxValue: Option<int>): Currency
  {
    Currency(0, maxValue, "", 0, false, false)
  }

  /** The bounds of `onInput`: lower to the maximum first, then raise to the minimum. */
  function Clamp(n: int, minValue: int, maxValue: Option<int>): (r: int)
    ensures r >= minValue
    ensures maxValue.Some? && minValue <= maxValue.value ==> r <= maxValue.value
    ensures minValue <= n && (maxValue.None? || n <= maxValue.value) ==> r == n
    ensures maxValue.Some? && n > maxValue.value && minValue <= maxValue.value ==> r == maxValue.value
    ensures n < minValue ==> r == minValue
  {
    var capped := if maxValue.Some? && n > maxValue.value then maxValue.value else n;
    if capped < minValue then minValue else capped
  }

  /** With consistent bounds, clamping twice is clamping once. */
  lemma ClampIdempotent(n: int, minValue: int, maxValue: Option<int>)
    requires maxValue.Some? ==> minValue <= maxValue.value
    ensures Clamp(Clamp(n, minValue, maxValue), minValue, maxValue) == Clamp(n, minValue, maxValue)
  {
  }

  /** `onInput`: parse the typed text, clamp it, show it plain while focused
      and grouped otherwise, and emit the clamped value to the form. */
  function OnInput(c: Currency, typed: string): (r: (Currency, int))
    ensures r.1 == r.0.value
    ensures r.0.value >= c.minValue
    ensures c.maxValue.Some? && c.minValue <= c.maxValue.value ==> r.0.value <= c.maxValue.value
    ensures c.minValue <= Unformat(typed) && (c.maxValue.None? || Unformat(typed) <= c.maxValue.value)
            ==> r.0.value == Unformat(typed)
    ensures r.0.value >= 0 && c.focused ==> AllDigits(r.0.display) && Unformat(r.0.display) == r.0.value
    ensures r.0.value >= 0 && !c.focused ==> Unformat(r.0.display) == r.0.value
    ensures c.focused ==> r.0.display == IntToString(r.0.value)
    ensures !c.focused ==> r.0.display == FormatInt(r.0.value)
    ensures r.0 == c.(display := r.0.display, value := r.0.value)
  {
    var v := Clamp(Unformat(typed), c.minValue, c.maxValue);
    UnformatFormat(if v >= 0 then v else 0);
    UnformatPlain(if v >= 0 then v else 0);
    var shown := if !c.focused then FormatInt(v) else IntToString(v);
    (c.(value := v, display := shown), v)
  }

  /** `onFocus`: show the plain digits of a positive value, nothing otherwise. */
  function OnFocus(c: Currency): (r: Currency)
    ensures r.focused
    ensures c.value > 0 ==> AllDigits(r.display) && Unformat(r.display) == c.value
    ensures c.value > 0 ==> r.display == NatToString(c.value)
    ensures c.value <= 0 ==> r.display == ""
    ensures r == c.(focused := true, display := r.display)
  {
    UnformatPlain(if c.value > 0 then c.value else 0);
    c.(focused := true, display := if c.value > 0 then NatToString(c.value) else "")
  }

  /** `onBlur`: show the grouped digits of a positive value, nothing
      otherwise, and report to the form that the control was touched (the
      second component, which every blur sets). */
  function OnBlur(c: Currency): (r: (Currency, bool))
    ensures !r.0.focused
    ensures r.1
    ensures c.value > 0 ==> r.0.display == FormatNat(c.value) && Unformat(r.0.display) == c.value
    ensures c.value <= 0 ==> r.0.display == ""
    ensures r.0 == c.(focused := false, display := r.0.display)
  {
    UnformatFormat(if c.value > 0 then c.value else 0);
    (c.(focused := false, display := if c.value > 0 then FormatNat(c.value) else ""), true)
  }

  /** `writeValue`: a missing value or 0 becomes 0 with an empty display; a
      positive value is shown grouped. */
  function WriteValue(c: Currency, v: Option<int>): (r: Currency)
    ensures v.None? || v == Some(0) ==> r.value == 0 && r.display == ""
    ensures v.Some? && v.value > 0 ==> r.value == v.value && Unformat(r.display) == v.value
    ensures v.Some? && v.value > 0 ==> r.display == FormatNat(v.value) && r.display == FormatInt(v.value)
    ensures v.Some? && v.value < 0 ==> r.value == v.value && r.display == ""
    ensures r == c.(value := r.value, display := r.display)
  {
    match v
    case None => c.(value := 0, display := "")
    case Some(x) =>
      UnformatFormat(if x > 0 then x else 0);
      c.(value := x, display := if x > 0 then FormatNat(x) else "")
  }

  /** Whatever the widget last did, its text reads back as its value or is
      empty for a non-positive value. */
  ghost predicate DisplayConsistent(c: Currency)
  {
    (c.value > 0 ==> Unformat(c.display) == c.value) && (c.value < 0 ==> c.display == "" || c.display[0] == '-')
  }

  /** Focus, blur and writes leave the display consistent with the value. */
  lemma DisplayConsistentAfterEvents(c: Currency, v: Option<int>)
    ensures DisplayConsistent(OnFocus(c))
    ensures DisplayConsistent(OnBlur(c).0)
    ensures DisplayConsistent(WriteValue(c, v))
  {
  }
}
