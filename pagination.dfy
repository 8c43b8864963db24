/** The offset arithmetic of the list endpoints (`page`, `limit` →
    `.range(from, to)` and the page count). The same three lines appear in
    every list controller. */
module Pagination {
  import opened Common
  import opened Strings

  /** The inclusive row window `[from, to]` handed to `.range`. */
  datatype Window = Window(from: int, to: int)

  /** The window with `page` and `limit` as integers: pages of `limit`
      rows, numbered from 1. */
  function PageWindow(page: int, limit: int): Window {
    Window((page - 1) * limit, (page - 1) * limit + limit - 1)
  }

  /** Each window holds `limit` rows, page 1 starts at row 0 and the pages
      follow each other with neither gap nor overlap. */
  lemma PageWindowsTile(page: int, limit: int)
    ensures PageWindow(page, limit).to - PageWindow(page, limit).from + 1 == limit
    ensures PageWindow(1, limit).from == 0
    ensures PageWindow(page + 1, limit).from == PageWindow(page, limit).to + 1
  {
  }

  /** With a positive limit, row `k` (0-based) lies in the window of page
      `k / limit + 1`. */
  lemma RowOnItsPage(k: nat, limit: int)
    requires limit > 0
    ensures PageWindow(k / limit + 1, limit).from <= k <= PageWindow(k / limit + 1, limit).to
  {
    var q, r := k / limit, k % limit;
    assert k == q * limit + r && 0 <= r < limit;
    assert PageWindow(q + 1, limit).from == q * limit;
  }

  /** `Math.ceil(count / limit)`; `None` when `limit` is 0 (the quotient is
      `Infinity` or `NaN`). */
  function PageCount(count: nat, limit: int): Option<int> {
    if limit == 0 then None
    else if limit > 0 then Some((count + limit - 1) / limit)
    else Some(-(count / -limit))
  }

  /** With a positive limit the pages cover every row and the last page is
      not empty. */
  lemma PageCountCovers(count: nat, limit: int)
    requires limit > 0
    ensures PageCount(count, limit).Some?
    ensures PageCount(count, limit).value * limit >= count
    ensures count > 0 ==> (PageCount(count, limit).value - 1) * limit < count
    ensures count == 0 ==> PageCount(count, limit).value == 0
  {
    var p := (count + limit - 1) / limit;
    var r := (count + limit - 1) % limit;
    assert count + limit - 1 == p * limit + r && 0 <= r < limit;
    assert (p - 1) * limit == p * limit - limit;
  }

  // ---- the window as the source computes it from query-string text ----

  predicate IsDigits(s: string) {
    forall i :: 0 <= i < |s| ==> IsDigit(s[i])
  }

  function Pow10(n: nat): nat {
    if n == 0 then 1 else 10 * Pow10(n - 1)
  }

  /** `Number(s)` for text made of an optional '-' and decimal digits. */
  function NumberOfText(s: string): int
    requires |s| >= 1 && (if s[0] == '-' then IsDigits(s[1..]) else IsDigits(s))
  {
    if s[0] == '-' then -(DigitsValue(s[1..]) as int) else DigitsValue(s)
  }

  /** `from + limit - 1` when `limit` is the query-string text `limitText`:
      `(page - 1) * limit` coerces the text to a number, but `from + limit`
      then concatenates the decimal text of `from` with `limitText`, and
      `- 1` turns that text back into a number. */
  function QueryStringWindowEnd(page: int, limitText: string): int
    requires |limitText| >= 1 && IsDigits(limitText)
  {
    var limit := DigitsValue(limitText);
    var from := (page - 1) * limit;
    var joined := IntToString(from) + limitText;
    assert from >= 0 ==> joined[0] != '-';
    assert from < 0 ==> joined[1..] == NatToString(-from) + limitText;
    NumberOfText(joined) - 1
  }

  /** Appending digits shifts the value left. */
  lemma {:induction false} DigitsValueConcat(a: string, b: string)
    requires IsDigits(a) && IsDigits(b)
    ensures IsDigits(a + b)
    ensures DigitsValue(a + b) == DigitsValue(a) * Pow10(|b|) + DigitsValue(b)
    decreases |b|
  {
    if b == [] {
      assert a + b == a;
    } else {
      var b' := b[..|b| - 1];
      var last := b[|b| - 1];
      assert (a + b)[..|a + b| - 1] == a + b';
      assert (a + b)[|a + b| - 1] == last;
      DigitsValueConcat(a, b');
      assert DigitsValue(a + b) == DigitsValue(a + b') * 10 + DigitValue(last);
      assert DigitsValue(b) == DigitsValue(b') * 10 + DigitValue(last);
      assert Pow10(|b|) == 10 * Pow10(|b'|);
      ShiftDigit(DigitsValue(a), Pow10(|b'|), DigitsValue(b'), DigitValue(last));
    }
  }

  /** The arithmetic step of `DigitsValueConcat`: appending a digit `d`
      after the digits of `x` followed by the digits of `y` (`p` being ten
      to the length of `y`) shifts `x` by one more place. Kept apart so the
      non-linear product is proved once, on plain integers. */
  lemma ShiftDigit(x: int, p: int, y: int, d: int)
    ensures (x * p + y) * 10 + d == x * (10 * p) + (y * 10 + d)
  {
  }

  lemma JoinedNonNegative(n: nat, t: string)
    requires IsDigits(t)
    ensures var joined := IntToString(n) + t;
      |joined| >= 1 && joined[0] != '-' && IsDigits(joined)
      && NumberOfText(joined) == n * Pow10(|t|) + DigitsValue(t)
  {
    NatToStringValue(n);
    DigitsValueConcat(NatToString(n), t);
  }

  lemma JoinedNegative(m: nat, t: string)
    requires m > 0 && IsDigits(t)
    ensures var joined := IntToString(-(m as int)) + t;
      |joined| >= 1 && joined[0] == '-' && IsDigits(joined[1..])
      && NumberOfText(joined) == -(m * Pow10(|t|) + DigitsValue(t))
  {
    var digits := NatToString(m) + t;
    NatToStringValue(m);
    DigitsValueConcat(NatToString(m), t);
    NegativeText(m);
    AppendAssociates("-", NatToString(m), t);
    MinusDigits(digits);
  }

  lemma NegativeText(m: nat)
    requires m > 0
    ensures IntToString(-(m as int)) == "-" + NatToString(m)
  {
  }

  /** "-" followed by digits reads back as the negated digits. */
  lemma MinusDigits(d: string)
    requires IsDigits(d)
    ensures var s := "-" + d;
      |s| >= 1 && s[0] == '-' && IsDigits(s[1..]) && NumberOfText(s) == -(DigitsValue(d) as int)
  {
    assert ("-" + d)[1..] == d;
  }

  /** Reading back the text of `from` followed by the digits of `t`. */
  lemma JoinedNumber(from: int, t: string)
    requires IsDigits(t)
    ensures var joined := IntToString(from) + t;
      |joined| >= 1 && (if joined[0] == '-' then IsDigits(joined[1..]) else IsDigits(joined))
      && NumberOfText(joined)
         == if from >= 0 then from * Pow10(|t|) + DigitsValue(t) else from * Pow10(|t|) - DigitsValue(t)
  {
    if from >= 0 {
      JoinedNonNegative(from, t);
    } else {
      JoinedNegative(-from, t);
      assert -((-from) * Pow10(|t|)) == from * Pow10(|t|);
    }
  }

  /** What the concatenation yields: `from` shifted left by as many decimal
      places as `limitText` has digits, plus or minus the limit, minus 1 —
      instead of `from + limit - 1`. */
  lemma QueryStringWindowEndValue(page: int, limitText: string)
    requires |limitText| >= 1 && IsDigits(limitText)
    ensures var limit := DigitsValue(limitText);
      var from := (page - 1) * limit;
      QueryStringWindowEnd(page, limitText)
        == (if from >= 0 then from * Pow10(|limitText|) + limit else from * Pow10(|limitText|) - limit) - 1
  {
    JoinedNumber((page - 1) * DigitsValue(limitText), limitText);
  }

  /** On page 1 the concatenation is harmless ("0" + "20" is read back as
      20), which is why the defect only shows from page 2 on. */
  lemma QueryStringFirstPageAgrees(limitText: string)
    requires |limitText| >= 1 && IsDigits(limitText)
    ensures QueryStringWindowEnd(1, limitText) == PageWindow(1, DigitsValue(limitText)).to
  {
    QueryStringWindowEndValue(1, limitText);
  }

  /** `?page=2&limit=20` asks for rows 20 to 2019 instead of 20 to 39. */
  lemma QueryStringSecondPageExample()
    ensures QueryStringWindowEnd(2, "20") == 2019
    ensures PageWindow(2, 20) == Window(20, 39)
  {
    assert DigitsValue("2") == 2;
    assert DigitsValue("20") == 20 by {
      assert "20"[..1] == "2";
    }
    QueryStringWindowEndValue(2, "20");
    assert Pow10(2) == 100;
  }
}
