/** The few JavaScript string primitives the controllers rely on, with the
    semantics of the language: the `\s` class, `split` on one character,
    `trim`, `includes`, `lastIndexOf`, `String(n)` of an integer and
    `parseInt(s, 10)`. */
module Strings {
  import opened Common

  /** Membership in the JavaScript regular-expression class `\s`
      (WhiteSpace and LineTerminator of ECMAScript). */
  predicate IsSpace(c: char) {
    c == ' ' || c == '\t' || c == '\n' || c == '\r' || c == '\U{000B}' || c == '\U{000C}'
    || c == '\U{00A0}' || c == '\U{1680}' || ('\U{2000}' <= c <= '\U{200A}')
    || c == '\U{2028}' || c == '\U{2029}' || c == '\U{202F}' || c == '\U{205F}'
    || c == '\U{3000}' || c == '\U{FEFF}'
  }

  predicate NoSpace(s: string) {
    forall i :: 0 <= i < |s| ==> !IsSpace(s[i])
  }

  predicate StartsWith(s: string, prefix: string) {
    |prefix| <= |s| && s[..|prefix|] == prefix
  }

  /** `s.includes(sub)` */
  predicate Includes(s: string, sub: string)
    decreases |s|
  {
    StartsWith(s, sub) || (s != [] && Includes(s[1..], sub))
  }

  /** No `x` in `s` is directly followed by `y`. */
  predicate NoPair(s: string, x: char, y: char) {
    forall k :: 0 <= k < |s| - 1 ==> !(s[k] == x && s[k + 1] == y)
  }

  lemma NoPairConcat(s: string, t: string, x: char, y: char)
    requires NoPair(s, x, y) && NoPair(t, x, y)
    requires s == [] || t == [] || !(s[|s| - 1] == x && t[0] == y)
    ensures NoPair(s + t, x, y)
  {
    forall k | 0 <= k < |s + t| - 1
      ensures !((s + t)[k] == x && (s + t)[k + 1] == y)
    {
      if k + 1 < |s| {
        assert (s + t)[k] == s[k] && (s + t)[k + 1] == s[k + 1];
      } else if k >= |s| {
        assert (s + t)[k] == t[k - |s|] && (s + t)[k + 1] == t[k + 1 - |s|];
      }
    }
  }

  /** Text in which the first two characters of `sub` never stand side by
      side does not include `sub`. */
  lemma {:induction false} NoPairNotIncludes(s: string, sub: string)
    requires |sub| >= 2 && NoPair(s, sub[0], sub[1])
    ensures !Includes(s, sub)
    decreases |s|
  {
    if s != [] {
      if |sub| <= |s| {
        assert s[..|sub|][0] == s[0] && s[..|sub|][1] == s[1];
      }
      assert NoPair(s[1..], sub[0], sub[1]) by {
        forall k | 0 <= k < |s[1..]| - 1
          ensures !(s[1..][k] == sub[0] && s[1..][k + 1] == sub[1])
        {
          assert s[1..][k] == s[k + 1] && s[1..][k + 1] == s[k + 2];
        }
      }
      NoPairNotIncludes(s[1..], sub);
    }
  }

  /** A match in a suffix is a match in the whole. */
  lemma {:induction false} IncludesSuffix(a: string, b: string, sub: string)
    requires Includes(b, sub)
    ensures Includes(a + b, sub)
    decreases |a|
  {
    if a == [] {
      assert a + b == b;
    } else {
      assert (a + b)[1..] == a[1..] + b;
      IncludesSuffix(a[1..], b, sub);
    }
  }

  function Count(s: string, c: char): nat {
    if s == [] then 0 else (if s[0] == c then 1 else 0) + Count(s[1..], c)
  }

  /** `s.split(sep)` for a one-character separator: the pieces between
      consecutive separators, always at least one (`"".split(",")` is `[""]`). */
  function Split(s: string, sep: char): (parts: seq<string>)
    ensures |parts| >= 1
  {
    if s == [] then [[]]
    else
      var rest := Split(s[1..], sep);
      if s[0] == sep then [[]] + rest else [[s[0]] + rest[0]] + rest[1..]
  }

  /** `parts.join(sep)`, the inverse of `Split`. */
  function Join(parts: seq<string>, sep: char): string
    requires |parts| >= 1
  {
    if |parts| == 1 then parts[0] else parts[0] + [sep] + Join(parts[1..], sep)
  }

  /** Split yields one more piece than there are separators, and no piece
      contains the separator. */
  lemma {:induction false} SplitShape(s: string, sep: char)
    ensures |Split(s, sep)| == Count(s, sep) + 1
    ensures forall k :: 0 <= k < |Split(s, sep)| ==> sep !in Split(s, sep)[k]
  {
    if s != [] {
      SplitShape(s[1..], sep);
    }
  }

  lemma {:induction false} JoinSplit(s: string, sep: char)
    ensures Join(Split(s, sep), sep) == s
  {
    if s != [] {
      JoinSplit(s[1..], sep);
      var rest := Split(s[1..], sep);
      if s[0] != sep && |rest| > 1 {
        assert Join(Split(s, sep), sep) == [s[0]] + rest[0] + [sep] + Join(rest[1..], sep);
      }
    }
  }

  lemma {:induction false} SplitJoin(parts: seq<string>, sep: char)
    requires |parts| >= 1
    requires forall k :: 0 <= k < |parts| ==> sep !in parts[k]
    ensures Split(Join(parts, sep), sep) == parts
    decreases |parts|, |parts[0]|
  {
    if |parts| == 1 {
      SplitNoSep(parts[0], sep);
    } else if parts[0] == [] {
      SplitJoin(parts[1..], sep);
      SplitJoinEmptyHead(parts, sep);
    } else {
      var tail := [parts[0][1..]] + parts[1..];
      SepFreeShift(parts, sep);
      SplitJoin(tail, sep);
      SplitJoinShift(parts, sep);
    }
  }

  lemma SplitJoinEmptyHead(parts: seq<string>, sep: char)
    requires |parts| >= 2 && parts[0] == []
    requires Split(Join(parts[1..], sep), sep) == parts[1..]
    ensures Split(Join(parts, sep), sep) == parts
  {
    var rest := Join(parts[1..], sep);
    assert Join(parts, sep) == [sep] + rest by {
      assert Join(parts, sep) == parts[0] + [sep] + rest;
      assert parts[0] + [sep] + rest == [sep] + rest;
    }
    assert Split([sep] + rest, sep) == [[]] + parts[1..] by {
      SplitSep(rest, sep);
    }
    assert parts == [[]] + parts[1..];
  }

  lemma SplitSep(s: string, sep: char)
    ensures Split([sep] + s, sep) == [[]] + Split(s, sep)
  {
    assert ([sep] + s)[1..] == s;
  }

  /** The parts after moving the first character out keep the separator out. */
  lemma SepFreeShift(parts: seq<string>, sep: char)
    requires |parts| >= 1 && parts[0] != []
    requires forall k :: 0 <= k < |parts| ==> sep !in parts[k]
    ensures var tail := [parts[0][1..]] + parts[1..];
      |tail| == |parts| && |tail[0]| < |parts[0]| && forall k :: 0 <= k < |tail| ==> sep !in tail[k]
  {
    var tail := [parts[0][1..]] + parts[1..];
    forall k | 0 <= k < |tail|
      ensures sep !in tail[k]
    {
      if k == 0 {
        assert parts[0] == [parts[0][0]] + tail[0];
      } else {
        assert tail[k] == parts[k];
      }
    }
  }

  lemma SplitJoinShift(parts: seq<string>, sep: char)
    requires |parts| >= 1 && parts[0] != [] && parts[0][0] != sep
    requires Split(Join([parts[0][1..]] + parts[1..], sep), sep) == [parts[0][1..]] + parts[1..]
    ensures Split(Join(parts, sep), sep) == parts
  {
    var c := parts[0][0];
    var tail := [parts[0][1..]] + parts[1..];
    assert tail[0] == parts[0][1..] && tail[1..] == parts[1..];
    JoinCons(parts, sep);
    SplitCons(c, Join(tail, sep), sep);
    assert [c] + tail[0] == parts[0];
    assert parts == [parts[0]] + parts[1..];
  }

  /** Moving the first character of the first part out of the join. */
  lemma JoinCons(parts: seq<string>, sep: char)
    requires |parts| >= 1 && parts[0] != []
    ensures Join(parts, sep) == [parts[0][0]] + Join([parts[0][1..]] + parts[1..], sep)
  {
    var tail := [parts[0][1..]] + parts[1..];
    assert tail[0] == parts[0][1..] && tail[1..] == parts[1..];
    assert parts[0] == [parts[0][0]] + parts[0][1..];
  }

  lemma SplitCons(c: char, s: string, sep: char)
    requires c != sep
    ensures Split([c] + s, sep) == [[c] + Split(s, sep)[0]] + Split(s, sep)[1..]
  {
    assert ([c] + s)[1..] == s;
  }

  lemma {:induction false} SplitNoSep(s: string, sep: char)
    requires sep !in s
    ensures Split(s, sep) == [s]
  {
    if s != [] {
      SplitNoSep(s[1..], sep);
      assert [s[0]] + s[1..] == s;
    }
  }

  /** The first piece of a split is `p` exactly when the text is `p` or
      starts with `p` followed by the separator. */
  lemma {:induction false} SplitHeadIs(s: string, sep: char, p: string)
    ensures Split(s, sep)[0] == p <==> sep !in p && (s == p || StartsWith(s, p + [sep]))
    decreases |s|
  {
    if s == [] {
    } else if s[0] == sep {
      if p != [] && sep !in p {
        assert p[0] != sep;
        assert s != p;
        assert (p + [sep])[0] == p[0];
      }
      if p == [] {
        assert s[..1] == [sep];
      }
    } else if p == [] {
      assert Split(s, sep)[0] == [s[0]] + Split(s[1..], sep)[0];
    } else {
      SplitHeadIs(s[1..], sep, p[1..]);
      SplitHeadStep(s, sep, p);
    }
  }

  lemma SplitHeadStep(s: string, sep: char, p: string)
    requires s != [] && s[0] != sep && p != []
    requires Split(s[1..], sep)[0] == p[1..] <==> sep !in p[1..] && (s[1..] == p[1..] || StartsWith(s[1..], p[1..] + [sep]))
    ensures Split(s, sep)[0] == p <==> sep !in p && (s == p || StartsWith(s, p + [sep]))
  {
    SplitCons(s[0], s[1..], sep);
    assert s == [s[0]] + s[1..];
    var tail := Split(s[1..], sep)[0];
    assert Split(s, sep)[0] == [s[0]] + tail;
    if Split(s, sep)[0] == p {
      HeadMatches(s, sep, p, tail);
    }
    if sep !in p && (s == p || StartsWith(s, p + [sep])) {
      PieceMatches(s, sep, p);
    }
  }

  /** The first piece is `p`: the text starts like `p`, and the rest of
      the first piece is the rest of `p`. */
  lemma HeadMatches(s: string, sep: char, p: string, tail: string)
    requires s != [] && s[0] != sep && p != [] && [s[0]] + tail == p
    requires tail == p[1..] ==> sep !in p[1..] && (s[1..] == p[1..] || StartsWith(s[1..], p[1..] + [sep]))
    ensures sep !in p && (s == p || StartsWith(s, p + [sep]))
  {
    assert p[0] == s[0] && p[1..] == tail;
    assert p == [p[0]] + p[1..];
    assert s == [s[0]] + s[1..];
    if s[1..] != p[1..] {
      assert (p + [sep])[1..] == p[1..] + [sep];
      assert s[..|p + [sep]|] == [s[0]] + s[1..][..|p[1..] + [sep]|];
    }
  }

  /** The text is `p`, or `p` and the separator begin it: dropping the
      first character keeps that shape. */
  lemma PieceMatches(s: string, sep: char, p: string)
    requires s != [] && p != [] && sep !in p && (s == p || StartsWith(s, p + [sep]))
    ensures s[0] == p[0] && sep !in p[1..] && (s[1..] == p[1..] || StartsWith(s[1..], p[1..] + [sep]))
  {
    assert p == [p[0]] + p[1..];
    if s != p {
      assert s[..|p + [sep]|][0] == p[0];
      assert (p + [sep])[1..] == p[1..] + [sep];
      assert s[1..][..|p[1..] + [sep]|] == s[..|p + [sep]|][1..];
    }
  }

  /** A piece free of the separator, then the separator, then the rest:
      the split is that piece followed by the split of the rest. */
  lemma {:induction false} SplitAfterPiece(p: string, rest: string, sep: char)
    requires sep !in p
    ensures Split(p + [sep] + rest, sep) == [p] + Split(rest, sep)
    decreases |p|
  {
    if p == [] {
      assert p + [sep] + rest == [sep] + rest;
      assert ([sep] + rest)[1..] == rest;
    } else {
      SplitAfterPiece(p[1..], rest, sep);
      var s := p + [sep] + rest;
      assert s[1..] == p[1..] + [sep] + rest;
      assert [p[0]] + p[1..] == p;
    }
  }

  /** Characters stripped from the left by `trimStart` / skipped by `parseInt`. */
  function TrimStart(s: string): (r: string)
    ensures |r| <= |s| && r == s[|s| - |r|..]
    ensures r == [] || !IsSpace(r[0])
  {
    if s != [] && IsSpace(s[0]) then TrimStart(s[1..]) else s
  }

  function TrimEnd(s: string): (r: string)
    ensures |r| <= |s| && r == s[..|r|]
    ensures r == [] || !IsSpace(r[|r| - 1])
  {
    if s != [] && IsSpace(s[|s| - 1]) then TrimEnd(s[..|s| - 1]) else s
  }

  /** `s.trim()` */
  function Trim(s: string): string {
    TrimEnd(TrimStart(s))
  }

  lemma TrimNoSpace(s: string)
    requires s == [] || (!IsSpace(s[0]) && !IsSpace(s[|s| - 1]))
    ensures Trim(s) == s
  {
  }

  /** `s.lastIndexOf(c)`: the last position holding `c`, or -1. */
  function LastIndexOf(s: string, c: char): (k: int)
    ensures -1 <= k < |s|
    ensures k >= 0 ==> s[k] == c
    ensures forall j :: k < j < |s| ==> s[j] != c
  {
    if s == [] then -1
    else if s[|s| - 1] == c then |s| - 1
    else LastIndexOf(s[..|s| - 1], c)
  }

  // ---- integers and their decimal text ----

  predicate IsDigit(c: char) {
    '0' <= c <= '9'
  }

  function DigitChar(d: nat): char
    requires d < 10
  {
    ('0' as int + d) as char
  }

  function DigitValue(c: char): nat
    requires IsDigit(c)
  {
    (c as int - '0' as int) as nat
  }

  /** The value of a run of decimal digits. */
  function DigitsValue(d: string): nat
    requires forall i :: 0 <= i < |d| ==> IsDigit(d[i])
  {
    if d == [] then 0 else DigitsValue(d[..|d| - 1]) * 10 + DigitValue(d[|d| - 1])
  }

  /** Decimal text of a natural number, no leading zeros. */
  function NatToString(n: nat): (s: string)
    ensures |s| >= 1 && forall i :: 0 <= i < |s| ==> IsDigit(s[i])
  {
    if n < 10 then [DigitChar(n)] else NatToString(n / 10) + [DigitChar(n % 10)]
  }

  /** `String(n)` for an integer-valued Number. */
  function IntToString(n: int): (s: string)
    ensures |s| >= 1
  {
    if n < 0 then "-" + NatToString(-n) else NatToString(n)
  }

  lemma {:induction false} NatToStringValue(n: nat)
    ensures DigitsValue(NatToString(n)) == n
  {
    if n >= 10 {
      NatToStringValue(n / 10);
      var s := NatToString(n);
      assert s == NatToString(n / 10) + [DigitChar(n % 10)];
      assert s[..|s| - 1] == NatToString(n / 10) && s[|s| - 1] == DigitChar(n % 10);
      assert DigitValue(DigitChar(n % 10)) == n % 10;
      assert DigitsValue(s) == (n / 10) * 10 + n % 10;
    }
  }

  /** The longest prefix made of decimal digits. */
  function DigitPrefix(s: string): (d: string)
    ensures |d| <= |s| && d == s[..|d|]
    ensures forall i :: 0 <= i < |d| ==> IsDigit(d[i])
    ensures |d| < |s| ==> !IsDigit(s[|d|])
  {
    if s != [] && IsDigit(s[0]) then [s[0]] + DigitPrefix(s[1..]) else []
  }

  lemma {:induction false} DigitPrefixAll(s: string)
    requires forall i :: 0 <= i < |s| ==> IsDigit(s[i])
    ensures DigitPrefix(s) == s
  {
  }

  /** `parseInt(s, 10)`: skip leading white space, read an optional sign and
      the longest run of digits; `None` stands for `NaN` (no digit at all). */
  function ParseInt(s: string): Option<int> {
    var t := TrimStart(s);
    var signed := |t| > 0 && (t[0] == '-' || t[0] == '+');
    var d := DigitPrefix(if signed then t[1..] else t);
    if d == [] then None
    else if signed && t[0] == '-' then Some(-(DigitsValue(d) as int))
    else Some(DigitsValue(d))
  }

  lemma TrimStartDigits(d: string)
    requires |d| >= 1 && IsDigit(d[0])
    ensures TrimStart(d) == d
  {
  }

  lemma ParseDigits(d: string)
    requires |d| >= 1 && forall i :: 0 <= i < |d| ==> IsDigit(d[i])
    ensures ParseInt(d) == Some(DigitsValue(d))
  {
    TrimStartDigits(d);
    DigitPrefixAll(d);
    assert !(d[0] == '-' || d[0] == '+');
  }

  lemma TrimStartMinus(d: string)
    ensures TrimStart("-" + d) == "-" + d && ("-" + d)[1..] == d
    ensures |"-" + d| == |d| + 1 && ("-" + d)[0] == '-'
  {
    assert ("-" + d)[0] == '-';
  }

  lemma ParseNegativeDigits(d: string)
    requires |d| >= 1 && forall i :: 0 <= i < |d| ==> IsDigit(d[i])
    ensures ParseInt("-" + d) == Some(-(DigitsValue(d) as int))
  {
    var neg := "-" + d;
    TrimStartMinus(d);
    DigitPrefixAll(d);
    ParseMinus(neg);
  }

  lemma ParseMinus(t: string)
    requires TrimStart(t) == t && |t| >= 2 && t[0] == '-' && DigitPrefix(t[1..]) == t[1..]
    ensures ParseInt(t) == Some(-(DigitsValue(t[1..]) as int))
  {
  }

  /** `parseInt(String(n), 10) === n` for every integer. */
  lemma ParseIntToString(n: int)
    ensures ParseInt(IntToString(n)) == Some(n)
  {
    var text := IntToString(n);
    if n < 0 {
      ParseNegativeNat(-n);
      assert text == "-" + NatToString(-n);
    } else {
      ParseNat(n);
      assert text == NatToString(n);
    }
  }

  lemma ParseNat(n: nat)
    ensures ParseInt(NatToString(n)) == Some(n)
  {
    NatToStringValue(n);
    ParseDigits(NatToString(n));
  }

  lemma ParseNegativeNat(m: nat)
    ensures ParseInt("-" + NatToString(m)) == Some(-(m as int))
  {
    var d := NatToString(m);
    NatToStringValue(m);
    ParseNegativeDigits(d);
    assert ParseInt("-" + d) == Some(-(DigitsValue(d) as int));
  }
}
