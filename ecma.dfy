/**
 * The few ECMAScript built-ins the core relies on, written out over
 * `string` (a sequence of UTF-16 code units in the original, of chars here):
 * the white-space test shared by `String.prototype.trim` and `parseInt`,
 * `String.prototype.split` with a one-character separator, and
 * `parseInt(s, 10)` (ECMA-262, section 19.2.5 "parseInt ( string, radix )").
 */
module Ecma {
  import opened Wrappers

  /** WhiteSpace (ECMA-262 section 12.2) or LineTerminator (section 12.3). */
  predicate IsWhitespace(c: char) {
    || c == '\U{0009}' || c == '\U{000B}' || c == '\U{000C}' || c == ' '
    || c == '\U{00A0}' || c == '\U{FEFF}' || c == '\U{1680}'
    || ('\U{2000}' <= c <= '\U{200A}')
    || c == '\U{202F}' || c == '\U{205F}' || c == '\U{3000}'
    || c == '\n' || c == '\r' || c == '\U{2028}' || c == '\U{2029}'
  }

  predicate AllWhitespace(s: string) {
    forall i :: 0 <= i < |s| ==> IsWhitespace(s[i])
  }

  /** Removes leading white space: the suffix of `s` that starts at its first other character. */
  function TrimStart(s: string): (r: string)
    ensures |r| <= |s| && r == s[|s| - |r|..]
    ensures r == [] || !IsWhitespace(r[0])
    ensures AllWhitespace(s[..|s| - |r|])
  {
    if s != [] && IsWhitespace(s[0]) then TrimStart(s[1..]) else s
  }

  /** Removes trailing white space. */
  function TrimEnd(s: string): (r: string)
    ensures |r| <= |s| && r == s[..|r|]
    ensures r == [] || !IsWhitespace(r[|r| - 1])
    ensures AllWhitespace(s[|r|..])
  {
    if s != [] && IsWhitespace(s[|s| - 1]) then TrimEnd(s[..|s| - 1]) else s
  }

  /** `String.prototype.trim`: the part of `s` between its leading and its trailing white space. */
  function Trim(s: string): (r: string)
    ensures |r| <= |s|
    ensures r == [] || (!IsWhitespace(r[0]) && !IsWhitespace(r[|r| - 1]))
  {
    var t := TrimStart(s);
    var r := TrimEnd(t);
    assert r != [] ==> r[0] == t[0];
    r
  }

  /** What `trim` keeps is a stretch of `s` with only white space before and after it. */
  lemma TrimIsInfix(s: string)
    ensures var r := Trim(s);
      exists i :: 0 <= i <= |s| - |r| && r == s[i..i + |r|] && AllWhitespace(s[..i]) && AllWhitespace(s[i + |r|..])
  {
    InfixBetweenWhitespace(s, TrimStart(s), Trim(s));
  }

  /** A prefix `r` of a suffix `t` of `s`, with white space cut on both sides, is a white-space-bounded infix of `s`. */
  lemma InfixBetweenWhitespace(s: string, t: string, r: string)
    requires |t| <= |s| && t == s[|s| - |t|..] && AllWhitespace(s[..|s| - |t|])
    requires |r| <= |t| && r == t[..|r|] && AllWhitespace(t[|r|..])
    ensures exists i :: 0 <= i <= |s| - |r| && r == s[i..i + |r|] && AllWhitespace(s[..i]) && AllWhitespace(s[i + |r|..])
  {
    var i := |s| - |t|;
    assert s[i..i + |r|] == r by { assert s[i..i + |r|] == s[i..][..|r|]; }
    assert s[i + |r|..] == t[|r|..] by { assert s[i + |r|..] == s[i..][|r|..]; }
  }

  /** `s.trim() === ''` holds exactly when every character of `s` is white space. */
  lemma TrimEmptyIffBlank(s: string)
    ensures Trim(s) == "" <==> AllWhitespace(s)
  {
  }

  /** Concatenates `pieces`, putting `sep` between neighbours: the inverse of `Split`. */
  function Join(pieces: seq<string>, sep: char): string
    requires |pieces| >= 1
  {
    if |pieces| == 1 then pieces[0] else pieces[0] + [sep] + Join(pieces[1..], sep)
  }

  /** `s.split(sep)` for a one-character separator: the pieces between separators, never an empty list. */
  function Split(s: string, sep: char): (pieces: seq<string>)
    ensures |pieces| >= 1
    ensures forall i :: 0 <= i < |pieces| ==> sep !in pieces[i]
    ensures Join(pieces, sep) == s
  {
    if s == [] then [""]
    else if s[0] == sep then [""] + Split(s[1..], sep)
    else
      var rest := Split(s[1..], sep);
      assert Join(rest, sep) == s[1..];
      JoinConsFirst(s[0], rest, sep);
      [[s[0]] + rest[0]] + rest[1..]
  }

  lemma JoinConsFirst(c: char, pieces: seq<string>, sep: char)
    requires |pieces| >= 1
    ensures Join([[c] + pieces[0]] + pieces[1..], sep) == [c] + Join(pieces, sep)
  {
  }

  /** Splitting a joined list gives the list back, as long as no piece holds the separator. */
  lemma {:induction false} SplitJoin(pieces: seq<string>, sep: char)
    requires |pieces| >= 1
    requires forall i :: 0 <= i < |pieces| ==> sep !in pieces[i]
    ensures Split(Join(pieces, sep), sep) == pieces
  {
    if |pieces| == 1 {
      SplitWithoutSeparator(pieces[0], sep);
    } else {
      SplitJoin(pieces[1..], sep);
      SplitAfterPiece(pieces[0], Join(pieces[1..], sep), sep);
    }
  }

  /** A string without the separator splits into itself alone. */
  lemma {:induction false} SplitWithoutSeparator(s: string, sep: char)
    requires sep !in s
    ensures Split(s, sep) == [s]
  {
    if s != [] {
      SplitWithoutSeparator(s[1..], sep);
    }
  }

  /** The first piece of `a + sep + b` is `a` when `a` holds no separator; the rest is the split of `b`. */
  lemma {:induction false} SplitAfterPiece(a: string, b: string, sep: char)
    requires sep !in a
    ensures Split(a + [sep] + b, sep) == [a] + Split(b, sep)
  {
    if a != [] {
      var s := a + [sep] + b;
      assert s[0] == a[0] && s[1..] == a[1..] + [sep] + b;
      SplitAfterPiece(a[1..], b, sep);
      var rest := Split(s[1..], sep);
      assert rest[0] == a[1..] && rest[1..] == Split(b, sep);
      assert [a[0]] + a[1..] == a;
    } else {
      assert a + [sep] + b == [sep] + b;
    }
  }

  predicate IsDigit(c: char) {
    '0' <= c <= '9'
  }

  predicate AllDigits(s: string) {
    forall i :: 0 <= i < |s| ==> IsDigit(s[i])
  }

  function DigitValue(c: char): (d: nat)
    requires IsDigit(c)
    ensures d < 10
  {
    (c as int) - ('0' as int)
  }

  function DigitChar(d: nat): (c: char)
    requires d < 10
    ensures IsDigit(c) && DigitValue(c) == d
  {
    ('0' as int + d) as char
  }

  /** The mathematical value of a string of decimal digits, most significant first. */
  function DecimalValue(ds: string): nat
    requires AllDigits(ds)
  {
    if ds == [] then 0 else DecimalValue(ds[..|ds| - 1]) * 10 + DigitValue(ds[|ds| - 1])
  }

  /** The longest prefix of `s` made of decimal digits. */
  function DigitPrefix(s: string): (ds: string)
    ensures |ds| <= |s| && ds == s[..|ds|] && AllDigits(ds)
    ensures |ds| == |s| || !IsDigit(s[|ds|])
  {
    if s != [] && IsDigit(s[0]) then [s[0]] + DigitPrefix(s[1..]) else []
  }

  /**
   * `parseInt(s, 10)`, with `None` for NaN: skip leading white space, take an
   * optional sign, then the longest run of decimal digits; no digits is NaN.
   * The result is an exact integer (negative zero is zero).
   */
  function ParseInt(s: string): (r: Option<int>)
    ensures AllWhitespace(s) ==> r.None?
    ensures r.Some? ==> exists i :: 0 <= i < |s| && IsDigit(s[i])
    ensures r.Some? && r.value < 0 ==> '-' in s
  {
    var t := TrimStart(s);
    var u := Unsigned(t);
    var ds := DigitPrefix(u);
    if ds == [] then None
    else
      assert IsDigit(s[|s| - |u|]) by {
        assert u == t[|t| - |u|..] && |u| <= |t|;
        assert s[|s| - |u|] == u[0] == ds[0];
      }
      var v := Signed(t, DecimalValue(ds));
      assert v < 0 ==> s[|s| - |t|] == '-';
      Some(v)
  }

  /** `t` without its leading sign, if it has one. */
  function Unsigned(t: string): string {
    if t != [] && (t[0] == '-' || t[0] == '+') then t[1..] else t
  }

  /** `v`, negated when `t` starts with a minus sign. */
  function Signed(t: string, v: nat): int {
    if t != [] && t[0] == '-' then -(v as int) else v
  }

  /** The canonical decimal spelling of a natural number, as `Number.prototype.toString` writes it. */
  function Decimal(n: nat): (ds: string)
    ensures ds != [] && AllDigits(ds)
    ensures DecimalValue(ds) == n
  {
    if n < 10 then [DigitChar(n)]
    else
      var ds := Decimal(n / 10) + [DigitChar(n % 10)];
      assert ds[..|ds| - 1] == Decimal(n / 10);
      ds
  }

  /** `String(n)` for an integer `n`. */
  function IntToString(n: int): string {
    if n < 0 then "-" + Decimal(-n) else Decimal(n)
  }

  lemma {:induction false} TrimStartSkipsWhitespace(ws: string, s: string)
    requires AllWhitespace(ws)
    requires s == [] || !IsWhitespace(s[0])
    ensures TrimStart(ws + s) == s
  {
    if ws != [] {
      assert (ws + s)[1..] == ws[1..] + s;
      TrimStartSkipsWhitespace(ws[1..], s);
    }
  }

  lemma {:induction false} DigitPrefixStopsAtNonDigit(ds: string, rest: string)
    requires AllDigits(ds)
    requires rest == [] || !IsDigit(rest[0])
    ensures DigitPrefix(ds + rest) == ds
  {
    if ds != [] {
      assert (ds + rest)[1..] == ds[1..] + rest;
      DigitPrefixStopsAtNonDigit(ds[1..], rest);
    }
  }

  /**
   * White space, an optional sign, a run of digits, then anything that does
   * not start with a digit: `parseInt` gives the signed value of the digits
   * and ignores the rest.
   */
  lemma ParseIntDigits(ws: string, sign: string, ds: string, rest: string)
    requires AllWhitespace(ws)
    requires sign == "" || sign == "+" || sign == "-"
    requires ds != [] && AllDigits(ds)
    requires rest == [] || !IsDigit(rest[0])
    ensures ParseInt(ws + sign + ds + rest) == Some(if sign == "-" then 0 - DecimalValue(ds) else DecimalValue(ds))
  {
    var body := sign + (ds + rest);
    assert ws + sign + ds + rest == ws + body;
    SignedDigitsFacts(ws, sign, ds, rest);
    ParseIntOfTrimmed(ws + body, body, ds);
  }

  /** The three steps of `parseInt` on white space, a sign, digits and a non-digit tail. */
  lemma SignedDigitsFacts(ws: string, sign: string, ds: string, rest: string)
    requires AllWhitespace(ws)
    requires sign == "" || sign == "+" || sign == "-"
    requires ds != [] && AllDigits(ds)
    requires rest == [] || !IsDigit(rest[0])
    ensures TrimStart(ws + (sign + (ds + rest))) == sign + (ds + rest)
    ensures DigitPrefix(Unsigned(sign + (ds + rest))) == ds
    ensures Signed(sign + (ds + rest), DecimalValue(ds)) == if sign == "-" then 0 - DecimalValue(ds) else DecimalValue(ds)
  {
    var digits := ds + rest;
    assert digits[0] == ds[0];
    UnsignedAfterSign(sign, digits);
    TrimStartSkipsWhitespace(ws, sign + digits);
    DigitPrefixStopsAtNonDigit(ds, rest);
    SignedAfterSign(sign, digits, DecimalValue(ds));
  }

  /** The sign in front of a digit decides the sign of the value. */
  lemma SignedAfterSign(sign: string, digits: string, v: nat)
    requires sign == "" || sign == "+" || sign == "-"
    requires digits != [] && IsDigit(digits[0])
    ensures Signed(sign + digits, v) == if sign == "-" then 0 - v else v
  {
    assert (sign + digits)[0] == if sign == "" then digits[0] else sign[0];
  }

  lemma ParseIntOfTrimmed(s: string, t: string, ds: string)
    requires TrimStart(s) == t && DigitPrefix(Unsigned(t)) == ds && ds != []
    ensures ParseInt(s) == Some(Signed(t, DecimalValue(ds)))
  {
  }

  /** Removing an explicit sign leaves what followed it. */
  lemma UnsignedAfterSign(sign: string, rest: string)
    requires sign == "" || sign == "+" || sign == "-"
    requires sign == "" && rest != [] ==> rest[0] != '+' && rest[0] != '-'
    ensures Unsigned(sign + rest) == rest
    ensures sign + rest == [] || !IsWhitespace((sign + rest)[0]) || (sign == "" && IsWhitespace(rest[0]))
  {
    if sign != "" {
      assert (sign + rest)[1..] == rest;
    }
  }

  /**
   * White space, an optional sign, then something that does not start with a
   * digit (nor, without a sign, with white space or a sign): `parseInt` is NaN.
   */
  lemma ParseIntNaN(ws: string, sign: string, rest: string)
    requires AllWhitespace(ws)
    requires sign == "" || sign == "+" || sign == "-"
    requires rest == [] || !IsDigit(rest[0])
    requires sign == "" && rest != [] ==> !IsWhitespace(rest[0]) && rest[0] != '+' && rest[0] != '-'
    ensures ParseInt(ws + sign + rest) == None
  {
    var body := sign + rest;
    assert ws + sign + rest == ws + body;
    UnsignedAfterSign(sign, rest);
    TrimStartSkipsWhitespace(ws, body);
  }

  /** `parseInt(String(n), 10) === n` for every integer `n`. */
  lemma ParseIntRoundTrip(n: int)
    ensures ParseInt(IntToString(n)) == Some(n)
  {
    if n < 0 {
      ParseIntSignedDecimal("-", Decimal(-n));
    } else {
      ParseIntSignedDecimal("", Decimal(n));
      assert IntToString(n) == "" + Decimal(n);
    }
  }

  /** An optional minus sign and a run of digits, as `String(n)` writes them, parse back to their value. */
  lemma ParseIntSignedDecimal(sign: string, ds: string)
    requires sign == "" || sign == "-"
    requires ds != [] && AllDigits(ds)
    ensures ParseInt(sign + ds) == Some(if sign == "-" then 0 - DecimalValue(ds) else DecimalValue(ds))
  {
    assert sign + ds == "" + sign + ds + "";
    ParseIntDigits("", sign, ds, "");
  }
}
