/**
 * How the reorder endpoint reads its `data` parameter: the string is cut at
 * every comma (PHP's `explode(',', …)`) and each piece is cast to an integer
 * id with PHP's `(int)` conversion.
 */
module RequestText {

  /** Number of occurrences of `c` in `s`. */
  function Occurrences(s: string, c: char): nat
  {
    if |s| == 0 then 0 else (if s[0] == c then 1 else 0) + Occurrences(s[1..], c)
  }

  // ---------------------------------------------------------------------------
  // explode(',', data) and its inverse
  // ---------------------------------------------------------------------------

  /**
   * The pieces of `s` between commas, left to right. The empty string gives one
   * empty piece, and adjacent commas give empty pieces, as with PHP's explode.
   */
  function Explode(s: string): (tokens: seq<string>)
    ensures |tokens| == Occurrences(s, ',') + 1
    ensures forall i :: 0 <= i < |tokens| ==> ',' !in tokens[i]
    decreases |s|
  {
    if |s| == 0 then [""]
    else
      var rest := Explode(s[1..]);
      if s[0] == ',' then [""] + rest
      else [[s[0]] + rest[0]] + rest[1..]
  }

  /** Glues the pieces back together with a comma between neighbours (PHP's implode). */
  function Join(tokens: seq<string>): string
    requires |tokens| > 0
  {
    if |tokens| == 1 then tokens[0] else tokens[0] + "," + Join(tokens[1..])
  }

  /** Gluing the pieces of `s` back together gives `s` again. */
  lemma {:induction false} JoinExplode(s: string)
    ensures Join(Explode(s)) == s
    decreases |s|
  {
    if |s| > 0 {
      var rest := Explode(s[1..]);
      JoinExplode(s[1..]);
      if s[0] == ',' {
        assert Explode(s) == [""] + rest;
        assert Join(Explode(s)) == "" + "," + Join(rest);
        assert s == [s[0]] + s[1..];
      } else if |rest| == 1 {
        assert Explode(s) == [[s[0]] + rest[0]];
        assert s == [s[0]] + s[1..];
      } else {
        var tail := rest[1..];
        assert Explode(s) == [[s[0]] + rest[0]] + tail;
        assert ([[s[0]] + rest[0]] + tail)[1..] == tail;
        assert Join(Explode(s)) == [s[0]] + rest[0] + "," + Join(tail);
        assert Join(rest) == rest[0] + "," + Join(tail);
        assert s == [s[0]] + s[1..];
      }
    }
  }

  /** A comma-free prefix `t` becomes the start of the first piece. */
  lemma {:induction false} ExplodeAfterToken(t: string, u: string)
    requires ',' !in t
    ensures Explode(t + u) == [t + Explode(u)[0]] + Explode(u)[1..]
    decreases |t|
  {
    if |t| == 0 {
      assert t + u == u;
      assert t + Explode(u)[0] == Explode(u)[0];
      assert Explode(u) == [Explode(u)[0]] + Explode(u)[1..];
    } else {
      ExplodeAfterToken(t[1..], u);
      assert (t + u)[1..] == t[1..] + u;
      assert (t + u)[0] == t[0];
      assert [t[0]] + (t[1..] + Explode(u)[0]) == t + Explode(u)[0];
    }
  }

  /** Cutting a comma-joined list of comma-free pieces gives back the same pieces. */
  lemma {:induction false} ExplodeJoin(tokens: seq<string>)
    requires |tokens| > 0
    requires forall i :: 0 <= i < |tokens| ==> ',' !in tokens[i]
    ensures Explode(Join(tokens)) == tokens
    decreases |tokens|
  {
    var t := tokens[0];
    if |tokens| == 1 {
      ExplodeAfterToken(t, "");
      assert t + "" == t;
    } else {
      var rest := tokens[1..];
      var j := Join(rest);
      ExplodeJoin(rest);
      assert ("," + j)[1..] == j;
      assert Explode("," + j) == [""] + rest;
      ExplodeAfterToken(t, "," + j);
      assert t + "," + j == t + ("," + j);
      assert t + "" == t;
      assert [t] + rest == tokens;
    }
  }

  // ---------------------------------------------------------------------------
  // PHP's (int) cast of one piece
  // ---------------------------------------------------------------------------

  predicate IsDigit(c: char)
  {
    '0' <= c <= '9'
  }

  /** The whitespace PHP skips in front of a numeric string: space, \t, \n, \r, \v and \f. */
  predicate IsLeadingSpace(c: char)
  {
    c == ' ' || c == '\t' || c == '\n' || c == '\r' || c as int == 11 || c as int == 12
  }

  function SkipSpaces(s: string): (r: string)
    ensures |r| <= |s| && r == s[|s| - |r|..]
    ensures |r| > 0 ==> !IsLeadingSpace(r[0])
    decreases |s|
  {
    if |s| > 0 && IsLeadingSpace(s[0]) then SkipSpaces(s[1..]) else s
  }

  /** The longest run of digits at the start of `s`. */
  function DigitPrefix(s: string): (p: string)
    ensures |p| <= |s| && p == s[..|p|]
    ensures forall i :: 0 <= i < |p| ==> IsDigit(p[i])
    ensures |p| < |s| ==> !IsDigit(s[|p|])
    decreases |s|
  {
    if |s| > 0 && IsDigit(s[0]) then [s[0]] + DigitPrefix(s[1..]) else ""
  }

  function DigitValue(c: char): nat
    requires IsDigit(c)
  {
    c as int - '0' as int
  }

  /** The value of a string of decimal digits, most significant first. */
  function DecimalValue(digits: string): nat
    requires forall i :: 0 <= i < |digits| ==> IsDigit(digits[i])
  {
    if |digits| == 0 then 0
    else 10 * DecimalValue(digits[..|digits| - 1]) + DigitValue(digits[|digits| - 1])
  }

  predicate IsSign(c: char)
  {
    c == '-' || c == '+'
  }

  /** What follows the leading whitespace and an optional sign. */
  function Unsigned(token: string): string
  {
    var u := SkipSpaces(token);
    if |u| > 0 && IsSign(u[0]) then u[1..] else u
  }

  /** The token starts (after whitespace and an optional sign) with a decimal digit. */
  predicate HasNumericPrefix(token: string)
  {
    var v := Unsigned(token);
    |v| > 0 && IsDigit(v[0])
  }

  predicate IsNegated(token: string)
  {
    var u := SkipSpaces(token);
    |u| > 0 && u[0] == '-'
  }

  /**
   * PHP's `(int)` cast of a string: leading whitespace is skipped, an optional
   * sign is read, then the longest run of digits; anything after it is ignored,
   * and a token with no digits there is 0.
   */
  function ParseId(token: string): (id: int)
    ensures !HasNumericPrefix(token) ==> id == 0
    ensures id < 0 ==> IsNegated(token)
  {
    var magnitude: int := DecimalValue(DigitPrefix(Unsigned(token)));
    if IsNegated(token) then -magnitude else magnitude
  }

  // ---------------------------------------------------------------------------
  // Decimal text of an id, the form the page puts into `data`
  // ---------------------------------------------------------------------------

  function DigitChar(d: nat): (c: char)
    requires d < 10
    ensures IsDigit(c) && DigitValue(c) == d
  {
    ('0' as int + d) as char
  }

  /** The shortest decimal digits of `n`. */
  function Digits(n: nat): (s: string)
    ensures |s| > 0
    ensures forall i :: 0 <= i < |s| ==> IsDigit(s[i])
  {
    if n < 10 then [DigitChar(n)] else Digits(n / 10) + [DigitChar(n % 10)]
  }

  /** `n` written in decimal, with a leading '-' when it is negative. */
  function DecimalText(n: int): string
  {
    if n < 0 then "-" + Digits(-n) else Digits(n)
  }

  lemma {:induction false} DecimalValueOfDigits(n: nat)
    ensures DecimalValue(Digits(n)) == n
  {
    if n >= 10 {
      var d := Digits(n / 10);
      var s := d + [DigitChar(n % 10)];
      DecimalValueOfDigits(n / 10);
      assert s[..|s| - 1] == d;
    }
  }

  lemma {:induction false} DigitPrefixOfDigits(s: string)
    requires forall i :: 0 <= i < |s| ==> IsDigit(s[i])
    ensures DigitPrefix(s) == s
    decreases |s|
  {
    if |s| > 0 {
      DigitPrefixOfDigits(s[1..]);
      assert s == [s[0]] + s[1..];
    }
  }

  /** Decimal text contains no comma, so it survives being cut at commas. */
  lemma DecimalTextHasNoComma(n: int)
    ensures ',' !in DecimalText(n)
  {
  }

  /** After the sign, decimal text is exactly the digits of the magnitude. */
  lemma UnsignedDecimalText(n: int)
    ensures Unsigned(DecimalText(n)) == Digits(if n < 0 then -n else n)
    ensures IsNegated(DecimalText(n)) <==> n < 0
  {
    var t := DecimalText(n);
    assert SkipSpaces(t) == t by {
      assert |t| > 0 && !IsLeadingSpace(t[0]);
    }
    if n < 0 {
      assert t[1..] == Digits(-n);
    }
  }

  /** Casting the decimal text of an id back to an integer gives the id. */
  lemma ParseDecimalText(n: int)
    ensures ParseId(DecimalText(n)) == n
  {
    var m: nat := if n < 0 then -n else n;
    UnsignedDecimalText(n);
    DigitPrefixOfDigits(Digits(m));
    DecimalValueOfDigits(m);
  }
}
