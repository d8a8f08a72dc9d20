/** String primitives of the JavaScript runtime that the components rely on:
    the `\s` character class, `toLowerCase`, `includes`, `trim`,
    `split(/\s+/)`, `parseInt` and decimal rendering of numbers. */
module Text {
  import opened Wrappers

  /** The ECMAScript `\s` class (WhiteSpace and LineTerminator code points).
      `String.prototype.trim` strips exactly the same set. */
  predicate IsWhitespace(c: char) {
    var n := c as int;
    n == 0x09 || n == 0x0A || n == 0x0B || n == 0x0C || n == 0x0D || n == 0x20
    || n == 0xA0 || n == 0x1680 || (0x2000 <= n <= 0x200A)
    || n == 0x2028 || n == 0x2029 || n == 0x202F || n == 0x205F
    || n == 0x3000 || n == 0xFEFF
  }

  predicate IsAsciiUpper(c: char) { 'A' <= c <= 'Z' }

  predicate IsAsciiLower(c: char) { 'a' <= c <= 'z' }

  predicate IsDigit(c: char) { '0' <= c <= '9' }

  /** The ECMAScript `\w` class: `[A-Za-z0-9_]`. */
  predicate IsWordChar(c: char) {
    IsAsciiUpper(c) || IsAsciiLower(c) || IsDigit(c) || c == '_'
  }

  /** `toLowerCase` on one character, for the ASCII letters. */
  function ToLowerChar(c: char): (r: char)
    ensures IsAsciiUpper(c) ==> IsAsciiLower(r)
    ensures !IsAsciiUpper(c) ==> r == c
    ensures !IsAsciiUpper(r)
  {
    if IsAsciiUpper(c) then (c as int - 'A' as int + 'a' as int) as char else c
  }

  /** `toLowerCase` applied character by character. */
  function Lower(s: string): (r: string)
    ensures |r| == |s|
    ensures forall i :: 0 <= i < |s| ==> r[i] == ToLowerChar(s[i])
  {
    if s == [] then [] else [ToLowerChar(s[0])] + Lower(s[1..])
  }

  /** Lowering works piece by piece. */
  lemma LowerAppend(a: string, b: string)
    ensures Lower(a + b) == Lower(a) + Lower(b)
  {
    assert forall i :: 0 <= i < |a + b| ==> Lower(a + b)[i] == (Lower(a) + Lower(b))[i];
  }

  /** `hay.includes(needle)`: `needle` occurs at some offset of `hay`. */
  predicate Contains(hay: string, needle: string) {
    exists k: nat | k <= |hay| :: OccursAt(hay, needle, k)
  }

  /** `needle` occurs in `hay` starting at offset `k`. */
  predicate OccursAt(hay: string, needle: string, k: nat) {
    k + |needle| <= |hay| && hay[k..k + |needle|] == needle
  }

  /** Every string includes the empty string. */
  lemma ContainsEmpty(hay: string)
    ensures Contains(hay, [])
  {
    assert OccursAt(hay, [], 0);
  }

  /** No character of `s` is whitespace. */
  predicate NoWhitespace(s: string) {
    forall i :: 0 <= i < |s| ==> !IsWhitespace(s[i])
  }

  /** `s.trimStart()`: drop the leading run of whitespace. */
  function TrimStart(s: string): (r: string)
    ensures |r| <= |s| && r == s[|s| - |r|..]
    ensures r == [] || !IsWhitespace(r[0])
    ensures forall i :: 0 <= i < |s| - |r| ==> IsWhitespace(s[i])
  {
    if s != [] && IsWhitespace(s[0]) then TrimStart(s[1..]) else s
  }

  /** `s.trimEnd()`: drop the trailing run of whitespace. */
  function TrimEnd(s: string): (r: string)
    ensures |r| <= |s| && r == s[..|r|]
    ensures r == [] || !IsWhitespace(r[|r| - 1])
    ensures forall i :: |r| <= i < |s| ==> IsWhitespace(s[i])
  {
    if s != [] && IsWhitespace(s[|s| - 1]) then TrimEnd(s[..|s| - 1]) else s
  }

  /** `s.trim()`. */
  function Trim(s: string): string {
    TrimEnd(TrimStart(s))
  }

  /** `s.trim()` is truthy (non-empty) exactly when `s` has a character
      outside the `\s` class. */
  lemma TrimNonEmptyIff(s: string)
    ensures Trim(s) != [] <==> exists i :: 0 <= i < |s| && !IsWhitespace(s[i])
  {
    var t := TrimStart(s);
    if Trim(s) != [] {
      var i := |s| - |t|;
      assert s[i] == t[0];
    }
  }

  /** The pieces of `s.split(/\s+/)`: every maximal run of whitespace is a
      separator, so a leading or trailing run yields an empty piece and the
      empty string yields one empty piece. */
  function SplitWhitespace(s: string): (pieces: seq<string>)
    ensures |pieces| >= 1
    decreases |s|
  {
    if s == [] then [[]]
    else if IsWhitespace(s[0]) then [[]] + SplitWhitespace(TrimStart(s))
    else
      var rest := SplitWhitespace(s[1..]);
      [[s[0]] + rest[0]] + rest[1..]
  }

  /** `pieces.join(sep)`. */
  function Join(pieces: seq<string>, sep: char): string {
    if pieces == [] then []
    else if |pieces| == 1 then pieces[0]
    else pieces[0] + [sep] + Join(pieces[1..], sep)
  }

  /** `s` with every whitespace character removed. */
  function RemoveWhitespace(s: string): (r: string)
    ensures NoWhitespace(r)
  {
    if s == [] then []
    else if IsWhitespace(s[0]) then RemoveWhitespace(s[1..])
    else [s[0]] + RemoveWhitespace(s[1..])
  }

  /** No piece of a split holds whitespace. */
  lemma {:induction false} SplitPiecesHaveNoWhitespace(s: string)
    ensures forall k :: 0 <= k < |SplitWhitespace(s)| ==> NoWhitespace(SplitWhitespace(s)[k])
    decreases |s|
  {
    if s == [] {
    } else if IsWhitespace(s[0]) {
      SplitPiecesHaveNoWhitespace(TrimStart(s));
    } else {
      SplitPiecesHaveNoWhitespace(s[1..]);
      var rest := SplitWhitespace(s[1..]);
      assert NoWhitespace([s[0]] + rest[0]);
    }
  }

  /** Only the first and the last piece of a split can be empty: the pieces
      in between sit between two maximal whitespace runs. */
  lemma {:induction false} SplitInnerPiecesNonEmpty(s: string)
    ensures forall k :: 0 < k < |SplitWhitespace(s)| - 1 ==> SplitWhitespace(s)[k] != []
    decreases |s|
  {
    if s == [] {
    } else if IsWhitespace(s[0]) {
      var t := TrimStart(s);
      SplitInnerPiecesNonEmpty(t);
      if t != [] {
        SplitNonWhitespaceHead(t);
      }
    } else {
      SplitInnerPiecesNonEmpty(s[1..]);
    }
  }

  /** The pieces of a split, put back together, are `s` without its
      whitespace: splitting loses the separators and nothing else. */
  lemma {:induction false} SplitFlattenIsRemoveWhitespace(s: string)
    ensures Flatten(SplitWhitespace(s)) == RemoveWhitespace(s)
    decreases |s|
  {
    if s == [] {
    } else if IsWhitespace(s[0]) {
      var t := TrimStart(s);
      SplitFlattenIsRemoveWhitespace(t);
      RemoveLeadingWhitespace(s, |s| - |t|);
    } else {
      var rest := SplitWhitespace(s[1..]);
      SplitFlattenIsRemoveWhitespace(s[1..]);
      assert SplitWhitespace(s) == [[s[0]] + rest[0]] + rest[1..];
      assert Flatten(SplitWhitespace(s)) == [s[0]] + rest[0] + Flatten(rest[1..]);
    }
  }

  /** A split of a string that starts with a non-whitespace character starts
      with a non-empty piece. */
  lemma {:induction false} SplitNonWhitespaceHead(s: string)
    requires s != [] && !IsWhitespace(s[0])
    ensures SplitWhitespace(s)[0] != []
  {
  }

  lemma {:induction false} RemoveLeadingWhitespace(s: string, n: nat)
    requires n <= |s|
    requires forall i :: 0 <= i < n ==> IsWhitespace(s[i])
    ensures RemoveWhitespace(s) == RemoveWhitespace(s[n..])
    decreases n
  {
    if n > 0 {
      assert s[1..][n - 1..] == s[n..];
      RemoveLeadingWhitespace(s[1..], n - 1);
    }
  }

  /** Concatenation of all pieces. */
  function Flatten(pieces: seq<string>): string {
    if pieces == [] then [] else pieces[0] + Flatten(pieces[1..])
  }

  /** Decimal rendering of a natural number (`String(n)`), most significant
      digit first, with no leading zeros. */
  function NatToString(n: nat): (r: string)
    ensures r != [] && forall i :: 0 <= i < |r| ==> IsDigit(r[i])
    ensures |r| > 1 ==> r[0] != '0'
  {
    if n < 10 then [('0' as int + n) as char]
    else NatToString(n / 10) + [('0' as int + n % 10) as char]
  }

  /** Value of a digit in base 10 or 16, `None` for other characters. */
  function DigitValue(c: char, radix: nat): (v: Option<nat>)
    requires radix == 10 || radix == 16
    ensures v.Some? ==> v.value < radix
  {
    if IsDigit(c) then Some(c as int - '0' as int)
    else if radix == 16 && 'a' <= c <= 'f' then Some(c as int - 'a' as int + 10)
    else if radix == 16 && 'A' <= c <= 'F' then Some(c as int - 'A' as int + 10)
    else None
  }

  /** Length of the longest prefix of `s` made of digits of `radix`. */
  function DigitRun(s: string, radix: nat): (n: nat)
    requires radix == 10 || radix == 16
    ensures n <= |s|
    ensures forall i :: 0 <= i < n ==> DigitValue(s[i], radix).Some?
    ensures n < |s| ==> DigitValue(s[n], radix).None?
  {
    if s == [] || DigitValue(s[0], radix).None? then 0 else 1 + DigitRun(s[1..], radix)
  }

  /** The number written by the digits `ds`, most significant first. */
  function DigitsValue(ds: string, radix: nat): nat
    requires radix == 10 || radix == 16
    requires forall i :: 0 <= i < |ds| ==> DigitValue(ds[i], radix).Some?
  {
    if ds == [] then 0
    else DigitsValue(ds[..|ds| - 1], radix) * radix + DigitValue(ds[|ds| - 1], radix).value
  }

  /** The longest run of `radix` digits at the start of `d`, read as a
      number; `None` when there is none. */
  function ParseRun(d: string, radix: nat): Option<nat>
    requires radix == 10 || radix == 16
  {
    var n := DigitRun(d, radix);
    if n == 0 then None else Some(DigitsValue(d[..n], radix))
  }

  /** The unsigned part of `parseInt`: a `0x`/`0X` prefix selects base 16,
      otherwise base 10. */
  function ParseUnsigned(u: string): Option<nat> {
    if |u| >= 2 && u[0] == '0' && (u[1] == 'x' || u[1] == 'X') then ParseRun(u[2..], 16)
    else ParseRun(u, 10)
  }

  /** `parseInt(s)` with no radix, `None` standing for `NaN`: leading
      whitespace is skipped, one sign is read, and the unsigned number that
      follows is negated after a `-`; without a digit the result is `NaN`. */
  function ParseInt(s: string): Option<int> {
    ParseSigned(TrimStart(s))
  }

  /** `parseInt` after the leading whitespace: an optional sign, then the
      unsigned number. */
  function ParseSigned(t: string): Option<int> {
    if t != [] && t[0] == '-' then
      match ParseUnsigned(t[1..])
      case None => None
      case Some(n) => Some(-(n as int))
    else if t != [] && t[0] == '+' then
      match ParseUnsigned(t[1..])
      case None => None
      case Some(n) => Some(n)
    else
      match ParseUnsigned(t)
      case None => None
      case Some(n) => Some(n)
  }

  lemma {:induction false} DecimalValue(n: nat)
    ensures forall i :: 0 <= i < |NatToString(n)| ==> DigitValue(NatToString(n)[i], 10).Some?
    ensures DigitsValue(NatToString(n), 10) == n
  {
    var s := NatToString(n);
    if n >= 10 {
      DecimalValue(n / 10);
      assert s[..|s| - 1] == NatToString(n / 10);
    }
  }

  /** `parseInt` reads back the decimal text of every natural number. */
  lemma ParseIntReadsDecimal(n: nat)
    ensures ParseInt(NatToString(n)) == Some(n)
  {
    ParseIntReadsPrefix([], n, []);
    assert [] + NatToString(n) + [] == NatToString(n);
  }

  /** `parseInt` stops at the first character that is not a digit: the
      decimal text of `n` followed by such a text reads as `n`. After a
      lone `0` the text must not go on with `x`, which would start a
      hexadecimal number. */
  lemma DecimalPrefix(n: nat, rest: string)
    requires rest == [] || !IsDigit(rest[0])
    requires n == 0 ==> rest == [] || (rest[0] != 'x' && rest[0] != 'X')
    ensures ParseUnsigned(NatToString(n) + rest) == Some(n)
  {
    var s := NatToString(n);
    var u := s + rest;
    DecimalValue(n);
    DigitRunPrefix(s, rest);
    assert u[..|s|] == s;
    if n == 0 {
      assert s == "0";
    } else {
      assert s[0] != '0';
    }
    assert ParseRun(u, 10) == Some(n);
  }

  lemma {:induction false} DigitRunPrefix(s: string, rest: string)
    requires forall i :: 0 <= i < |s| ==> DigitValue(s[i], 10).Some?
    requires rest == [] || !IsDigit(rest[0])
    ensures DigitRun(s + rest, 10) == |s|
  {
    if s == [] {
      assert s + rest == rest;
    } else {
      assert (s + rest)[1..] == s[1..] + rest;
      DigitRunPrefix(s[1..], rest);
    }
  }

  /** Leading whitespace is skipped by `trimStart` and only by it. */
  lemma {:induction false} TrimStartSkips(ws: string, t: string)
    requires forall i :: 0 <= i < |ws| ==> IsWhitespace(ws[i])
    requires t == [] || !IsWhitespace(t[0])
    ensures TrimStart(ws + t) == t
  {
    if ws == [] {
      assert ws + t == t;
    } else {
      assert (ws + t)[1..] == ws[1..] + t;
      TrimStartSkips(ws[1..], t);
    }
  }

  /** Leading whitespace does not change what `parseInt` reads. */
  lemma ParseIntSkipsWhitespace(ws: string, t: string)
    requires forall i :: 0 <= i < |ws| ==> IsWhitespace(ws[i])
    requires t == [] || !IsWhitespace(t[0])
    ensures ParseInt(ws + t) == ParseSigned(t)
  {
    TrimStartSkips(ws, t);
  }

  /** `parseInt` reads a decimal number after leading whitespace, and
      ignores whatever follows its digits. */
  lemma ParseIntReadsPrefix(ws: string, n: nat, rest: string)
    requires forall i :: 0 <= i < |ws| ==> IsWhitespace(ws[i])
    requires rest == [] || !IsDigit(rest[0])
    requires n == 0 ==> rest == [] || (rest[0] != 'x' && rest[0] != 'X')
    ensures ParseInt(ws + NatToString(n) + rest) == Some(n)
  {
    var digits := NatToString(n);
    var u := digits + rest;
    DecimalPrefix(n, rest);
    assert u[0] == digits[0] && IsDigit(u[0]);
    assert ws + digits + rest == ws + u;
    ParseIntSkipsWhitespace(ws, u);
  }

  /** The same after a `-`: the number read is negated. */
  lemma ParseIntReadsNegativePrefix(ws: string, n: nat, rest: string)
    requires forall i :: 0 <= i < |ws| ==> IsWhitespace(ws[i])
    requires rest == [] || !IsDigit(rest[0])
    requires n == 0 ==> rest == [] || (rest[0] != 'x' && rest[0] != 'X')
    ensures ParseInt(ws + "-" + NatToString(n) + rest) == Some(-(n as int))
  {
    NegativeAfterWhitespace(ws, n, rest);
    SignConcat(ws, NatToString(n), rest);
  }

  lemma NegativeAfterWhitespace(ws: string, n: nat, rest: string)
    requires forall i :: 0 <= i < |ws| ==> IsWhitespace(ws[i])
    requires rest == [] || !IsDigit(rest[0])
    requires n == 0 ==> rest == [] || (rest[0] != 'x' && rest[0] != 'X')
    ensures ParseInt(ws + (['-'] + (NatToString(n) + rest))) == Some(-(n as int))
  {
    var u := NatToString(n) + rest;
    DecimalPrefix(n, rest);
    NegativeSign(u, n);
    ParseIntSkipsWhitespace(ws, ['-'] + u);
  }

  lemma SignConcat(ws: string, digits: string, rest: string)
    ensures ws + "-" + digits + rest == ws + (['-'] + (digits + rest))
  {
  }

  lemma NegativeSign(u: string, n: nat)
    requires ParseUnsigned(u) == Some(n)
    ensures ParseSigned(['-'] + u) == Some(-(n as int))
  {
    assert (['-'] + u)[1..] == u;
  }

  /** A text without a decimal digit is `NaN` to `parseInt`; this includes
      the empty text. */
  lemma ParseIntWithoutDigits(s: string)
    requires forall i :: 0 <= i < |s| ==> !IsDigit(s[i])
    ensures ParseInt(s) == None
  {
    var t := TrimStart(s);
    assert forall i :: 0 <= i < |t| ==> t[i] == s[|s| - |t| + i];
    if t != [] && (t[0] == '-' || t[0] == '+') {
      assert forall i :: 0 <= i < |t[1..]| ==> t[1..][i] == t[i + 1];
      NoDigitsNoNumber(t[1..]);
    } else {
      NoDigitsNoNumber(t);
    }
  }

  lemma NoDigitsNoNumber(u: string)
    requires forall i :: 0 <= i < |u| ==> !IsDigit(u[i])
    ensures ParseUnsigned(u) == None
  {
    if u != [] {
      assert DigitValue(u[0], 10).None?;
    }
  }
}
