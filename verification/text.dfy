/** Character classes, string predicates and decimal-digit conversions shared by the
    signature and report models. Strings are `seq<char>`; only ASCII classes are used,
    which is what Python 2's `re` and `int` apply to byte strings. */
module Text {

  import opened Wrappers

  /** `\d` of a byte-string regular expression. */
  predicate IsDigit(c: char) {
    '0' <= c <= '9'
  }

  /** The character class `[01234567890abcdefABCDEF]`. */
  predicate IsHexDigit(c: char) {
    IsDigit(c) || 'a' <= c <= 'f' || 'A' <= c <= 'F'
  }

  /** The character class `[/\\]`: a path separator of either platform. */
  predicate IsSeparator(c: char) {
    c == '/' || c == '\\'
  }

  /** What Python 2's `str.isspace` accepts, and so what `int()` strips. */
  predicate IsWhitespace(c: char) {
    c == ' ' || c == '\t' || c == '\n' || c == '\r' || c == '\U{000B}' || c == '\U{000C}'
  }

  predicate StartsWith(s: string, p: string) {
    |p| <= |s| && s[..|p|] == p
  }

  predicate AllDigits(s: string) {
    forall i :: 0 <= i < |s| ==> IsDigit(s[i])
  }

  predicate AllWhitespace(s: string) {
    forall i :: 0 <= i < |s| ==> IsWhitespace(s[i])
  }

  predicate NoSeparator(s: string) {
    forall i :: 0 <= i < |s| ==> !IsSeparator(s[i])
  }

  /** `s` with every space character deleted. */
  function StripSpaces(s: string): (r: string)
    ensures forall i :: 0 <= i < |r| ==> r[i] != ' '
    ensures |r| <= |s|
  {
    if s == [] then []
    else if s[0] == ' ' then StripSpaces(s[1..])
    else [s[0]] + StripSpaces(s[1..])
  }

  /** `xs` can be obtained from `ys` by deleting elements, keeping the order. */
  predicate Subsequence<T(==)>(xs: seq<T>, ys: seq<T>)
    decreases |ys|
  {
    if xs == [] then true
    else if ys == [] then false
    else (xs[0] == ys[0] && Subsequence(xs[1..], ys[1..])) || Subsequence(xs, ys[1..])
  }

  /** The parts written one after the other. */
  function Concat(parts: seq<string>): string {
    if parts == [] then [] else parts[0] + Concat(parts[1..])
  }

  // ---------------------------------------------------------------------------
  // Decimal digits

  function DigitValue(c: char): (d: nat)
    requires IsDigit(c)
    ensures d < 10
  {
    (c - '0') as nat
  }

  function DigitChar(d: nat): (c: char)
    requires d < 10
    ensures IsDigit(c) && DigitValue(c) == d
  {
    ('0' as int + d) as char
  }

  /** The value of a string of decimal digits, leading zeros allowed. */
  function DigitsToNat(s: string): nat
    requires AllDigits(s)
  {
    if s == [] then 0 else DigitsToNat(s[..|s| - 1]) * 10 + DigitValue(s[|s| - 1])
  }

  lemma TwoDigitValue(d: string)
    requires |d| == 2 && AllDigits(d)
    ensures DigitsToNat(d) == 10 * DigitValue(d[0]) + DigitValue(d[1])
  {
    var a := d[..1];
    assert a[..0] == [] && a[0] == d[0];
    assert DigitsToNat(a) == DigitValue(d[0]);
  }

  lemma FourDigitValue(d: string)
    requires |d| == 4 && AllDigits(d)
    ensures DigitsToNat(d)
            == 1000 * DigitValue(d[0]) + 100 * DigitValue(d[1]) + 10 * DigitValue(d[2]) + DigitValue(d[3])
  {
    var c := d[..3];
    var b := c[..2];
    assert c[2] == d[2] && b == d[..2] && b[1] == d[1] && b[0] == d[0];
    TwoDigitValue(b);
    assert DigitsToNat(c) == 10 * DigitsToNat(b) + DigitValue(d[2]);
  }

  /** The shortest decimal rendering of `n`, as Python's `str` writes it. */
  function NatToString(n: nat): (r: string)
    ensures |r| > 0 && AllDigits(r)
  {
    if n < 10 then [DigitChar(n)] else NatToString(n / 10) + [DigitChar(n % 10)]
  }

  /** `n` written with exactly `width` digits, zero-padded on the left (the value is
      taken modulo 10^width). */
  function PadDigits(n: nat, width: nat): (r: string)
    ensures |r| == width && AllDigits(r)
  {
    if width == 0 then [] else PadDigits(n / 10, width - 1) + [DigitChar(n % 10)]
  }

  /** Python 2's `str(i)` for an integer. */
  function IntToString(i: int): string {
    if i < 0 then "-" + NatToString(-i) else NatToString(i)
  }

  lemma {:induction false} NatToStringRoundTrip(n: nat)
    ensures DigitsToNat(NatToString(n)) == n
  {
    var r := NatToString(n);
    if n >= 10 {
      NatToStringRoundTrip(n / 10);
      assert r[..|r| - 1] == NatToString(n / 10);
    }
  }

  /** Reading `width` digits back and zero-padding them to the same width gives the
      digits that were read. */
  lemma {:induction false} PadDigitsRoundTrip(s: string)
    requires AllDigits(s)
    ensures PadDigits(DigitsToNat(s), |s|) == s
  {
    if s != [] {
      var init := s[..|s| - 1];
      PadDigitsRoundTrip(init);
      var n := DigitsToNat(s);
      assert n / 10 == DigitsToNat(init);
      assert n % 10 == DigitValue(s[|s| - 1]);
      assert s == init + [s[|s| - 1]];
    }
  }

  // ---------------------------------------------------------------------------
  // Python 2 `int(text)` in base 10

  /** `s` without its leading whitespace. */
  function TrimLeft(s: string): (r: string)
    ensures |r| <= |s|
    ensures r == [] || !IsWhitespace(r[0])
  {
    if s != [] && IsWhitespace(s[0]) then TrimLeft(s[1..]) else s
  }

  /** `s` without its trailing whitespace. */
  function TrimRight(s: string): (r: string)
    ensures |r| <= |s|
    ensures r == [] || !IsWhitespace(r[|r| - 1])
  {
    if s != [] && IsWhitespace(s[|s| - 1]) then TrimRight(s[..|s| - 1]) else s
  }

  /** Trimming on the left removes only whitespace from the front. */
  lemma {:induction false} TrimLeftDropsWhitespace(s: string)
    ensures var k := |s| - |TrimLeft(s)|;
      TrimLeft(s) == s[k..] && forall i :: 0 <= i < k ==> IsWhitespace(s[i])
  {
    if s != [] && IsWhitespace(s[0]) {
      TrimLeftDropsWhitespace(s[1..]);
    }
  }

  /** Trimming on the right removes only whitespace from the end. */
  lemma {:induction false} TrimRightDropsWhitespace(s: string)
    ensures var k := |TrimRight(s)|;
      TrimRight(s) == s[..k] && forall i :: k <= i < |s| ==> IsWhitespace(s[i])
  {
    if s != [] && IsWhitespace(s[|s| - 1]) {
      TrimRightDropsWhitespace(s[..|s| - 1]);
    }
  }

  /** Python 2's `int(s)` in base 10: whitespace around the text is ignored, and so is
      whitespace between an optional sign and the digits; at least one decimal digit
      must follow. Anything else is a `ValueError`, here `None`. */
  function ParseInt(s: string): Option<int> {
    ParseTrimmed(TrimRight(TrimLeft(s)))
  }

  /** `int()` of text with no whitespace around it. */
  function ParseTrimmed(t: string): Option<int> {
    if t == [] then None
    else if t[0] == '-' || t[0] == '+' then ParseSigned(t[0], TrimLeft(t[1..]))
    else if AllDigits(t) then Some(DigitsToNat(t))
    else None
  }

  /** The digits after a sign and any whitespace that follows it. */
  function ParseSigned(sign: char, digits: string): Option<int> {
    if digits != [] && AllDigits(digits) then Some(Signed(sign, DigitsToNat(digits))) else None
  }

  /** `magnitude` with the sign `sign` applied. */
  function Signed(sign: char, magnitude: nat): int {
    if sign == '-' then -(magnitude as int) else magnitude
  }

  /** Whitespace between the sign and the digits is skipped: `int("- 5") == -5` and
      `int("+\t7") == 7`. */
  lemma SpaceAfterSign(sign: char, ws: string, digits: string)
    requires sign == '-' || sign == '+'
    requires AllWhitespace(ws)
    requires digits != [] && AllDigits(digits)
    ensures ParseInt([sign] + ws + digits) == Some(Signed(sign, DigitsToNat(digits)))
  {
    assert IsDigit(digits[0]) && IsDigit(digits[|digits| - 1]);
    WhitespaceThenText(ws, digits);
    var rest := ws + digits;
    assert [sign] + ws + digits == [sign] + rest;
    assert rest[|rest| - 1] == digits[|digits| - 1];
    SignedText(sign, rest);
  }

  /** Text that opens with a sign and does not end with whitespace reads the rest after
      skipping the whitespace at its start. */
  lemma SignedText(sign: char, rest: string)
    requires sign == '-' || sign == '+'
    requires rest != [] && !IsWhitespace(rest[|rest| - 1])
    ensures ParseInt([sign] + rest) == ParseSigned(sign, TrimLeft(rest))
  {
    var s := [sign] + rest;
    assert s[1..] == rest && s[|s| - 1] == rest[|rest| - 1];
    TrimKeepsUnpadded(s);
  }

  lemma {:induction false} WhitespaceThenText(ws: string, t: string)
    requires AllWhitespace(ws)
    requires t == [] || !IsWhitespace(t[0])
    ensures TrimLeft(ws + t) == t
  {
    if ws != [] {
      assert (ws + t)[1..] == ws[1..] + t;
      WhitespaceThenText(ws[1..], t);
    } else {
      assert ws + t == t;
    }
  }

  /** A sign followed only by whitespace, or by nothing, is a `ValueError`. */
  lemma BareSignRejected(sign: char, ws: string)
    requires sign == '-' || sign == '+'
    requires AllWhitespace(ws)
    ensures ParseInt([sign] + ws) == None
  {
    var s := [sign] + ws;
    assert TrimLeft(s) == s;
    TrimTrailingWhitespace(sign, ws);
    assert [sign][1..] == [];
  }

  lemma {:induction false} TrimTrailingWhitespace(c: char, ws: string)
    requires !IsWhitespace(c)
    requires AllWhitespace(ws)
    ensures TrimRight([c] + ws) == [c]
  {
    var s := [c] + ws;
    if ws == [] {
      assert s == [c];
    } else {
      var init := ws[..|ws| - 1];
      assert s[..|s| - 1] == [c] + init && s[|s| - 1] == ws[|ws| - 1];
      TrimTrailingWhitespace(c, init);
    }
  }

  /** `int(str(i)) == i`. */
  lemma IntToStringRoundTrip(i: int)
    ensures ParseInt(IntToString(i)) == Some(i)
  {
    var n: nat := if i < 0 then -i else i;
    var digits := NatToString(n);
    NatToStringRoundTrip(n);
    if i < 0 {
      SpaceAfterSign('-', [], digits);
      assert IntToString(i) == ['-'] + [] + digits;
    } else {
      UnsignedText(digits);
    }
  }

  /** Text made of digits alone reads as their value. */
  lemma UnsignedText(digits: string)
    requires digits != [] && AllDigits(digits)
    ensures ParseInt(digits) == Some(DigitsToNat(digits) as int)
  {
    assert IsDigit(digits[0]) && IsDigit(digits[|digits| - 1]);
    TrimKeepsUnpadded(digits);
  }

  /** Text that neither starts nor ends with whitespace is not trimmed. */
  lemma TrimKeepsUnpadded(s: string)
    requires s != [] && !IsWhitespace(s[0]) && !IsWhitespace(s[|s| - 1])
    ensures TrimRight(TrimLeft(s)) == s
  {
    assert TrimLeft(s) == s;
  }

  // ---------------------------------------------------------------------------
  // The text `int()` accepts, described by its parts

  predicate IsSign(c: char) {
    c == '-' || c == '+'
  }

  /** `s` splits at `a <= c < d` into leading whitespace `s[..a]`, an optional sign
      `s[a]` with whitespace after it up to `c` (no sign when `a == c`), the digits
      `s[c..d]` and trailing whitespace `s[d..]`. */
  predicate IntTextAt(s: string, a: int, c: int, d: int) {
    && 0 <= a <= c < d <= |s|
    && AllWhitespace(s[..a])
    && (a == c || (IsSign(s[a]) && AllWhitespace(s[a + 1..c])))
    && AllDigits(s[c..d])
    && AllWhitespace(s[d..])
  }

  /** The number written by the parts of such a split. */
  function IntTextValue(s: string, a: int, c: int, d: int): int
    requires IntTextAt(s, a, c, d)
  {
    Signed(if a < c then s[a] else '+', DigitsToNat(s[c..d]))
  }

  predicate IsIntText(s: string) {
    exists a, c, d | 0 <= a <= c < d <= |s| :: IntTextAt(s, a, c, d)
  }

  /** `int()` accepts exactly the texts of that shape, and gives the number their
      parts write. */
  lemma ParseIntAcceptsExactly(s: string)
    ensures ParseInt(s).Some? <==> IsIntText(s)
    ensures forall a, c, d :: IntTextAt(s, a, c, d) ==> ParseInt(s) == Some(IntTextValue(s, a, c, d))
  {
    forall a, c, d | IntTextAt(s, a, c, d)
      ensures ParseInt(s) == Some(IntTextValue(s, a, c, d))
    {
      IntTextAccepted(s, a, c, d);
    }
    if ParseInt(s).Some? {
      IntTextOnly(s);
    }
  }

  lemma IntTextAccepted(s: string, a: int, c: int, d: int)
    requires IntTextAt(s, a, c, d)
    ensures ParseInt(s) == Some(IntTextValue(s, a, c, d))
  {
    assert IsDigit(s[c..d][0]) && IsDigit(s[c..d][d - c - 1]);
    assert !IsWhitespace(s[a]) && !IsWhitespace(s[d - 1]);
    TrimsToCore(s, a, d);
    CoreValue(s, a, c, d);
  }

  /** Trimming leaves the part between the leading and the trailing whitespace. */
  lemma TrimsToCore(s: string, a: int, d: int)
    requires 0 <= a < d <= |s| && AllWhitespace(s[..a]) && AllWhitespace(s[d..])
    requires !IsWhitespace(s[a]) && !IsWhitespace(s[d - 1])
    ensures TrimRight(TrimLeft(s)) == s[a..d]
  {
    TrimLeftAfter(s, a);
    var x := s[a..];
    assert x[d - a - 1] == s[d - 1] && x[d - a..] == s[d..];
    TrimRightBefore(x, d - a);
    assert x[..d - a] == s[a..d];
  }

  /** The part between the whitespace reads as the number of the split. */
  lemma CoreValue(s: string, a: int, c: int, d: int)
    requires IntTextAt(s, a, c, d)
    ensures ParseTrimmed(s[a..d]) == Some(IntTextValue(s, a, c, d))
  {
    var t := s[a..d];
    var digits := s[c..d];
    if a == c {
      assert t == digits;
      assert IsDigit(t[0]);
    } else {
      var u := t[1..];
      assert u[..c - a - 1] == s[a + 1..c] && u[c - a - 1] == digits[0] && u[c - a - 1..] == digits;
      assert IsDigit(digits[0]);
      TrimLeftAfter(u, c - a - 1);
    }
  }

  lemma IntTextOnly(s: string)
    requires ParseInt(s).Some?
    ensures exists a, c, d :: IntTextAt(s, a, c, d) && ParseInt(s) == Some(IntTextValue(s, a, c, d))
  {
    var a, d := TrimBounds(s);
    var c := SignBound(s, a, d);
    assert IntTextAt(s, a, c, d);
    IntTextAccepted(s, a, c, d);
  }

  /** What `int()` trims is whitespace on both sides of a middle slice. */
  lemma TrimBounds(s: string) returns (a: nat, d: nat)
    ensures a <= d <= |s| && TrimRight(TrimLeft(s)) == s[a..d]
    ensures AllWhitespace(s[..a]) && AllWhitespace(s[d..])
  {
    var l := TrimLeft(s);
    TrimLeftDropsWhitespace(s);
    a := |s| - |l|;
    var t := TrimRight(l);
    TrimRightDropsWhitespace(l);
    d := a + |t|;
    assert l == s[a..];
    assert forall i :: 0 <= i < |s[d..]| ==> s[d..][i] == l[|t| + i];
  }

  /** Where the digits start in a trimmed text that parses. */
  lemma SignBound(s: string, a: nat, d: nat) returns (c: nat)
    requires a <= d <= |s| && ParseTrimmed(s[a..d]).Some?
    ensures a <= c < d && AllDigits(s[c..d])
    ensures a == c || (IsSign(s[a]) && AllWhitespace(s[a + 1..c]))
  {
    var t := s[a..d];
    if IsSign(t[0]) {
      var u := t[1..];
      var digits := TrimLeft(u);
      TrimLeftDropsWhitespace(u);
      var k := |u| - |digits|;
      c := a + 1 + k;
      assert s[a + 1..c] == u[..k];
      assert s[c..d] == digits;
    } else {
      c := a;
    }
  }

  /** Text whose first `a` characters are whitespace and whose next one is not loses
      exactly those to `TrimLeft`. */
  lemma {:induction false} TrimLeftAfter(s: string, a: int)
    requires 0 <= a < |s| && AllWhitespace(s[..a]) && !IsWhitespace(s[a])
    ensures TrimLeft(s) == s[a..]
  {
    if a > 0 {
      assert IsWhitespace(s[..a][0]);
      var t := s[1..];
      assert t[..a - 1] == s[1..a] && t[a - 1] == s[a] && t[a - 1..] == s[a..];
      TrimLeftAfter(t, a - 1);
    }
  }

  /** Text whose characters from `e` on are whitespace, and whose character before `e`
      is not, loses exactly those to `TrimRight`. */
  lemma {:induction false} TrimRightBefore(s: string, e: int)
    requires 0 < e <= |s| && !IsWhitespace(s[e - 1]) && AllWhitespace(s[e..])
    ensures TrimRight(s) == s[..e]
    decreases |s| - e
  {
    if e < |s| {
      assert IsWhitespace(s[e..][|s| - 1 - e]);
      var t := s[..|s| - 1];
      assert t[e - 1] == s[e - 1] && t[e..] == s[e..|s| - 1] && t[..e] == s[..e];
      TrimRightBefore(t, e);
    } else {
      assert s[..e] == s;
    }
  }
}
