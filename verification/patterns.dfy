/** The regular expressions the processor keeps as class attributes
    (socorro/processor/processor.py lines 96-101), each written out as an explicit
    function or predicate on strings. `match` anchors at the start of the text and
    `search` finds the leftmost match anywhere; both are spelled out below. */
module Patterns {

  import opened Wrappers
  import opened Text

  // ---------------------------------------------------------------------------
  // fixupSpace: ' (?=[\*&,])', applied with re.sub(..., '')

  /** Characters before which `fixupSpace` deletes a space. */
  predicate IsSpaceTarget(c: char) {
    c == '*' || c == '&' || c == ','
  }

  /** Some space stands directly before `*`, `&` or `,`. */
  predicate SpaceBeforeTarget(s: string) {
    exists i :: 0 <= i < |s| - 1 && s[i] == ' ' && IsSpaceTarget(s[i + 1])
  }

  predicate NoDoubleSpace(s: string) {
    forall i :: 0 <= i < |s| - 1 ==> !(s[i] == ' ' && s[i + 1] == ' ')
  }

  /** Deletes every single space that directly precedes `*`, `&` or `,`. The lookahead
      reads the original text, so of a run of spaces only the last one goes. */
  function FixupSpace(s: string): (r: string)
    ensures StripSpaces(r) == StripSpaces(s)
    ensures Subsequence(r, s)
  {
    if s == [] then []
    else if s[0] == ' ' && |s| > 1 && IsSpaceTarget(s[1]) then FixupSpace(s[1..])
    else [s[0]] + FixupSpace(s[1..])
  }

  lemma FixupSpaceKeepsHead(s: string)
    requires s != [] && s[0] != ' '
    ensures FixupSpace(s) != [] && FixupSpace(s)[0] == s[0]
  {
  }

  /** With no doubled spaces in the input, no space is left before `*`, `&` or `,`. */
  lemma {:induction false} FixupSpaceRemovesAll(s: string)
    requires NoDoubleSpace(s)
    ensures !SpaceBeforeTarget(FixupSpace(s))
  {
    if s != [] {
      var t := s[1..];
      assert NoDoubleSpace(t) by {
        forall i | 0 <= i < |t| - 1
          ensures !(t[i] == ' ' && t[i + 1] == ' ')
        {
          assert t[i] == s[i + 1] && t[i + 1] == s[i + 2];
        }
      }
      FixupSpaceRemovesAll(t);
      if !(s[0] == ' ' && |s| > 1 && IsSpaceTarget(s[1])) {
        var r := FixupSpace(s);
        var rt := FixupSpace(t);
        assert r == [s[0]] + rt;
        if s[0] == ' ' && t != [] {
          assert t[0] != ' ' && !IsSpaceTarget(t[0]);
          FixupSpaceKeepsHead(t);
        }
        if SpaceBeforeTarget(r) {
          var i :| 0 <= i < |r| - 1 && r[i] == ' ' && IsSpaceTarget(r[i + 1]);
          if i > 0 {
            assert rt[i - 1] == ' ' && IsSpaceTarget(rt[i]);
            assert SpaceBeforeTarget(rt);
          }
        }
      }
    }
  }

  /** Of a doubled space only the second one is deleted. */
  lemma FixupSpaceLeavesOneOfTwo()
    ensures FixupSpace("int  *") == "int *"
  {
    assert FixupSpace("*") == "*";
    assert FixupSpace(" *") == "*";
    assert FixupSpace("  *") == " *";
  }

  /** The text is left alone exactly when no space stands before `*`, `&` or `,`. */
  lemma {:induction false} FixupSpaceFixedPoint(s: string)
    ensures FixupSpace(s) == s <==> !SpaceBeforeTarget(s)
  {
    if s != [] {
      var t := s[1..];
      FixupSpaceFixedPoint(t);
      FixupSpaceShortens(t);
      if s[0] == ' ' && |s| > 1 && IsSpaceTarget(s[1]) {
        assert SpaceBeforeTarget(s);
        assert |FixupSpace(s)| < |s|;
      } else {
        assert SpaceBeforeTarget(s) <==> SpaceBeforeTarget(t) by {
          if SpaceBeforeTarget(s) {
            var i :| 0 <= i < |s| - 1 && s[i] == ' ' && IsSpaceTarget(s[i + 1]);
            assert i > 0;
            assert t[i - 1] == ' ' && IsSpaceTarget(t[i]);
          }
          if SpaceBeforeTarget(t) {
            var i :| 0 <= i < |t| - 1 && t[i] == ' ' && IsSpaceTarget(t[i + 1]);
            assert s[i + 1] == ' ' && IsSpaceTarget(s[i + 2]);
          }
        }
        assert FixupSpace(s) == [s[0]] + FixupSpace(t);
        assert s == [s[0]] + t;
      }
    }
  }

  lemma {:induction false} FixupSpaceShortens(s: string)
    ensures |FixupSpace(s)| <= |s|
    ensures SpaceBeforeTarget(s) ==> |FixupSpace(s)| < |s|
  {
    if s != [] {
      var t := s[1..];
      FixupSpaceShortens(t);
      if SpaceBeforeTarget(s) && !(s[0] == ' ' && |s| > 1 && IsSpaceTarget(s[1])) {
        var i :| 0 <= i < |s| - 1 && s[i] == ' ' && IsSpaceTarget(s[i + 1]);
        assert i > 0;
        assert t[i - 1] == ' ' && IsSpaceTarget(t[i]);
      }
    }
  }

  /** What the substitution writes for position `i` of the original text: nothing for
      a space that `*`, `&` or `,` directly follows, the character itself otherwise. */
  function SpacePiece(s: string, i: int): string
    requires 0 <= i < |s|
  {
    if s[i] == ' ' && i + 1 < |s| && IsSpaceTarget(s[i + 1]) then [] else [s[i]]
  }

  function SpacePieces(s: string): seq<string> {
    seq(|s|, i requires 0 <= i < |s| => SpacePiece(s, i))
  }

  /** The fix-up decides every position on its own, looking only at that character and
      the next one of the original text: a space survives unless `*`, `&` or `,`
      follows it, and nothing else changes. */
  lemma {:induction false} FixupSpaceByPosition(s: string)
    ensures FixupSpace(s) == Concat(SpacePieces(s))
  {
    if s != [] {
      var t := s[1..];
      FixupSpaceByPosition(t);
      var ps := SpacePieces(s);
      assert ps[1..] == SpacePieces(t) by {
        forall i | 0 <= i < |t|
          ensures ps[1..][i] == SpacePieces(t)[i]
        {
          assert s[i + 1] == t[i];
          assert i + 2 < |s| ==> s[i + 2] == t[i + 1];
        }
      }
      assert ps[0] == SpacePiece(s, 0);
      assert FixupSpace(s) == ps[0] + FixupSpace(t);
    }
  }

  /** A space followed by a letter survives (`a b *` gives `a b*`). */
  lemma FixupSpaceExample()
    ensures FixupSpace("a b *") == "a b*"
  {
    assert FixupSpace("*") == "*";
    assert FixupSpace(" *") == "*";
    assert FixupSpace("b *") == "b*";
    assert FixupSpace(" b *") == " b*";
  }

  // ---------------------------------------------------------------------------
  // fixupComma: '(?<=,)(?! )', applied with re.sub(..., ' ')

  /** Every comma is directly followed by a space. */
  predicate CommasSpaced(s: string) {
    forall i :: 0 <= i < |s| && s[i] == ',' ==> i + 1 < |s| && s[i + 1] == ' '
  }

  /** Inserts a space after every comma that is not already followed by one, including
      a comma at the very end (the negative lookahead succeeds at the end of text). */
  function FixupComma(s: string): (r: string)
    ensures StripSpaces(r) == StripSpaces(s)
    ensures Subsequence(s, r)
    ensures |r| >= |s|
  {
    if s == [] then []
    else if s[0] == ',' && (|s| == 1 || s[1] != ' ') then ", " + FixupComma(s[1..])
    else [s[0]] + FixupComma(s[1..])
  }

  lemma FixupCommaKeepsHead(s: string)
    requires s != [] && s[0] != ','
    ensures FixupComma(s) != [] && FixupComma(s)[0] == s[0]
  {
  }

  /** After the fix-up every comma is followed by a space. */
  lemma {:induction false} FixupCommaSpaces(s: string)
    ensures CommasSpaced(FixupComma(s))
  {
    if s != [] {
      var t := s[1..];
      var rt := FixupComma(t);
      FixupCommaSpaces(t);
      var r := FixupComma(s);
      if s[0] == ',' && (|s| == 1 || s[1] != ' ') {
        assert r == ", " + rt;
        forall i | 0 <= i < |r| && r[i] == ','
          ensures i + 1 < |r| && r[i + 1] == ' '
        {
          if i >= 2 {
            assert rt[i - 2] == ',';
          }
        }
      } else {
        assert r == [s[0]] + rt;
        if s[0] == ',' {
          FixupCommaKeepsHead(t);
        }
        forall i | 0 <= i < |r| && r[i] == ','
          ensures i + 1 < |r| && r[i + 1] == ' '
        {
          if i >= 1 {
            assert rt[i - 1] == ',';
          }
        }
      }
    }
  }

  /** A text whose commas are all followed by a space is left alone, and only such a
      text is. */
  lemma {:induction false} FixupCommaFixedPoint(s: string)
    ensures FixupComma(s) == s <==> CommasSpaced(s)
  {
    FixupCommaSpaces(s);
    if CommasSpaced(s) {
      FixupCommaIdentity(s);
    }
  }

  lemma {:induction false} FixupCommaIdentity(s: string)
    requires CommasSpaced(s)
    ensures FixupComma(s) == s
  {
    if s != [] {
      var t := s[1..];
      assert CommasSpaced(t) by {
        forall i | 0 <= i < |t| && t[i] == ','
          ensures i + 1 < |t| && t[i + 1] == ' '
        {
          assert s[i + 1] == ',';
        }
      }
      FixupCommaIdentity(t);
      assert s == [s[0]] + t;
    }
  }

  /** Applying the comma fix-up twice is the same as applying it once. */
  lemma FixupCommaIdempotent(s: string)
    ensures FixupComma(FixupComma(s)) == FixupComma(s)
  {
    FixupCommaSpaces(s);
    FixupCommaIdentity(FixupComma(s));
  }

  /** What the substitution writes for position `i` of the original text: the comma
      and a space for a comma that no space follows, the character itself otherwise. */
  function CommaPiece(s: string, i: int): string
    requires 0 <= i < |s|
  {
    if s[i] == ',' && (i + 1 == |s| || s[i + 1] != ' ') then ", " else [s[i]]
  }

  function CommaPieces(s: string): seq<string> {
    seq(|s|, i requires 0 <= i < |s| => CommaPiece(s, i))
  }

  /** The comma fix-up decides every position on its own: a space is written right
      after each comma that no space follows, and nothing else changes. */
  lemma {:induction false} FixupCommaByPosition(s: string)
    ensures FixupComma(s) == Concat(CommaPieces(s))
  {
    if s != [] {
      var t := s[1..];
      FixupCommaByPosition(t);
      var ps := CommaPieces(s);
      assert ps[1..] == CommaPieces(t) by {
        forall i | 0 <= i < |t|
          ensures ps[1..][i] == CommaPieces(t)[i]
        {
          assert s[i + 1] == t[i];
          assert i + 2 < |s| ==> s[i + 2] == t[i + 1];
        }
      }
      assert ps[0] == CommaPiece(s, 0);
      assert FixupComma(s) == ps[0] + FixupComma(t);
    }
  }

  /** The space goes right after the comma (`a,b` gives `a, b`). */
  lemma FixupCommaExample()
    ensures FixupComma("a,b") == "a, b"
  {
    assert FixupComma("b") == "b";
    assert FixupComma(",b") == ", b";
  }

  /** The normalisation `make_signature` applies to a function name: first the space
      fix-up, then the comma fix-up. It changes nothing but spaces, and leaves every
      comma followed by a space. */
  function NormaliseFunction(s: string): (r: string)
    ensures StripSpaces(r) == StripSpaces(s)
    ensures CommasSpaced(r)
  {
    FixupCommaSpaces(FixupSpace(s));
    FixupComma(FixupSpace(s))
  }

  /** Normalisation is the position-wise space fix-up followed by the position-wise
      comma fix-up of its result. */
  lemma NormaliseFunctionByPosition(s: string)
    ensures NormaliseFunction(s) == Concat(CommaPieces(Concat(SpacePieces(s))))
  {
    FixupSpaceByPosition(s);
    FixupCommaByPosition(FixupSpace(s));
  }

  /** A name with no space before `*`, `&` or `,` and a space after every comma is
      already normal. */
  lemma NormaliseFunctionFixedPoint(s: string)
    requires !SpaceBeforeTarget(s) && CommasSpaced(s)
    ensures NormaliseFunction(s) == s
  {
    FixupSpaceFixedPoint(s);
    FixupCommaIdentity(s);
  }

  // ---------------------------------------------------------------------------
  // filename_re: '[/\\]([^/\\]+)$', applied with search

  /** The longest suffix of `s` that holds no path separator. */
  function LastSegment(s: string): (r: string)
    ensures |r| <= |s| && r == s[|s| - |r|..]
    ensures NoSeparator(r)
    ensures |r| < |s| ==> IsSeparator(s[|s| - |r| - 1])
  {
    if s == [] then []
    else if IsSeparator(s[|s| - 1]) then []
    else LastSegment(s[..|s| - 1]) + [s[|s| - 1]]
  }

  lemma {:induction false} LastSegmentOfPlainText(s: string)
    ensures NoSeparator(s) ==> LastSegment(s) == s
  {
    if s != [] && NoSeparator(s) {
      LastSegmentOfPlainText(s[..|s| - 1]);
    }
  }

  lemma {:induction false} LastSegmentAfterSeparator(p: string, c: char, t: string)
    requires IsSeparator(c) && NoSeparator(t)
    ensures LastSegment(p + [c] + t) == t
  {
    var s := p + [c] + t;
    if t == [] {
      assert s[|s| - 1] == c;
    } else {
      var init := t[..|t| - 1];
      LastSegmentAfterSeparator(p, c, init);
      assert s[..|s| - 1] == p + [c] + init;
      assert t == init + [t[|t| - 1]];
    }
  }

  /** `filename_re.search(s)`: the group of the match, if there is one. The text after
      the last separator matches when it is not empty; a text without a separator, or
      one ending with a separator, does not match. */
  function FilenameSearch(s: string): (r: Option<string>)
    ensures r.Some? ==> |r.value| > 0 && NoSeparator(r.value)
    ensures r.Some? ==> |r.value| < |s| && r.value == s[|s| - |r.value|..]
                        && IsSeparator(s[|s| - |r.value| - 1])
    ensures r.None? <==> (s == [] || NoSeparator(s) || IsSeparator(s[|s| - 1]))
  {
    FilenameSearchFails(s);
    var seg := LastSegment(s);
    if 0 < |seg| < |s| then Some(seg) else None
  }

  lemma FilenameSearchFails(s: string)
    ensures !(0 < |LastSegment(s)| < |s|) <==> (s == [] || NoSeparator(s) || IsSeparator(s[|s| - 1]))
  {
    LastSegmentEmpty(s);
    LastSegmentWhole(s);
  }

  /** The last segment is empty exactly when the text is empty or ends with a
      separator. */
  lemma LastSegmentEmpty(s: string)
    ensures LastSegment(s) == [] <==> s == [] || IsSeparator(s[|s| - 1])
  {
  }

  /** The last segment is the whole text exactly when the text has no separator. */
  lemma LastSegmentWhole(s: string)
    ensures |LastSegment(s)| == |s| <==> NoSeparator(s)
  {
    LastSegmentOfPlainText(s);
    if |LastSegment(s)| == |s| {
      assert LastSegment(s) == s;
    }
  }

  /** Whatever stands before the last separator, the non-empty tail after it is what
      the search captures. */
  lemma FilenameSearchCaptures(p: string, c: char, t: string)
    requires IsSeparator(c) && t != [] && NoSeparator(t)
    ensures FilenameSearch(p + [c] + t) == Some(t)
  {
    LastSegmentAfterSeparator(p, c, t);
  }

  // ---------------------------------------------------------------------------
  // irrelevantSignaturePattern: '@0x[01234567890abcdefABCDEF]{2,}', applied with match

  /** A frame signature that is a bare address: `@0x` and at least two hex digits at
      the start. Whatever follows the second digit does not matter to `match`. */
  predicate IsIrrelevantSignature(s: string) {
    |s| >= 5 && s[..3] == "@0x" && IsHexDigit(s[3]) && IsHexDigit(s[4])
  }

  // ---------------------------------------------------------------------------
  // prefixSignaturePattern:
  // '@0x0|strchr|memcpy|malloc|realloc|.*free.*|arena_dalloc_small', applied with match

  /** `.*free.*` matched at the start: `free` occurs before the first newline (`.`
      does not match a newline). */
  predicate FreeInFirstLine(s: string) {
    if |s| < 4 then false
    else if s[..4] == "free" then true
    else if s[0] == '\n' then false
    else FreeInFirstLine(s[1..])
  }

  /** `free` starts at position `k`, and no newline comes before it. */
  predicate FreeStartsAt(s: string, k: int) {
    0 <= k <= |s| - 4 && s[k..k + 4] == "free" && forall i :: 0 <= i < k ==> s[i] != '\n'
  }

  /** `.*free.*` matches at the start exactly when some `free` has no newline before it. */
  lemma {:induction false} FreeInFirstLineExactly(s: string)
    ensures FreeInFirstLine(s) <==> exists k :: FreeStartsAt(s, k)
  {
    if |s| < 4 {
    } else if s[..4] == "free" {
      assert FreeStartsAt(s, 0);
    } else if s[0] == '\n' {
      assert !exists k :: FreeStartsAt(s, k);
    } else {
      var t := s[1..];
      FreeInFirstLineExactly(t);
      if FreeInFirstLine(s) {
        var k :| FreeStartsAt(t, k);
        assert s[k + 1..k + 5] == t[k..k + 4];
        assert FreeStartsAt(s, k + 1);
      } else {
        forall k | FreeStartsAt(s, k)
          ensures false
        {
          assert k != 0;
          assert t[k - 1..k + 3] == s[k..k + 4];
          assert FreeStartsAt(t, k - 1);
        }
      }
    }
  }

  /** A frame signature that names an allocator or string routine, or a null-page
      address, and so does not characterise the crash on its own. */
  predicate IsPrefixSignature(s: string) {
    || StartsWith(s, "@0x0")
    || StartsWith(s, "strchr")
    || StartsWith(s, "memcpy")
    || StartsWith(s, "malloc")
    || StartsWith(s, "realloc")
    || FreeInFirstLine(s)
    || StartsWith(s, "arena_dalloc_small")
  }

  lemma {:induction false} FreeInFirstLineAt(p: string, q: string)
    requires forall i :: 0 <= i < |p| ==> p[i] != '\n'
    ensures FreeInFirstLine(p + "free" + q)
  {
    var s := p + "free" + q;
    if p == [] {
      assert s[..4] == "free";
    } else if s[..4] != "free" {
      assert s[0] == p[0];
      assert s[1..] == p[1..] + "free" + q;
      FreeInFirstLineAt(p[1..], q);
    }
  }

  /** Any name containing `free` on its first line is a prefix signature. */
  lemma ContainsFreeIsPrefix(p: string, q: string)
    requires forall i :: 0 <= i < |p| ==> p[i] != '\n'
    ensures IsPrefixSignature(p + "free" + q)
  {
    FreeInFirstLineAt(p, q);
  }

  /** `@0x0` followed by a hex digit matches both patterns, so the order in which the
      list reduction tests them matters. */
  lemma NullAddressMatchesBoth()
    ensures IsIrrelevantSignature("@0x0a") && IsPrefixSignature("@0x0a")
    ensures !IsIrrelevantSignature("@0x0") && IsPrefixSignature("@0x0")
  {
  }

  // ---------------------------------------------------------------------------
  // buildDatePattern: '^(\d{4})(\d{2})(\d{2})(\d{2})', applied with match

  /** The four captured digit groups, as `int()` reads them. */
  datatype DigitGroups = DigitGroups(year: nat, month: nat, day: nat, hour: nat)

  /** Matches when the text opens with ten decimal digits; the groups are digits 1-4,
      5-6, 7-8 and 9-10. Zero-padding each group back to its width gives the ten digits
      that were read. */
  function MatchBuildDate(s: string): (r: Option<DigitGroups>)
    ensures r.Some? <==> |s| >= 10 && AllDigits(s[..10])
    ensures r.Some? ==>
      PadDigits(r.value.year, 4) + PadDigits(r.value.month, 2)
        + PadDigits(r.value.day, 2) + PadDigits(r.value.hour, 2) == s[..10]
  {
    if |s| >= 10 && AllDigits(s[..10]) then
      GroupsRoundTrip(s[..10]);
      Some(Groups(s[..10]))
    else None
  }

  lemma MatchTenDigits(s: string)
    requires |s| == 10 && AllDigits(s)
    ensures MatchBuildDate(s) == Some(Groups(s))
  {
    assert s[..10] == s;
  }

  /** The four groups of ten digits. */
  function Groups(d: string): DigitGroups
    requires |d| == 10 && AllDigits(d)
  {
    DigitGroups(DigitsToNat(d[0..4]), DigitsToNat(d[4..6]), DigitsToNat(d[6..8]), DigitsToNat(d[8..10]))
  }

  lemma GroupsRoundTrip(d: string)
    requires |d| == 10 && AllDigits(d)
    ensures var g := Groups(d);
      PadDigits(g.year, 4) + PadDigits(g.month, 2) + PadDigits(g.day, 2) + PadDigits(g.hour, 2) == d
  {
    var g := Groups(d);
    PaddedGroups(d, g.year, g.month, g.day, g.hour);
  }

  /** Padding four groups back to their widths gives the ten digits they were read from. */
  lemma PaddedGroups(d: string, year: nat, month: nat, day: nat, hour: nat)
    requires |d| == 10 && AllDigits(d)
    requires year == DigitsToNat(d[0..4]) && month == DigitsToNat(d[4..6])
    requires day == DigitsToNat(d[6..8]) && hour == DigitsToNat(d[8..10])
    ensures PadDigits(year, 4) + PadDigits(month, 2) + PadDigits(day, 2) + PadDigits(hour, 2) == d
  {
    GroupPadded(d, 0, 4, year);
    GroupPadded(d, 4, 6, month);
    GroupPadded(d, 6, 8, day);
    GroupPadded(d, 8, 10, hour);
    TenSplit(d, PadDigits(year, 4), PadDigits(month, 2), PadDigits(day, 2), PadDigits(hour, 2));
  }

  lemma TenSplit(d: string, y: string, m: string, dd: string, h: string)
    requires |d| == 10 && y == d[0..4] && m == d[4..6] && dd == d[6..8] && h == d[8..10]
    ensures y + m + dd + h == d
  {
    assert d == d[0..4] + d[4..6] + d[6..8] + d[8..10];
  }

  /** One group, padded back to its width, is the digits it was read from. */
  lemma GroupPadded(d: string, i: nat, j: nat, n: nat)
    requires i <= j <= |d| && AllDigits(d) && n == DigitsToNat(d[i..j])
    ensures PadDigits(n, j - i) == d[i..j]
  {
    PadDigitsRoundTrip(d[i..j]);
  }

  /** The groups as values of their digits. */
  lemma GroupsValue(d: string)
    requires |d| == 10 && AllDigits(d)
    ensures Groups(d)
            == DigitGroups(1000 * DigitValue(d[0]) + 100 * DigitValue(d[1]) + 10 * DigitValue(d[2]) + DigitValue(d[3]),
                           10 * DigitValue(d[4]) + DigitValue(d[5]),
                           10 * DigitValue(d[6]) + DigitValue(d[7]),
                           10 * DigitValue(d[8]) + DigitValue(d[9]))
  {
    FourDigitValue(d[0..4]);
    TwoDigitValue(d[4..6]);
    TwoDigitValue(d[6..8]);
    TwoDigitValue(d[8..10]);
  }
}
