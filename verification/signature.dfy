/** Crash-signature construction of the legacy processor
    (socorro/processor/processor.py, `make_signature` and `generateSignatureFromList`).
    A frame becomes one signature string; a list of frame signatures is cut down to the
    frames that characterise the crash and joined with ` | `. */
module Signature {

  import opened Wrappers
  import opened Text
  import opened Patterns

  /** One stack frame as the stack walker reports it. Every part may be absent (`None`).
      The source line and the instruction are held as the text `%s` renders them. */
  datatype Frame = Frame(
    moduleName: Option<string>,
    functionName: Option<string>,
    source: Option<string>,
    sourceLine: Option<string>,
    instruction: Option<string>)

  /** `'%s' % x`: Python renders `None` as `None`. */
  function Render(x: Option<string>): string {
    match x
    case Some(t) => t
    case None => "None"
  }

  /** The file name `make_signature` shows for a source path: the part after the last
      `/` or `\`, or the whole path when the filename pattern does not match it. */
  function Basename(source: string): (r: string)
    ensures |r| <= |source| && r == source[|source| - |r|..]
    ensures r == source <==> (source == [] || NoSeparator(source) || IsSeparator(source[|source| - 1]))
    ensures r != source ==> r != [] && NoSeparator(r) && IsSeparator(source[|source| - |r| - 1])
  {
    match FilenameSearch(source)
    case Some(name) => name
    case None => source
  }

  /** The signature of one frame. The function name wins whenever it is present; without
      one, source file and line are used when both are known, then module and
      instruction, then the instruction alone. */
  function MakeSignature(f: Frame): (r: string)
    ensures f.functionName.Some? ==>
      StripSpaces(r) == StripSpaces(f.functionName.value) && CommasSpaced(r)
    ensures f.functionName.None? && f.source.Some? && f.sourceLine.Some? ==>
      StartsWith(r, Basename(f.source.value)) && r[|Basename(f.source.value)|..] == "#" + f.sourceLine.value
    ensures f.functionName.None? && !(f.source.Some? && f.sourceLine.Some?) ==>
      |r| > |Render(f.instruction)| && r[|r| - |Render(f.instruction)|..] == Render(f.instruction)
      && r[|r| - |Render(f.instruction)| - 1] == '@'
  {
    if f.functionName.Some? then
      NormaliseFunction(f.functionName.value)
    else if f.source.Some? && f.sourceLine.Some? then
      // `make_signature` in processor.py calls a bare `filename_re` here;
      // `Processor.filename_re` is meant (see MakeSignatureAsWritten).
      Basename(f.source.value) + "#" + f.sourceLine.value
    else if f.moduleName.Some? then
      f.moduleName.value + "@" + Render(f.instruction)
    else
      "@" + Render(f.instruction)
  }

  /** When a function name is present nothing else about the frame matters. */
  lemma FunctionWins(f: Frame, g: Frame)
    requires f.functionName.Some? && g.functionName == f.functionName
    ensures MakeSignature(f) == MakeSignature(g)
    ensures MakeSignature(f) == NormaliseFunction(f.functionName.value)
  {
  }

  /** The signature of a frame with a function name, character by character: every
      space directly before `*`, `&` or `,` is deleted, then every comma not already
      followed by a space gets one. */
  lemma FunctionSignatureByPosition(f: Frame)
    requires f.functionName.Some?
    ensures MakeSignature(f) == Concat(CommaPieces(Concat(SpacePieces(f.functionName.value))))
  {
    NormaliseFunctionByPosition(f.functionName.value);
  }

  /** Without a function name but with source and line, the signature is the file name
      of the source, `#`, and the line; the module and instruction do not matter. */
  lemma SourceLineSignature(f: Frame, p: string, c: char, name: string)
    requires f.functionName.None? && f.sourceLine.Some?
    requires IsSeparator(c) && name != [] && NoSeparator(name)
    requires f.source == Some(p + [c] + name)
    ensures MakeSignature(f) == name + "#" + f.sourceLine.value
  {
    FilenameSearchCaptures(p, c, name);
  }

  /** A source path without a separator is used whole. */
  lemma PlainSourceSignature(f: Frame)
    requires f.functionName.None? && f.source.Some? && f.sourceLine.Some?
    requires NoSeparator(f.source.value)
    ensures MakeSignature(f) == f.source.value + "#" + f.sourceLine.value
  {
  }

  /** Without function, and without source or line, a known module gives
      `module@instruction`. */
  lemma ModuleSignature(f: Frame)
    requires f.functionName.None? && (f.source.None? || f.sourceLine.None?) && f.moduleName.Some?
    ensures MakeSignature(f) == f.moduleName.value + "@" + Render(f.instruction)
  {
  }

  /** With nothing else known the signature is `@` and the instruction. */
  lemma AddressSignature(f: Frame)
    requires f.functionName.None? && (f.source.None? || f.sourceLine.None?) && f.moduleName.None?
    ensures MakeSignature(f) == "@" + Render(f.instruction)
  {
  }

  // ---------------------------------------------------------------------------
  // make_signature as written

  /** The exception Python raises when a name is not bound. */
  datatype NameError = NameError(name: string)

  /** `make_signature` exactly as written: in the source/line branch it looks up a bare
      `filename_re`, which is only bound as a class attribute, so that branch raises. */
  function MakeSignatureAsWritten(f: Frame): Result<string, NameError> {
    if f.functionName.Some? then
      Success(NormaliseFunction(f.functionName.value))
    else if f.source.Some? && f.sourceLine.Some? then
      Failure(NameError("filename_re"))
    else if f.moduleName.Some? then
      Success(f.moduleName.value + "@" + Render(f.instruction))
    else
      Success("@" + Render(f.instruction))
  }

  /** The written code fails exactly on the frames that reach the source/line branch and
      agrees with the corrected definition everywhere else. */
  lemma AsWrittenDiffersOnlyOnSourceLine(f: Frame)
    ensures MakeSignatureAsWritten(f).Failure? <==>
      (f.functionName.None? && f.source.Some? && f.sourceLine.Some?)
    ensures MakeSignatureAsWritten(f).Success? ==>
      MakeSignatureAsWritten(f).value == MakeSignature(f)
  {
  }

  /** A Windows frame with a source path and line: the written code raises, the
      corrected one names the file. */
  lemma AsWrittenCounterexample()
    ensures MakeSignatureAsWritten(Frame(Some("xul.dll"), None, Some("c:\\src\\nsFoo.cpp"), Some("42"), Some("0x1f")))
            == Failure(NameError("filename_re"))
    ensures MakeSignature(Frame(Some("xul.dll"), None, Some("c:\\src\\nsFoo.cpp"), Some("42"), Some("0x1f")))
            == "nsFoo.cpp#42"
  {
    assert "c:\\src\\nsFoo.cpp" == "c:\\src" + ['\\'] + "nsFoo.cpp";
    SourceLineSignature(Frame(Some("xul.dll"), None, Some("c:\\src\\nsFoo.cpp"), Some("42"), Some("0x1f")),
                        "c:\\src", '\\', "nsFoo.cpp");
  }

  // ---------------------------------------------------------------------------
  // generateSignatureFromList

  /** An entry that ends the walk: neither a bare address nor a prefix signature. */
  predicate IsTerminal(s: string) {
    !IsIrrelevantSignature(s) && !IsPrefixSignature(s)
  }

  /** An entry that is kept as a prefix and lets the walk go on. The address test comes
      first, so an address that also matches the prefix pattern is not one of these. */
  predicate IsPrefixFrame(s: string) {
    !IsIrrelevantSignature(s) && IsPrefixSignature(s)
  }

  /** The entries the walk keeps, as a two-state machine over `prefixFound`: bare
      addresses are kept only once a prefix frame has been kept, prefix frames are kept
      and the walk goes on, and the first other entry is kept and ends the walk. */
  function Kept(l: seq<string>, prefixFound: bool): seq<string> {
    if l == [] then []
    else if IsIrrelevantSignature(l[0]) then
      (if prefixFound then [l[0]] else []) + Kept(l[1..], prefixFound)
    else if !IsPrefixSignature(l[0]) then
      [l[0]]
    else
      [l[0]] + Kept(l[1..], true)
  }

  /** The kept entries are an order-preserving subsequence of the list. */
  lemma {:induction false} KeptIsSubsequence(l: seq<string>, prefixFound: bool)
    ensures Subsequence(Kept(l, prefixFound), l)
  {
    if l != [] {
      var t := l[1..];
      var x := l[0];
      if IsIrrelevantSignature(x) {
        KeptIsSubsequence(t, prefixFound);
        var rest := Kept(t, prefixFound);
        if prefixFound {
          assert ([x] + rest)[1..] == rest;
        } else {
          assert Kept(l, prefixFound) == rest;
          assert Subsequence(rest, t);
        }
      } else if IsPrefixSignature(x) {
        KeptIsSubsequence(t, true);
        var rest := Kept(t, true);
        assert ([x] + rest)[1..] == rest;
      } else {
        assert [x][1..] == [];
      }
    }
  }

  /** `sep.join(parts)`. */
  function Join(parts: seq<string>, sep: string): string {
    if parts == [] then ""
    else if |parts| == 1 then parts[0]
    else parts[0] + sep + Join(parts[1..], sep)
  }

  /** `generateSignatureFromList`: the kept entries joined with ` | `. */
  method GenerateSignatureFromList(signatureList: seq<string>) returns (signature: string)
    ensures signature == Join(Kept(signatureList, false), " | ")
    ensures signature == Join(Reference(signatureList, false, 0), " | ")
    ensures signatureList == [] ==> signature == ""
    ensures Subsequence(Kept(signatureList, false), signatureList)
  {
    var kept := KeepEntries(signatureList);
    KeptMatchesReference(signatureList, false);
    KeptIsSubsequence(signatureList, false);
    signature := Join(kept, " | ");
  }

  /** The loop of `generateSignatureFromList`, which walks the list once and stops at the
      first terminal entry. */
  method KeepEntries(signatureList: seq<string>) returns (kept: seq<string>)
    ensures kept == Kept(signatureList, false)
  {
    kept := [];
    var prefixFound := false;
    var i := 0;
    while i < |signatureList|
      invariant 0 <= i <= |signatureList|
      invariant kept + Kept(signatureList[i..], prefixFound) == Kept(signatureList, false)
    {
      var s := signatureList[i];
      KeptStep(signatureList, i, prefixFound, kept);
      if IsIrrelevantSignature(s) {
        if prefixFound {
          kept := kept + [s];
        }
        i := i + 1;
        continue;
      }
      kept := kept + [s];
      if !IsPrefixSignature(s) {
        return;
      }
      prefixFound := true;
      i := i + 1;
    }
    assert signatureList[i..] == [];
  }

  /** One step of the walk at position `i`: what the entries kept so far become. */
  lemma KeptStep(l: seq<string>, i: nat, prefixFound: bool, kept: seq<string>)
    requires i < |l| && kept + Kept(l[i..], prefixFound) == Kept(l, false)
    ensures IsIrrelevantSignature(l[i]) && prefixFound ==>
      (kept + [l[i]]) + Kept(l[i + 1..], prefixFound) == Kept(l, false)
    ensures IsIrrelevantSignature(l[i]) && !prefixFound ==>
      kept + Kept(l[i + 1..], prefixFound) == Kept(l, false)
    ensures IsTerminal(l[i]) ==> kept + [l[i]] == Kept(l, false)
    ensures IsPrefixFrame(l[i]) ==> (kept + [l[i]]) + Kept(l[i + 1..], true) == Kept(l, false)
  {
    KeptSuffixStep(l, i, prefixFound);
    var x := l[i];
    if IsIrrelevantSignature(x) && prefixFound {
      AppendOne(kept, x, Kept(l[i + 1..], prefixFound));
    } else if IsPrefixFrame(x) {
      AppendOne(kept, x, Kept(l[i + 1..], true));
    }
  }

  lemma AppendOne(kept: seq<string>, x: string, rest: seq<string>)
    ensures (kept + [x]) + rest == kept + ([x] + rest)
  {
  }

  /** The same step seen from the remaining suffix alone. */
  lemma KeptSuffixStep(l: seq<string>, i: nat, prefixFound: bool)
    requires i < |l|
    ensures IsIrrelevantSignature(l[i]) && prefixFound ==>
      Kept(l[i..], prefixFound) == [l[i]] + Kept(l[i + 1..], prefixFound)
    ensures IsIrrelevantSignature(l[i]) && !prefixFound ==>
      Kept(l[i..], prefixFound) == Kept(l[i + 1..], prefixFound)
    ensures IsTerminal(l[i]) ==> Kept(l[i..], prefixFound) == [l[i]]
    ensures IsPrefixFrame(l[i]) ==>
      Kept(l[i..], prefixFound) == [l[i]] + Kept(l[i + 1..], true)
  {
    assert l[i..][0] == l[i] && l[i..][1..] == l[i + 1..];
  }

  // ---------------------------------------------------------------------------
  // A position-wise description of the same reduction

  /** Index of the first terminal entry, or the length of the list if there is none. */
  function StopIndex(l: seq<string>): (k: nat)
    ensures k <= |l|
    ensures k < |l| ==> IsTerminal(l[k])
    ensures forall j :: 0 <= j < k ==> !IsTerminal(l[j])
  {
    if l == [] then 0
    else if IsTerminal(l[0]) then 0
    else 1 + StopIndex(l[1..])
  }

  /** Some entry before position `i` is a prefix frame. */
  predicate PrefixBefore(l: seq<string>, i: nat) {
    exists j :: 0 <= j < i && j < |l| && IsPrefixFrame(l[j])
  }

  /** Whether the entry at position `i` is kept: it lies at or before the first terminal
      entry, and it is not a bare address unless a prefix frame came earlier (or the
      walk started with one already found). */
  predicate KeptAt(l: seq<string>, prefixFound: bool, i: nat)
    requires i < |l|
  {
    i <= StopIndex(l) && (!IsIrrelevantSignature(l[i]) || prefixFound || PrefixBefore(l, i))
  }

  /** The entries at positions `i` onwards that `KeptAt` selects, in order. */
  function Reference(l: seq<string>, prefixFound: bool, i: nat): seq<string>
    requires i <= |l|
    decreases |l| - i
  {
    if i == |l| then []
    else (if KeptAt(l, prefixFound, i) then [l[i]] else []) + Reference(l, prefixFound, i + 1)
  }

  lemma {:induction false} ReferenceBeyondStop(l: seq<string>, prefixFound: bool, i: nat)
    requires StopIndex(l) < i <= |l|
    ensures Reference(l, prefixFound, i) == []
    decreases |l| - i
  {
    if i < |l| {
      ReferenceBeyondStop(l, prefixFound, i + 1);
    }
  }

  /** Dropping a leading non-terminal entry shifts every later position by one, with the
      flag set once that entry was a prefix frame. */
  lemma {:induction false} ReferenceShift(l: seq<string>, prefixFound: bool, i: nat)
    requires l != [] && !IsTerminal(l[0]) && 1 <= i <= |l|
    ensures Reference(l, prefixFound, i)
            == Reference(l[1..], prefixFound || IsPrefixFrame(l[0]), i - 1)
    decreases |l| - i
  {
    if i < |l| {
      ReferenceShift(l, prefixFound, i + 1);
      var t := l[1..];
      var pf := prefixFound || IsPrefixFrame(l[0]);
      assert l[i] == t[i - 1];
      assert StopIndex(l) == 1 + StopIndex(t);
      assert PrefixBefore(l, i) <==> IsPrefixFrame(l[0]) || PrefixBefore(t, i - 1) by {
        if PrefixBefore(l, i) {
          var j :| 0 <= j < i && j < |l| && IsPrefixFrame(l[j]);
          if j > 0 {
            assert IsPrefixFrame(t[j - 1]);
          }
        }
        if PrefixBefore(t, i - 1) {
          var j :| 0 <= j < i - 1 && j < |t| && IsPrefixFrame(t[j]);
          assert IsPrefixFrame(l[j + 1]);
        }
        if IsPrefixFrame(l[0]) {
          assert 0 < i;
        }
      }
      assert KeptAt(l, prefixFound, i) == KeptAt(t, pf, i - 1);
    }
  }

  /** The state machine and the position-wise description keep the same entries. */
  lemma {:induction false} KeptMatchesReference(l: seq<string>, prefixFound: bool)
    ensures Kept(l, prefixFound) == Reference(l, prefixFound, 0)
  {
    if l != [] {
      var t := l[1..];
      if IsTerminal(l[0]) {
        ReferenceBeyondStop(l, prefixFound, 1);
        assert KeptAt(l, prefixFound, 0);
      } else {
        ReferenceShift(l, prefixFound, 1);
        KeptMatchesReference(t, prefixFound || IsPrefixFrame(l[0]));
        if IsIrrelevantSignature(l[0]) {
          assert !PrefixBefore(l, 0);
          assert KeptAt(l, prefixFound, 0) == prefixFound;
        } else {
          assert KeptAt(l, prefixFound, 0);
        }
      }
    }
  }

  /** The first terminal entry is the last one kept: the result equals the reduction of
      the list cut just after it. */
  lemma {:induction false} StoppingRule(l: seq<string>, prefixFound: bool)
    requires StopIndex(l) < |l|
    ensures Kept(l, prefixFound) == Kept(l[..StopIndex(l) + 1], prefixFound)
    ensures |Kept(l, prefixFound)| > 0
    ensures Kept(l, prefixFound)[|Kept(l, prefixFound)| - 1] == l[StopIndex(l)]
  {
    var k := StopIndex(l);
    var c := l[..k + 1];
    assert c[0] == l[0];
    if !IsTerminal(l[0]) {
      var t := l[1..];
      assert StopIndex(t) == k - 1;
      assert c[1..] == t[..k];
      StoppingRule(t, true);
      StoppingRule(t, prefixFound);
    }
  }

  /** A list whose entries are all bare addresses or prefix frames is walked to the end. */
  lemma {:induction false} NoTerminalKeepsAllRelevant(l: seq<string>, prefixFound: bool)
    requires forall j :: 0 <= j < |l| ==> !IsTerminal(l[j])
    requires forall j :: 0 <= j < |l| ==> !IsIrrelevantSignature(l[j])
    ensures Kept(l, prefixFound) == l
  {
    if l != [] {
      NoTerminalKeepsAllRelevant(l[1..], true);
      assert l == [l[0]] + l[1..];
    }
  }

  /** A leading bare address is dropped, even one that also matches the prefix pattern. */
  lemma LeadingAddressDropped(l: seq<string>)
    requires l != [] && IsIrrelevantSignature(l[0])
    ensures Kept(l, false) == Kept(l[1..], false)
  {
  }

  /** One list that exercises every rule: the leading address is dropped even though it
      starts with `@0x0`, `@0x0` alone is a prefix frame, the later address is kept, `foo`
      ends the walk and `bar` is not looked at. */
  lemma ReductionExample()
    ensures Kept(["@0x0a", "@0x0", "@0xff", "foo", "bar"], false) == ["@0x0", "@0xff", "foo"]
    ensures Join(["@0x0", "@0xff", "foo"], " | ") == "@0x0 | @0xff | foo"
  {
    var l := ["@0x0a", "@0x0", "@0xff", "foo", "bar"];
    assert IsIrrelevantSignature(l[0]);
    assert IsPrefixFrame(l[1]);
    assert IsIrrelevantSignature(l[2]);
    assert !FreeInFirstLine("foo");
    assert IsTerminal(l[3]);
    assert Kept(l[3..], true) == ["foo"];
    assert l[2..][1..] == l[3..];
    assert Kept(l[2..], true) == ["@0xff", "foo"];
    assert l[1..][1..] == l[2..];
    assert Kept(l[1..], false) == ["@0x0", "@0xff", "foo"];
  }
}
