/** The regular-expression clean-ups of the text pipeline: the extracted-text
    cleaner shared by the PDF and HuggingFace services, the summary
    post-processor, and the reference cleaner. Each `replace` is modelled as
    a scan that does what the JavaScript regular-expression engine does on
    that pattern. */
module TextCleaning {
  import opened Text

  /** The characters `[\x20-\x7E]` keeps. */
  predicate Printable(c: char) {
    0x20 <= c as int <= 0x7E
  }

  // ------------------------------------------------------ cleanExtractedText

  /** `s.replace(/\n+/g, '\n')`: every run of newlines becomes one newline. */
  function SqueezeNewlines(s: string): (r: string)
    ensures forall i :: 0 < i < |r| && r[i] == '\n' ==> r[i - 1] != '\n'
    ensures s != [] ==> r != [] && r[0] == s[0]
    ensures '\n' !in s ==> r == s
  {
    if s == [] then []
    else if s[0] == '\n' && |s| > 1 && s[1] == '\n' then SqueezeNewlines(s[1..])
    else [s[0]] + SqueezeNewlines(s[1..])
  }

  /** `s.replace(/[^\x20-\x7E\n]/g, '')`: drop everything but printable
      ASCII and newlines. */
  function KeepPrintable(s: string): (r: string)
    ensures forall i :: 0 <= i < |r| ==> Printable(r[i]) || r[i] == '\n'
    ensures '\n' !in s ==> '\n' !in r
    ensures (forall i :: 0 <= i < |s| ==> Printable(s[i])) ==> r == s
  {
    if s == [] then []
    else if Printable(s[0]) || s[0] == '\n' then [s[0]] + KeepPrintable(s[1..])
    else KeepPrintable(s[1..])
  }

  /** Trimming keeps any property every character has. */
  lemma TrimKeepsEvery(s: string, p: char -> bool)
    requires forall i :: 0 <= i < |s| ==> p(s[i])
    ensures forall i :: 0 <= i < |Trim(s)| ==> p(Trim(s)[i])
  {
    var a: nat :| StripsSpaceTo(s, Trim(s), a);
    forall i | 0 <= i < |Trim(s)|
      ensures p(Trim(s)[i])
    {
      assert Trim(s)[i] == s[a + i];
    }
  }

  /** `cleanExtractedText`: collapse whitespace, squeeze newlines, drop
      non-printable characters, trim. The result is printable ASCII with no
      newline (the first step already turned every newline into a space) and
      no space at either end. */
  function CleanExtractedText(text: string): (r: string)
    ensures forall i :: 0 <= i < |r| ==> Printable(r[i])
    ensures '\n' !in r
    ensures IsTrimmed(r)
  {
    var collapsed := Collapse(text);
    assert '\n' !in collapsed by {
      forall i | 0 <= i < |collapsed|
        ensures collapsed[i] != '\n'
      {
        assert IsSpace('\n');
      }
    }
    var kept := KeepPrintable(SqueezeNewlines(collapsed));
    assert forall i :: 0 <= i < |kept| ==> Printable(kept[i]) by {
      forall i | 0 <= i < |kept|
        ensures Printable(kept[i])
      {
        assert kept[i] in kept;
      }
    }
    TrimKeepsEvery(kept, Printable);
    Trim(kept)
  }

  /** Text that is already printable, single-spaced and trimmed is left as
      it is. */
  lemma CleanExtractedTextFixpoint(text: string)
    requires forall i :: 0 <= i < |text| ==> Printable(text[i])
    requires SingleSpaced(text) && IsTrimmed(text)
    ensures CleanExtractedText(text) == text
  {
    CollapseOfSingleSpaced(text);
    assert '\n' !in text by {
      forall i | 0 <= i < |text|
        ensures text[i] != '\n'
      {
        assert Printable(text[i]);
      }
    }
    TrimOfTrimmed(text);
  }

  /** The cleaner is not idempotent: dropping a non-ASCII character that sat
      between two spaces leaves a double space, which a second pass
      collapses. */
  lemma CleanExtractedTextTwice()
    ensures CleanExtractedText("a é b") == "a  b"
    ensures CleanExtractedText("a  b") == "a b"
  {
    CleanFirstPass();
    CleanSecondPass();
  }

  lemma CleanFirstPass()
    ensures CleanExtractedText("a é b") == "a  b"
  {
    var collapsed := Collapse("a é b");
    assert collapsed == "a é b" by { CollapseSample(); }
    var squeezed := SqueezeNewlines(collapsed);
    assert squeezed == "a é b" by {
      assert '\n' !in "a é b";
    }
    var kept := KeepPrintable(squeezed);
    assert kept == "a  b" by { KeepPrintableSample(); }
    assert Trim(kept) == "a  b" by { TrimOfTrimmed("a  b"); }
  }

  lemma CollapseSample()
    ensures Collapse("a é b") == "a é b"
  {
    CollapseSampleMiddle();
    SampleSplit();
    CollapseCons('a', " é b");
  }

  lemma SampleSplit()
    ensures ['a'] + " é b" == "a é b"
    ensures !IsSpace('a')
  {
  }

  /** A leading non-space character is kept as it is. */
  lemma CollapseCons(c: char, rest: string)
    requires !IsSpace(c)
    ensures Collapse([c] + rest) == [c] + Collapse(rest)
  {
    assert ([c] + rest)[1..] == rest;
  }

  lemma CollapseSampleMiddle()
    ensures Collapse(" é b") == " é b"
  {
    CollapseSampleLetter();
    assert !IsSpace('é') && IsSpace(' ');
    assert SpaceRunEnd(" é b", 1) == 1;
    assert SpaceRunEnd(" é b", 0) == 1;
    assert " é b"[1..] == "é b";
  }

  lemma CollapseSampleLetter()
    ensures Collapse("é b") == "é b"
  {
    CollapseSampleTail();
    assert !IsSpace('é');
    assert "é b"[1..] == " b";
  }

  lemma CollapseSampleTail()
    ensures Collapse(" b") == " b"
  {
    assert !IsSpace('b') && IsSpace(' ');
    assert SpaceRunEnd(" b", 1) == 1;
    assert SpaceRunEnd(" b", 0) == 1;
    assert " b"[1..] == "b";
    assert Collapse("b") == "b";
  }

  lemma KeepPrintableSample()
    ensures KeepPrintable("a é b") == "a  b"
  {
    assert !Printable('é') && Printable('a') && Printable(' ') && Printable('b');
    assert KeepPrintable("b") == "b";
    assert " b"[1..] == "b";
    assert KeepPrintable(" b") == " b";
    assert "é b"[1..] == " b";
    assert KeepPrintable("é b") == " b";
    assert " é b"[1..] == "é b";
    assert KeepPrintable(" é b") == "  b";
    assert "a é b"[1..] == " é b";
  }

  lemma CleanSecondPass()
    ensures CleanExtractedText("a  b") == "a b"
  {
    CollapseDoubleSpace();
    assert '\n' !in "a b";
    assert SqueezeNewlines("a b") == "a b";
    assert Printable('a') && Printable(' ') && Printable('b');
    assert KeepPrintable("a b") == "a b";
    TrimOfTrimmed("a b");
  }

  lemma CollapseDoubleSpace()
    ensures Collapse("a  b") == "a b"
  {
    assert !IsSpace('a') && !IsSpace('b') && IsSpace(' ');
    assert SpaceRunEnd("  b", 2) == 2;
    assert SpaceRunEnd("  b", 1) == 2;
    assert SpaceRunEnd("  b", 0) == 2;
    assert "  b"[2..] == "b";
    assert Collapse("b") == "b";
    assert Collapse("  b") == " b";
    assert "a  b"[1..] == "  b";
  }

  // ------------------------------------------------------ postProcessSummary

  /** No whitespace character sits right before a `c`. */
  predicate NoSpaceBefore(s: string, c: char) {
    forall i :: 0 < i < |s| && s[i] == c ==> !IsSpace(s[i - 1])
  }

  /** A suffix keeps the property. */
  lemma NoSpaceBeforeSuffix(s: string, k: nat, c: char)
    requires k <= |s| && NoSpaceBefore(s, c)
    ensures NoSpaceBefore(s[k..], c)
  {
    var t := s[k..];
    forall i | 0 < i < |t| && t[i] == c
      ensures !IsSpace(t[i - 1])
    {
      assert t[i] == s[k + i] && t[i - 1] == s[k + i - 1];
    }
  }

  /** `s.replace(/\s+c/g, c)` for a non-space character `c`. At a whitespace
      run the engine's greedy `\s+` only succeeds if the run is followed by
      `c`; when it is not, every later start inside the run fails the same
      way, so the run is copied unchanged. */
  function DropSpaceBefore(s: string, c: char): (r: string)
    requires !IsSpace(c)
    ensures NoSpaceBefore(r, c)
    ensures s != [] && !IsSpace(s[0]) ==> r != [] && r[0] == s[0]
    decreases |s|
  {
    if s == [] then []
    else if IsSpace(s[0]) then
      var j := SpaceRunEnd(s, 0);
      if j < |s| && s[j] == c then [c] + DropSpaceBefore(s[j + 1..], c)
      else
        var rest := DropSpaceBefore(s[j..], c);
        assert forall i :: 0 <= i < j ==> s[..j][i] == s[i];
        s[..j] + rest
    else [s[0]] + DropSpaceBefore(s[1..], c)
  }

  /** A string with no whitespace before `c` is left unchanged. */
  lemma {:induction false} DropSpaceBeforeIdentity(s: string, c: char)
    requires !IsSpace(c) && NoSpaceBefore(s, c)
    ensures DropSpaceBefore(s, c) == s
    decreases |s|
  {
    if s != [] {
      if IsSpace(s[0]) {
        var j := SpaceRunEnd(s, 0);
        assert j > 0;
        if j < |s| {
          assert IsSpace(s[j - 1]);
        }
        NoSpaceBeforeSuffix(s, j, c);
        DropSpaceBeforeIdentity(s[j..], c);
        assert s == s[..j] + s[j..];
      } else {
        NoSpaceBeforeSuffix(s, 1, c);
        DropSpaceBeforeIdentity(s[1..], c);
        assert s == [s[0]] + s[1..];
      }
    }
  }

  /** Removing whitespace before `c` creates no whitespace before another
      non-space character `d`. */
  lemma {:induction false} DropSpaceBeforeKeeps(s: string, c: char, d: char)
    requires !IsSpace(c) && !IsSpace(d) && d != c
    requires NoSpaceBefore(s, d)
    ensures NoSpaceBefore(DropSpaceBefore(s, c), d)
    decreases |s|
  {
    if s != [] {
      var r := DropSpaceBefore(s, c);
      if IsSpace(s[0]) {
        var j := SpaceRunEnd(s, 0);
        if j < |s| && s[j] == c {
          NoSpaceBeforeSuffix(s, j + 1, d);
          DropSpaceBeforeKeeps(s[j + 1..], c, d);
        } else {
          var rest := DropSpaceBefore(s[j..], c);
          NoSpaceBeforeSuffix(s, j, d);
          DropSpaceBeforeKeeps(s[j..], c, d);
          assert j > 0;
          if j < |s| {
            assert IsSpace(s[j - 1]);
          }
          assert forall i :: 0 <= i < j ==> r[i] == s[i];
          if j < |s| {
            assert r[j] == rest[0] == s[j];
            assert s[j] != d;
          }
          forall i | 0 < i < |r| && r[i] == d
            ensures !IsSpace(r[i - 1])
          {
            assert i > j;
            assert r[i] == rest[i - j] && r[i - 1] == rest[i - 1 - j];
          }
        }
      } else {
        NoSpaceBeforeSuffix(s, 1, d);
        DropSpaceBeforeKeeps(s[1..], c, d);
      }
    }
  }

  /** Removing whitespace before `c` keeps a string single-spaced. */
  lemma {:induction false} DropSpaceBeforeSingleSpaced(s: string, c: char)
    requires !IsSpace(c) && SingleSpaced(s)
    ensures SingleSpaced(DropSpaceBefore(s, c))
    decreases |s|
  {
    if s != [] {
      if IsSpace(s[0]) {
        var j := SpaceRunEnd(s, 0);
        assert j == 1 by {
          assert s[0] == ' ';
          assert |s| > 1 ==> !IsSpace(s[1]);
        }
        assert SingleSpaced(s[j..]);
        if j < |s| && s[j] == c {
          assert SingleSpaced(s[j + 1..]);
          DropSpaceBeforeSingleSpaced(s[j + 1..], c);
        } else {
          DropSpaceBeforeSingleSpaced(s[j..], c);
        }
      } else {
        assert SingleSpaced(s[1..]);
        DropSpaceBeforeSingleSpaced(s[1..], c);
      }
    }
  }

  /** Trimming keeps both properties, since it only cuts off the ends. */
  lemma TrimKeepsSpacing(s: string, c: char)
    ensures SingleSpaced(s) ==> SingleSpaced(Trim(s))
    ensures NoSpaceBefore(s, c) ==> NoSpaceBefore(Trim(s), c)
  {
    var r := Trim(s);
    var a: nat :| StripsSpaceTo(s, r, a);
    assert forall i :: 0 <= i < |r| ==> r[i] == s[a + i];
  }

  /** `postProcessSummary`: collapse whitespace, remove whitespace before
      periods and then before commas, trim. */
  function PostProcessSummary(summary: string): (r: string)
    ensures IsTrimmed(r) && SingleSpaced(r)
    ensures NoSpaceBefore(r, '.') && NoSpaceBefore(r, ',')
  {
    var collapsed := Collapse(summary);
    var periods := DropSpaceBefore(collapsed, '.');
    var commas := DropSpaceBefore(periods, ',');
    DropSpaceBeforeKeeps(periods, ',', '.');
    DropSpaceBeforeSingleSpaced(collapsed, '.');
    DropSpaceBeforeSingleSpaced(periods, ',');
    TrimKeepsSpacing(commas, '.');
    TrimKeepsSpacing(commas, ',');
    Trim(commas)
  }

  /** Post-processing a post-processed summary changes nothing. */
  lemma PostProcessSummaryIdempotent(summary: string)
    ensures PostProcessSummary(PostProcessSummary(summary)) == PostProcessSummary(summary)
  {
    PostProcessSummaryFixpoint(PostProcessSummary(summary));
  }

  /** The summaries post-processing leaves unchanged are exactly the trimmed,
      single-spaced ones with no space before a period or a comma. */
  lemma PostProcessSummaryFixpoint(s: string)
    ensures PostProcessSummary(s) == s <==> IsTrimmed(s) && SingleSpaced(s) && NoSpaceBefore(s, '.') && NoSpaceBefore(s, ',')
  {
    if IsTrimmed(s) && SingleSpaced(s) && NoSpaceBefore(s, '.') && NoSpaceBefore(s, ',') {
      CollapseOfSingleSpaced(s);
      assert Collapse(s) == s;
      DropSpaceBeforeIdentity(s, '.');
      assert DropSpaceBefore(Collapse(s), '.') == s;
      DropSpaceBeforeIdentity(s, ',');
      assert DropSpaceBefore(DropSpaceBefore(Collapse(s), '.'), ',') == s;
      TrimOfTrimmed(s);
    }
  }

  // ---------------------------------------------------------- cleanReference

  predicate IsBracket(c: char) {
    c == '[' || c == ']' || c == '(' || c == ')'
  }

  predicate IsDigit(c: char) {
    '0' <= c <= '9'
  }

  /** `s.replace(/[\[\]()]/g, '')` */
  function DropBrackets(s: string): (r: string)
    ensures forall i :: 0 <= i < |r| ==> !IsBracket(r[i])
    ensures (forall i :: 0 <= i < |s| ==> !IsBracket(s[i])) ==> r == s
  {
    if s == [] then []
    else if IsBracket(s[0]) then DropBrackets(s[1..])
    else [s[0]] + DropBrackets(s[1..])
  }

  /** Removal works character by character: on `a + b` it is removal on `a`
      followed by removal on `b`. */
  lemma {:induction false} DropBracketsAppend(a: string, b: string)
    ensures DropBrackets(a + b) == DropBrackets(a) + DropBrackets(b)
    decreases |a|
  {
    if a != [] {
      assert (a + b)[1..] == a[1..] + b;
      DropBracketsAppend(a[1..], b);
    } else {
      assert a + b == b;
    }
  }

  /** A single character is dropped exactly when it is a bracket. */
  lemma DropBracketsChar(c: char)
    ensures DropBrackets([c]) == if IsBracket(c) then [] else [c]
  {
    assert [c][1..] == [];
  }

  /** The first index at or after `i` that is not a digit. */
  function DigitRunEnd(s: string, i: nat): (j: nat)
    requires i <= |s|
    ensures i <= j <= |s|
    ensures forall k :: i <= k < j ==> IsDigit(s[k])
    ensures j == |s| || !IsDigit(s[j])
    decreases |s| - i
  {
    if i < |s| && IsDigit(s[i]) then DigitRunEnd(s, i + 1) else i
  }

  /** Whether `/^\d+\./` matches: a non-empty digit run followed by a period
      (a shorter digit run is followed by a digit, so the greedy run is the
      only candidate). */
  predicate HasNumberPrefix(s: string) {
    var d := DigitRunEnd(s, 0);
    0 < d < |s| && s[d] == '.'
  }

  /** Replacing the pattern `^\d+\.\s*` by nothing: a numbering prefix and
      the whitespace after it are cut from the front, once. */
  function DropNumberPrefix(s: string): (r: string)
    ensures EndsWith(s, r)
    ensures HasNumberPrefix(s) ==> |r| < |s|
    ensures !HasNumberPrefix(s) ==> r == s
  {
    if HasNumberPrefix(s) then s[SpaceRunEnd(s, DigitRunEnd(s, 0) + 1)..] else s
  }

  /** `cleanReference` */
  function CleanReference(ref: string): (r: string)
    ensures forall i :: 0 <= i < |r| ==> !IsBracket(r[i])
    ensures IsTrimmed(r)
  {
    var unbracketed := DropBrackets(ref);
    var unnumbered := DropNumberPrefix(unbracketed);
    SuffixKeepsNoBrackets(unbracketed, unnumbered);
    TrimKeepsNoBrackets(unnumbered);
    Trim(unnumbered)
  }

  /** A name in parentheses comes out as the bare name. */
  lemma CleanReferenceSample()
    ensures CleanReference("(" + "Smith" + ")") == "Smith"
  {
    var bare := "Smith";
    assert DropBrackets("(" + bare + ")") == DropBrackets(bare) by {
      DropBracketsAppend("(" + bare, ")");
      DropBracketsAppend("(", bare);
      DropBracketsChar('(');
      DropBracketsChar(')');
    }
    assert !HasNumberPrefix(bare) by {
      assert DigitRunEnd(bare, 0) == 0;
    }
    CleanReferenceFixpoint(bare);
  }

  lemma SuffixKeepsNoBrackets(s: string, r: string)
    requires EndsWith(s, r) && forall i :: 0 <= i < |s| ==> !IsBracket(s[i])
    ensures forall i :: 0 <= i < |r| ==> !IsBracket(r[i])
  {
    forall i | 0 <= i < |r|
      ensures !IsBracket(r[i])
    {
      assert r[i] == s[|s| - |r|..][i];
    }
  }

  lemma TrimKeepsNoBrackets(s: string)
    requires forall i :: 0 <= i < |s| ==> !IsBracket(s[i])
    ensures forall i :: 0 <= i < |Trim(s)| ==> !IsBracket(Trim(s)[i])
  {
    TrimKeepsEvery(s, c => !IsBracket(c));
  }

  /** A trimmed reference without brackets or a numbering prefix is already
      clean. */
  lemma CleanReferenceFixpoint(ref: string)
    requires forall i :: 0 <= i < |ref| ==> !IsBracket(ref[i])
    requires !HasNumberPrefix(ref) && IsTrimmed(ref)
    ensures CleanReference(ref) == ref
  {
    TrimOfTrimmed(ref);
  }

  /** Only one numbering prefix is removed, so cleaning is not idempotent:
      `1. 2. Doe` cleans to `2. Doe`, which cleans to `Doe`. */
  lemma CleanReferenceOnePrefix(ref: string)
    requires |ref| >= 7 && forall i :: 0 <= i < |ref| ==> !IsBracket(ref[i])
    requires IsDigit(ref[0]) && ref[1] == '.' && ref[2] == ' '
    requires IsDigit(ref[3]) && ref[4] == '.' && ref[5] == ' ' && !IsSpace(ref[6])
    requires IsTrimmed(ref)
    ensures CleanReference(ref) == ref[3..]
    ensures CleanReference(CleanReference(ref)) == ref[6..] != CleanReference(ref)
  {
    CleanSingleDigitItem(ref);
    CleanSingleDigitItem(ref[3..]);
    assert ref[3..][3..] == ref[6..];
  }

  /** A reference numbered with one digit, without brackets, trimmed, loses
      exactly its first three characters. */
  lemma CleanSingleDigitItem(ref: string)
    requires |ref| >= 4 && IsDigit(ref[0]) && ref[1] == '.' && ref[2] == ' ' && !IsSpace(ref[3])
    requires forall i :: 0 <= i < |ref| ==> !IsBracket(ref[i])
    requires IsTrimmed(ref)
    ensures CleanReference(ref) == ref[3..]
  {
    SingleDigitPrefix(ref);
    TrimOfTrimmed(ref[3..]);
  }

  /** A one-digit number, a period and one space are cut. */
  lemma SingleDigitPrefix(s: string)
    requires |s| >= 4 && IsDigit(s[0]) && s[1] == '.' && s[2] == ' ' && !IsSpace(s[3])
    ensures DropNumberPrefix(s) == s[3..]
  {
    assert DigitRunEnd(s, 1) == 1;
    assert SpaceRunEnd(s, 3) == 3;
  }

}
