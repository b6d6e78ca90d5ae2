/** String primitives shared by every service: the JavaScript whitespace class,
    ASCII case folding, substring tests, `trim`, `split`/`join` on a single
    character, and the `/\s+/g` collapse used by the text cleaners. */
module Text {

  /** The characters matched by the regular-expression class `\s` and removed
      by `String.prototype.trim` (WhiteSpace and LineTerminator code points). */
  predicate IsSpace(c: char) {
    || c == ' ' || c == '\t' || c == '\n' || c == '\U{000B}' || c == '\U{000C}' || c == '\r'
    || c == '\U{00A0}' || c == '\U{1680}' || '\U{2000}' <= c <= '\U{200A}'
    || c == '\U{2028}' || c == '\U{2029}' || c == '\U{202F}' || c == '\U{205F}'
    || c == '\U{3000}' || c == '\U{FEFF}'
  }

  predicate IsUpper(c: char) {
    'A' <= c <= 'Z'
  }

  function LowerChar(c: char): (r: char)
    ensures IsUpper(c) ==> r as int == c as int + 32
    ensures !IsUpper(c) ==> r == c
  {
    if IsUpper(c) then (c as int + 32) as char else c
  }

  /** `toLowerCase` restricted to ASCII letters; see README for why this is
      exact for every keyword test in the model. */
  function Lower(s: string): (r: string)
    ensures |r| == |s|
    ensures forall i :: 0 <= i < |s| ==> r[i] == LowerChar(s[i])
  {
    seq(|s|, i requires 0 <= i < |s| => LowerChar(s[i]))
  }

  lemma LowerAppend(a: string, b: string)
    ensures Lower(a + b) == Lower(a) + Lower(b)
  {
  }

  /** Text without upper-case ASCII letters is its own lower-case form. */
  lemma LowerOfLowercase(s: string)
    requires forall i :: 0 <= i < |s| ==> !IsUpper(s[i])
    ensures Lower(s) == s
  {
  }

  /** `s.startsWith(p)` */
  predicate StartsWith(s: string, p: string) {
    |p| <= |s| && s[..|p|] == p
  }

  /** `s.endsWith(p)` */
  predicate EndsWith(s: string, p: string) {
    |p| <= |s| && s[|s| - |p|..] == p
  }

  predicate OccursAt(s: string, sub: string, i: nat) {
    i + |sub| <= |s| && s[i..i + |sub|] == sub
  }

  /** `s.includes(sub)` */
  predicate Contains(s: string, sub: string) {
    exists i: nat :: i <= |s| && OccursAt(s, sub, i)
  }

  /** `kws.some(k => s.includes(k))` */
  predicate ContainsAny(s: string, kws: seq<string>) {
    exists k :: 0 <= k < |kws| && Contains(s, kws[k])
  }

  /** A first character that differs rules out the prefix. */
  lemma FirstCharNotPrefix(s: string, p: string)
    requires p != [] && s != [] && s[0] != p[0]
    ensures !StartsWith(s, p)
  {
    if |p| <= |s| {
      assert s[..|p|][0] == s[0];
    }
  }

  /** A last character that differs rules out the suffix. */
  lemma LastCharNotSuffix(s: string, p: string)
    requires p != [] && s != [] && s[|s| - 1] != p[|p| - 1]
    ensures !EndsWith(s, p)
  {
    if |p| <= |s| {
      assert s[|s| - |p|..][|p| - 1] == s[|s| - 1];
    }
  }

  /** A character of `sub` that `s` lacks rules out every occurrence. */
  lemma MissingCharNotContained(s: string, sub: string, c: char)
    requires c in sub && c !in s
    ensures !Contains(s, sub)
  {
  }

  /** Two adjacent characters of `sub` that never appear side by side in `s`
      rule out every occurrence. */
  lemma MissingPairNotContained(s: string, sub: string, k: nat)
    requires k + 1 < |sub|
    requires forall i :: 0 <= i < |s| - 1 ==> !(s[i] == sub[k] && s[i + 1] == sub[k + 1])
    ensures !Contains(s, sub)
  {
    forall i: nat | i <= |s|
      ensures !OccursAt(s, sub, i)
    {
      if i + |sub| <= |s| {
        assert !(s[i + k] == sub[k] && s[i + k + 1] == sub[k + 1]);
        assert s[i..i + |sub|][k] == s[i + k] && s[i..i + |sub|][k + 1] == s[i + k + 1];
      }
    }
  }

  /** The two halves of a concatenation are its prefix and suffix and occur in it. */
  lemma AppendFacts(a: string, b: string)
    ensures StartsWith(a + b, a) && EndsWith(a + b, b)
    ensures OccursAt(a + b, a, 0) && OccursAt(a + b, b, |a|)
    ensures Contains(a + b, a) && Contains(a + b, b)
  {
    assert (a + b)[..|a|] == a;
    assert (a + b)[|a|..] == b;
    assert (a + b)[0..|a|] == a;
    assert (a + b)[|a|..|a| + |b|] == b;
    assert OccursAt(a + b, a, 0);
    assert OccursAt(a + b, b, |a|);
  }

  /** Appending keeps a prefix. */
  lemma StartsWithAppend(s: string, p: string, t: string)
    ensures StartsWith(s, p) ==> StartsWith(s + t, p)
  {
    if StartsWith(s, p) {
      assert (s + t)[..|p|] == s[..|p|];
    }
  }

  /** Appending the same text to a string and to one of its suffixes keeps
      the suffix relation. */
  lemma EndsWithAppend(s: string, p: string, t: string)
    ensures EndsWith(s, p) ==> EndsWith(s + t, p + t)
  {
    if EndsWith(s, p) {
      assert (s + t)[|s + t| - |p + t|..] == s[|s| - |p|..] + t;
    }
  }

  /** The middle of a three-part concatenation occurs in it after the first part. */
  lemma InfixFacts(a: string, b: string, c: string)
    ensures OccursAt(a + b + c, b, |a|) && Contains(a + b + c, b)
  {
    assert (a + b + c)[|a|..|a| + |b|] == b;
    assert OccursAt(a + b + c, b, |a|);
  }

  /** Substring containment is transitive. */
  lemma {:induction false} ContainsTransitive(s: string, mid: string, sub: string)
    requires Contains(s, mid) && Contains(mid, sub)
    ensures Contains(s, sub)
  {
    var i: nat :| i <= |s| && OccursAt(s, mid, i);
    var j: nat :| j <= |mid| && OccursAt(mid, sub, j);
    assert i + |mid| <= |s| && j + |sub| <= |mid|;
    assert mid == s[i..i + |mid|];
    forall k | 0 <= k < |sub|
      ensures s[i + j + k] == sub[k]
    {
      assert sub[k] == mid[j + k];
    }
    assert s[i + j..i + j + |sub|] == sub;
    assert OccursAt(s, sub, i + j);
  }

  /** The number of leading whitespace characters of `s[i..]`, as an index:
      the first position at or after `i` that is not whitespace. */
  function SpaceRunEnd(s: string, i: nat): (j: nat)
    requires i <= |s|
    ensures i <= j <= |s|
    ensures forall k :: i <= k < j ==> IsSpace(s[k])
    ensures j == |s| || !IsSpace(s[j])
    decreases |s| - i
  {
    if i < |s| && IsSpace(s[i]) then SpaceRunEnd(s, i + 1) else i
  }

  predicate IsTrimmed(s: string) {
    s == [] || (!IsSpace(s[0]) && !IsSpace(s[|s| - 1]))
  }

  function TrimStart(s: string): (r: string)
    ensures |r| <= |s| && r == s[|s| - |r|..]
    ensures forall k :: 0 <= k < |s| - |r| ==> IsSpace(s[k])
    ensures r == [] || !IsSpace(r[0])
  {
    s[SpaceRunEnd(s, 0)..]
  }

  function TrimEnd(s: string): (r: string)
    ensures |r| <= |s| && r == s[..|r|]
    ensures forall k :: |r| <= k < |s| ==> IsSpace(s[k])
    ensures r == [] || !IsSpace(r[|r| - 1])
    decreases |s|
  {
    if |s| > 0 && IsSpace(s[|s| - 1]) then TrimEnd(s[..|s| - 1]) else s
  }

  /** `s.trim()`: the longest infix of `s` with no whitespace at either end,
      obtained by removing only whitespace. */
  function Trim(s: string): (r: string)
    ensures IsTrimmed(r)
    ensures exists a: nat :: StripsSpaceTo(s, r, a)
  {
    var t := TrimStart(s);
    var r := TrimEnd(t);
    assert StripsSpaceTo(s, r, |s| - |t|);
    r
  }

  /** `r` is `s[a..a + |r|]` and everything outside that window is whitespace. */
  predicate StripsSpaceTo(s: string, r: string, a: nat) {
    && a + |r| <= |s| && r == s[a..a + |r|]
    && (forall k :: 0 <= k < a ==> IsSpace(s[k]))
    && (forall k :: a + |r| <= k < |s| ==> IsSpace(s[k]))
  }

  /** The trim of a string occurs in it. */
  lemma TrimContained(s: string)
    ensures Contains(s, Trim(s))
  {
    var a: nat :| StripsSpaceTo(s, Trim(s), a);
    assert OccursAt(s, Trim(s), a);
  }

  /** Every slice of a string occurs in it. */
  lemma SliceContained(s: string, i: nat, j: nat)
    requires i <= j <= |s|
    ensures Contains(s, s[i..j])
  {
    assert OccursAt(s, s[i..j], i);
  }

  /** A trimmed string is its own trim. */
  lemma TrimOfTrimmed(s: string)
    ensures IsTrimmed(s) ==> Trim(s) == s
  {
    if IsTrimmed(s) {
      assert SpaceRunEnd(s, 0) == 0;
    }
  }

  /** Trimming keeps no character the input lacks. */
  lemma TrimSubset(s: string, c: char)
    ensures c !in s ==> c !in Trim(s)
  {
    var r := Trim(s);
    var a: nat :| StripsSpaceTo(s, r, a);
    forall k | 0 <= k < |r|
      ensures r[k] == s[a + k]
    {
    }
  }

  function Count(s: string, c: char): (n: nat)
    ensures n <= |s|
  {
    if s == [] then 0 else (if s[0] == c then 1 else 0) + Count(s[1..], c)
  }

  /** `s.split(c)` for a one-character separator. */
  function Split(s: string, c: char): (parts: seq<string>)
    ensures |parts| >= 1
    ensures forall k :: 0 <= k < |parts| ==> c !in parts[k]
  {
    if s == [] then [""]
    else if s[0] == c then [""] + Split(s[1..], c)
    else
      var rest := Split(s[1..], c);
      [[s[0]] + rest[0]] + rest[1..]
  }

  /** `parts.join(sep)` */
  function Join(parts: seq<string>, sep: string): string {
    if |parts| == 0 then ""
    else if |parts| == 1 then parts[0]
    else parts[0] + sep + Join(parts[1..], sep)
  }

  /** The pieces with `seps[k]` put back between pieces `k` and `k + 1`:
      what a split at matches of varying text undoes to. */
  function Interleave(pieces: seq<string>, seps: seq<string>): string
    requires |pieces| == |seps| + 1
    decreases |seps|
  {
    if seps == [] then pieces[0] else pieces[0] + seps[0] + Interleave(pieces[1..], seps[1..])
  }

  /** One more piece and separator in front put their text in front. */
  lemma InterleaveCons(x: string, sep: string, pieces: seq<string>, seps: seq<string>)
    requires |pieces| == |seps| + 1
    ensures Interleave([x] + pieces, [sep] + seps) == x + sep + Interleave(pieces, seps)
  {
    assert ([x] + pieces)[1..] == pieces;
    assert ([sep] + seps)[1..] == seps;
  }

  /** A split of `s[p..]` that cuts `s[p..q]` off as the first piece and
      `s[q..e]` as the first separator rebuilds `s[p..]` when the rest
      rebuilds `s[e..]`. */
  lemma InterleaveFront(s: string, p: nat, q: nat, e: nat,
                        pieces: seq<string>, seps: seq<string>, rest: seq<string>, restSeps: seq<string>)
    requires p <= q <= e <= |s|
    requires |rest| == |restSeps| + 1 && Interleave(rest, restSeps) == s[e..]
    requires pieces == [s[p..q]] + rest && seps == [s[q..e]] + restSeps
    ensures Interleave(pieces, seps) == s[p..]
  {
    InterleaveCons(s[p..q], s[q..e], rest, restSeps);
    SliceThree(s, p, q, e);
  }

  /** A suffix cut at two points is its three slices in order. */
  lemma SliceThree(s: string, p: nat, q: nat, e: nat)
    requires p <= q <= e <= |s|
    ensures s[p..] == s[p..q] + s[q..e] + s[e..]
  {
  }

  lemma JoinSnoc(parts: seq<string>, last: string, sep: string)
    ensures Join(parts + [last], sep) == if parts == [] then last else Join(parts, sep) + sep + last
  {
    if |parts| > 1 {
      assert (parts + [last])[1..] == parts[1..] + [last];
      JoinSnoc(parts[1..], last, sep);
    } else if |parts| == 1 {
      assert (parts + [last])[1..] == [last];
    }
  }

  /** Joining with the separator undoes the split. */
  lemma {:induction false} SplitJoin(s: string, c: char)
    ensures Join(Split(s, c), [c]) == s
  {
    if s != [] {
      var rest := Split(s[1..], c);
      var parts := Split(s, c);
      SplitJoin(s[1..], c);
      if s[0] == c {
        assert parts == [""] + rest && parts[1..] == rest;
        assert Join(parts, [c]) == "" + [c] + Join(rest, [c]);
      } else if |rest| == 1 {
        assert parts == [[s[0]] + rest[0]];
        assert Join(parts, [c]) == [s[0]] + Join(rest, [c]);
      } else {
        assert parts == [[s[0]] + rest[0]] + rest[1..] && parts[1..] == rest[1..];
        assert Join(parts, [c]) == [s[0]] + rest[0] + [c] + Join(rest[1..], [c]);
        assert Join(rest, [c]) == rest[0] + [c] + Join(rest[1..], [c]);
      }
      assert s == [s[0]] + s[1..];
    }
  }

  /** Splitting yields one piece more than there are separators. */
  lemma {:induction false} SplitLength(s: string, c: char)
    ensures |Split(s, c)| == Count(s, c) + 1
  {
    if s != [] {
      SplitLength(s[1..], c);
    }
  }

  /** `lines.filter(l => l.trim().length > 0).map(l => l.trim())`, which is
      also `lines.map(l => l.trim()).filter(l => l.length > 0)` */
  function NonBlankTrimmed(lines: seq<string>): (r: seq<string>)
    ensures |r| <= |lines|
    ensures forall k :: 0 <= k < |r| ==> r[k] != "" && IsTrimmed(r[k])
  {
    if lines == [] then []
    else
      var t := Trim(lines[0]);
      if t == "" then NonBlankTrimmed(lines[1..]) else [t] + NonBlankTrimmed(lines[1..])
  }

  /** Trimming and filtering introduce no character the lines lack. */
  lemma {:induction false} NonBlankTrimmedLacks(lines: seq<string>, c: char)
    requires forall k :: 0 <= k < |lines| ==> c !in lines[k]
    ensures forall k :: 0 <= k < |NonBlankTrimmed(lines)| ==> c !in NonBlankTrimmed(lines)[k]
  {
    if lines != [] {
      TrimSubset(lines[0], c);
      NonBlankTrimmedLacks(lines[1..], c);
    }
  }

  /** Lines that are already non-blank and trimmed pass through unchanged. */
  lemma {:induction false} NonBlankTrimmedIdentity(lines: seq<string>)
    requires forall k :: 0 <= k < |lines| ==> lines[k] != "" && IsTrimmed(lines[k])
    ensures NonBlankTrimmed(lines) == lines
  {
    if lines != [] {
      TrimOfTrimmed(lines[0]);
      NonBlankTrimmedIdentity(lines[1..]);
    }
  }

  /** Trimming and dropping blanks only ever yields text found in `whole`
      when the lines themselves are found there. */
  lemma {:induction false} NonBlankTrimmedContained(lines: seq<string>, whole: string)
    requires forall k :: 0 <= k < |lines| ==> Contains(whole, lines[k])
    ensures forall k :: 0 <= k < |NonBlankTrimmed(lines)| ==> Contains(whole, NonBlankTrimmed(lines)[k])
  {
    if lines != [] {
      NonBlankTrimmedContained(lines[1..], whole);
      TrimContained(lines[0]);
      ContainsTransitive(whole, lines[0], Trim(lines[0]));
    }
  }

  /** A string is kept exactly when it is non-empty and some line trims to
      it. */
  lemma NonBlankTrimmedIff(lines: seq<string>, x: string)
    ensures x in NonBlankTrimmed(lines) <==> x != "" && exists k :: 0 <= k < |lines| && Trim(lines[k]) == x
  {
    if x in NonBlankTrimmed(lines) {
      NonBlankTrimmedSource(lines, x);
    }
    if x != "" && exists k :: 0 <= k < |lines| && Trim(lines[k]) == x {
      var k :| 0 <= k < |lines| && Trim(lines[k]) == x;
      NonBlankTrimmedKeeps(lines, k);
    }
  }

  /** Every kept line is the trim of some line. */
  lemma {:induction false} NonBlankTrimmedSource(lines: seq<string>, x: string)
    requires x in NonBlankTrimmed(lines)
    ensures x != "" && exists k :: 0 <= k < |lines| && Trim(lines[k]) == x
  {
    var tail := lines[1..];
    if x in NonBlankTrimmed(tail) {
      NonBlankTrimmedSource(tail, x);
      var k :| 0 <= k < |tail| && Trim(tail[k]) == x;
      assert lines[k + 1] == tail[k];
    }
  }

  /** Every line that does not trim to nothing is kept, trimmed. */
  lemma {:induction false} NonBlankTrimmedKeeps(lines: seq<string>, k: nat)
    requires k < |lines| && Trim(lines[k]) != ""
    ensures Trim(lines[k]) in NonBlankTrimmed(lines)
  {
    if k > 0 {
      NonBlankTrimmedKeeps(lines[1..], k - 1);
      assert lines[1..][k - 1] == lines[k];
    }
  }

  /** `NonBlankTrimmedIff` for every string at once. */
  lemma NonBlankTrimmedMembers(lines: seq<string>)
    ensures forall x :: x in NonBlankTrimmed(lines) <==> x != "" && exists k :: 0 <= k < |lines| && Trim(lines[k]) == x
  {
    forall x
      ensures x in NonBlankTrimmed(lines) <==> x != "" && exists k :: 0 <= k < |lines| && Trim(lines[k]) == x
    {
      NonBlankTrimmedIff(lines, x);
    }
  }

  /** Trimming and dropping blanks works line by line, so it keeps order. */
  lemma {:induction false} NonBlankTrimmedAppend(a: seq<string>, b: seq<string>)
    ensures NonBlankTrimmed(a + b) == NonBlankTrimmed(a) + NonBlankTrimmed(b)
  {
    if a == [] {
      assert a + b == b;
    } else {
      assert (a + b)[1..] == a[1..] + b;
      NonBlankTrimmedAppend(a[1..], b);
    }
  }

  /** A string without the separator is a single piece. */
  lemma {:induction false} SplitWithout(s: string, c: char)
    requires c !in s
    ensures Split(s, c) == [s]
  {
    if s != [] {
      assert c !in s[1..];
      SplitWithout(s[1..], c);
      assert s == [s[0]] + s[1..];
    }
  }

  /** Splitting `a`, the separator and `b` gives the pieces of `a` followed by
      those of `b`. */
  lemma {:induction false} SplitAppend(a: string, c: char, b: string)
    ensures Split(a + [c] + b, c) == Split(a, c) + Split(b, c)
  {
    var s := a + [c] + b;
    if a == [] {
      assert s == [c] + b;
      assert s[1..] == b;
    } else {
      assert s[0] == a[0];
      assert s[1..] == a[1..] + [c] + b;
      SplitAppend(a[1..], c, b);
    }
  }

  /** The only whitespace is the plain space, and no two spaces are adjacent. */
  predicate SingleSpaced(s: string) {
    && (forall i :: 0 <= i < |s| && IsSpace(s[i]) ==> s[i] == ' ')
    && (forall i :: 0 < i < |s| && s[i] == ' ' ==> s[i - 1] != ' ')
  }

  /** `s.replace(/\s+/g, ' ')`: every maximal whitespace run becomes one space. */
  function Collapse(s: string): (r: string)
    ensures SingleSpaced(r)
    ensures s != [] && !IsSpace(s[0]) ==> r != [] && r[0] == s[0]
    ensures s != [] && IsSpace(s[0]) ==> r != [] && r[0] == ' '
    ensures forall c :: !IsSpace(c) && c !in s ==> c !in r
    decreases |s|
  {
    if s == [] then []
    else if IsSpace(s[0]) then
      var j := SpaceRunEnd(s, 0);
      " " + Collapse(s[j..])
    else
      [s[0]] + Collapse(s[1..])
  }

  /** A single-spaced string of plain characters is left unchanged by `Collapse`. */
  lemma {:induction false} CollapseOfSingleSpaced(s: string)
    requires SingleSpaced(s)
    ensures Collapse(s) == s
  {
    if s != [] {
      if IsSpace(s[0]) {
        assert |s| == 1 || !IsSpace(s[1]);
        var j := SpaceRunEnd(s, 0);
        assert j == 1;
        CollapseOfSingleSpaced(s[1..]);
      } else {
        CollapseOfSingleSpaced(s[1..]);
      }
      assert s == [s[0]] + s[1..];
    }
  }
}
