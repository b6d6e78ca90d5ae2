/** `CitationService`: formats citation metadata as APA-, MLA- and
    Chicago-like strings (the repository's own approximations of those
    styles), plus the two extraction steps that are plain scans: the first
    word-bounded 19xx/20xx year, and the split-and-clean of an author block. */
module CitationService {
  import opened Wrappers
  import opened Text

  /** The fields the formatters read. A string field counts as present when
      it is defined and non-empty, and the year when it is defined and
      non-zero (JavaScript truthiness). */
  datatype CitationMetadata = CitationMetadata(
    authors: seq<string>,
    title: string,
    year: Option<int>,
    journal: Option<string>,
    doi: Option<string>)

  predicate Present(field: Option<string>) {
    field.Some? && field.value != ""
  }

  predicate YearPresent(year: Option<int>) {
    year.Some? && year.value != 0
  }

  // ------------------------------------------------------ decimal rendering

  function DigitChar(d: nat): (c: char)
    requires d < 10
    ensures '0' <= c <= '9'
  {
    ('0' as int + d) as char
  }

  function NatToString(n: nat): (s: string)
    ensures |s| >= 1
    ensures forall i :: 0 <= i < |s| ==> '0' <= s[i] <= '9'
  {
    if n < 10 then [DigitChar(n)] else NatToString(n / 10) + [DigitChar(n % 10)]
  }

  /** `${n}` for an integer. */
  function IntToString(n: int): (s: string)
    ensures |s| >= 1
  {
    if n < 0 then "-" + NatToString(-n) else NatToString(n)
  }

  // -------------------------------------------------------- author lists

  /** `formatAPAAuthors`: the first author always leads; a second one follows
      after " & "; from three authors on only the first is kept, followed by
      " et al.". */
  function FormatApaAuthors(authors: seq<string>): (r: string)
    ensures |authors| == 0 ==> r == ""
    ensures |authors| >= 1 ==> StartsWith(r, authors[0])
    ensures |authors| <= 2 ==> forall k :: 0 <= k < |authors| ==> Contains(r, authors[k])
    ensures |authors| == 1 ==> |r| == |authors[0]|
    ensures |authors| == 2 ==> && OccursAt(r, " & ", |authors[0]|) && EndsWith(r, authors[1])
                               && |r| == |authors[0]| + 3 + |authors[1]|
    ensures |authors| >= 3 ==> EndsWith(r, " et al.") && |r| == |authors[0]| + 7
  {
    if |authors| == 0 then ""
    else if |authors| == 1 then
      AloneFacts(authors[0]);
      authors[0]
    else if |authors| == 2 then
      PairFacts(authors[0], " & ", authors[1]);
      authors[0] + " & " + authors[1]
    else
      AppendFacts(authors[0], " et al.");
      authors[0] + " et al."
  }

  /** `formatMLAAuthors`: as APA with " and " between two authors, but a long
      list ends in ", et al" with no closing period. */
  function FormatMlaAuthors(authors: seq<string>): (r: string)
    ensures |authors| == 0 ==> r == ""
    ensures |authors| >= 1 ==> StartsWith(r, authors[0])
    ensures |authors| <= 2 ==> forall k :: 0 <= k < |authors| ==> Contains(r, authors[k])
    ensures |authors| == 1 ==> |r| == |authors[0]|
    ensures |authors| == 2 ==> && OccursAt(r, " and ", |authors[0]|) && EndsWith(r, authors[1])
                               && |r| == |authors[0]| + 5 + |authors[1]|
    ensures |authors| >= 3 ==> EndsWith(r, ", et al") && |r| == |authors[0]| + 7 && !EndsWith(r, ".")
  {
    if |authors| == 0 then ""
    else if |authors| == 1 then
      AloneFacts(authors[0]);
      authors[0]
    else if |authors| == 2 then
      PairFacts(authors[0], " and ", authors[1]);
      authors[0] + " and " + authors[1]
    else
      AppendFacts(authors[0], ", et al");
      assert (authors[0] + ", et al")[|authors[0]| + 6] == 'l';
      authors[0] + ", et al"
  }

  /** `formatChicagoAuthors`: up to three authors are all named, the third
      after ", and "; from four on only the first, followed by " et al.". */
  function FormatChicagoAuthors(authors: seq<string>): (r: string)
    ensures |authors| == 0 ==> r == ""
    ensures |authors| >= 1 ==> StartsWith(r, authors[0])
    ensures |authors| <= 3 ==> forall k :: 0 <= k < |authors| ==> Contains(r, authors[k])
    ensures |authors| == 1 ==> |r| == |authors[0]|
    ensures |authors| == 2 ==> && OccursAt(r, " and ", |authors[0]|) && EndsWith(r, authors[1])
                               && |r| == |authors[0]| + 5 + |authors[1]|
    ensures |authors| == 3 ==> && OccursAt(r, ", ", |authors[0]|) && OccursAt(r, authors[1], |authors[0]| + 2)
                               && OccursAt(r, ", and ", |authors[0]| + 2 + |authors[1]|) && EndsWith(r, authors[2])
                               && |r| == |authors[0]| + |authors[1]| + |authors[2]| + 8
    ensures |authors| >= 4 ==> EndsWith(r, " et al.") && |r| == |authors[0]| + 7
  {
    if |authors| == 0 then ""
    else if |authors| == 1 then
      AloneFacts(authors[0]);
      authors[0]
    else if |authors| == 2 then
      PairFacts(authors[0], " and ", authors[1]);
      authors[0] + " and " + authors[1]
    else if |authors| == 3 then
      ChicagoNamesThree(authors[0], authors[1], authors[2]);
      authors[0] + ", " + authors[1] + ", and " + authors[2]
    else
      AppendFacts(authors[0], " et al.");
      authors[0] + " et al."
  }

  lemma AloneFacts(a: string)
    ensures StartsWith(a, a) && Contains(a, a)
  {
    assert OccursAt(a, a, 0);
  }

  lemma PairFacts(a: string, sep: string, b: string)
    ensures var r := a + sep + b;
      && StartsWith(r, a) && OccursAt(r, sep, |a|) && EndsWith(r, b)
      && Contains(r, a) && Contains(r, b)
  {
    var r := a + sep + b;
    assert StartsWith(r, a) && Contains(r, a) by {
      AppendFacts(a, sep + b);
      assert r == a + (sep + b);
    }
    assert EndsWith(r, b) && Contains(r, b) by {
      AppendFacts(a + sep, b);
    }
    InfixFacts(a, sep, b);
  }

  lemma ChicagoNamesThree(a0: string, a1: string, a2: string)
    ensures var r := a0 + ", " + a1 + ", and " + a2;
      && StartsWith(r, a0) && OccursAt(r, ", ", |a0|) && OccursAt(r, a1, |a0| + 2)
      && OccursAt(r, ", and ", |a0| + 2 + |a1|) && EndsWith(r, a2)
      && Contains(r, a0) && Contains(r, a1) && Contains(r, a2)
  {
    var r := a0 + ", " + a1 + ", and " + a2;
    Parts4(a0, ", ", a1, ", and ");
    Parts2(a0 + ", " + a1 + ", and ", a2);
    var front := a0 + ", " + a1 + ", and ";
    OccursShift(r, front, 0, a0, 0);
    OccursShift(r, front, 0, ", ", |a0|);
    OccursShift(r, front, 0, a1, |a0| + 2);
    OccursShift(r, front, 0, ", and ", |a0| + 2 + |a1|);
    AtStart(r, a0);
    Witness(r, a0, 0);
    Witness(r, a1, |a0| + 2);
  }

  /** Beyond two authors (three for Chicago) only the first one is printed. */
  lemma LongListsShowOnlyFirstAuthor(a: seq<string>, b: seq<string>)
    requires |a| >= 3 && |b| >= 3 && a[0] == b[0]
    ensures FormatApaAuthors(a) == FormatApaAuthors(b)
    ensures FormatMlaAuthors(a) == FormatMlaAuthors(b)
    ensures |a| >= 4 && |b| >= 4 ==> FormatChicagoAuthors(a) == FormatChicagoAuthors(b)
  {
  }

  // ------------------------------------------------------------- layouts

  function ApaAuthorPart(md: CitationMetadata): string {
    if |md.authors| > 0 then FormatApaAuthors(md.authors) else "Unknown Author"
  }

  function MlaAuthorPart(md: CitationMetadata): string {
    if |md.authors| > 0 then FormatMlaAuthors(md.authors) else "Unknown Author"
  }

  function ChicagoAuthorPart(md: CitationMetadata): string {
    if |md.authors| > 0 then FormatChicagoAuthors(md.authors) else "Unknown Author"
  }

  function TitleOrUntitled(md: CitationMetadata): string {
    if md.title != "" then md.title else "Untitled"
  }

  /** `(year)`, or `(n.d.)` when the year is missing or zero. */
  function ApaYear(md: CitationMetadata): string {
    if YearPresent(md.year) then "(" + IntToString(md.year.value) + ")" else "(n.d.)"
  }

  /** An optional part of a layout: `prefix` and the field when the field is
      present, nothing otherwise. */
  function Segment(prefix: string, field: Option<string>): string {
    if Present(field) then prefix + field.value else ""
  }

  /** The optional year part: `prefix`, the year and `suffix`, or nothing. */
  function YearSegment(prefix: string, year: Option<int>, suffix: string): string {
    if YearPresent(year) then prefix + IntToString(year.value) + suffix else ""
  }

  /** The parts every layout starts with. */
  function ApaHead(md: CitationMetadata): string {
    ApaAuthorPart(md) + " " + ApaYear(md) + ". " + TitleOrUntitled(md)
  }

  function MlaHead(md: CitationMetadata): string {
    MlaAuthorPart(md) + ". \"" + TitleOrUntitled(md) + ".\""
  }

  function ChicagoHead(md: CitationMetadata): string {
    ChicagoAuthorPart(md) + ".\"" + TitleOrUntitled(md) + ".\""
  }

  /** `${authors} ${year}. ${title}${journal}${doi}`: the author part, the
      year and the title lead; the journal, when present, follows them at
      once, and the DOI link, when present, comes right after and ends the
      citation. */
  function FormatApa(md: CitationMetadata): (r: string)
    ensures ApaLaidOut(r, ApaHead(md), md.journal, md.doi)
  {
    var head := ApaHead(md);
    var journal := Segment(". ", md.journal);
    var doi := Segment(". https://doi.org/", md.doi);
    OpenLayoutFacts(head, journal, doi, "");
    assert head + journal + doi + "" == head + journal + doi;
    head + journal + doi
  }

  /** The APA layout around a given head: the journal, when present, right
      after the head; the DOI link right after the journal part, ending the
      citation; without a DOI the journal ends it; with neither the citation
      is the head alone. */
  predicate ApaLaidOut(r: string, head: string, journal: Option<string>, doi: Option<string>) {
    && StartsWith(r, head)
    && (Present(journal) ==> OccursAt(r, ". " + journal.value, |head|))
    && (Present(doi) ==> && OccursAt(r, ". https://doi.org/" + doi.value, |head| + |Segment(". ", journal)|)
                         && EndsWith(r, ". https://doi.org/" + doi.value))
    && (!Present(doi) && Present(journal) ==> EndsWith(r, ". " + journal.value))
    && (!Present(doi) && !Present(journal) ==> r == head)
  }

  /** Where the parts of `w + x + y + z` occur in it. */
  lemma Parts4(w: string, x: string, y: string, z: string)
    ensures var r := w + x + y + z;
      && OccursAt(r, w, 0) && OccursAt(r, x, |w|) && OccursAt(r, y, |w| + |x|) && OccursAt(r, z, |w| + |x| + |y|)
      && StartsWith(r, w) && EndsWith(r, z)
  {
    var r := w + x + y + z;
    Parts2(w, x);
    Parts2(w + x, y);
    Parts2(w + x + y, z);
    OccursShift(r, w + x + y, 0, w + x, 0);
    OccursShift(r, w + x, 0, w, 0);
    OccursShift(r, w + x, 0, x, |w|);
    OccursShift(r, w + x + y, 0, y, |w + x|);
    AtStart(r, w);
  }

  lemma Parts2(a: string, b: string)
    ensures OccursAt(a + b, a, 0) && OccursAt(a + b, b, |a|) && EndsWith(a + b, b) && StartsWith(a + b, a)
  {
    AppendFacts(a, b);
  }

  /** An occurrence inside an occurrence. */
  lemma OccursShift(r: string, m: string, i: nat, x: string, j: nat)
    requires OccursAt(r, m, i) && OccursAt(m, x, j)
    ensures OccursAt(r, x, i + j)
  {
    forall k | 0 <= k < |x|
      ensures r[i + j + k] == x[k]
    {
      assert r[i..i + |m|][j + k] == m[j + k];
      assert m[j..j + |x|][k] == x[k];
    }
    assert r[i + j..i + j + |x|] == x;
  }

  lemma AtStart(r: string, x: string)
    requires OccursAt(r, x, 0)
    ensures StartsWith(r, x)
  {
    assert r[..|x|] == r[0..|x|];
  }

  lemma Witness(r: string, x: string, i: nat)
    requires OccursAt(r, x, i)
    ensures Contains(r, x)
  {
  }

  /** What a layout `r == head + a + b + c` shows of its parts, and where. */
  lemma LayoutFacts(r: string, head: string, a: string, b: string, c: string)
    requires r == head + a + b + c
    ensures StartsWith(r, head)
    ensures OccursAt(r, a, |head|) && OccursAt(r, b, |head| + |a|) && OccursAt(r, c, |head| + |a| + |b|)
    ensures EndsWith(r, c)
    ensures c == "" ==> EndsWith(r, b)
    ensures b == "" && c == "" ==> EndsWith(r, a)
    ensures a == "" && b == "" && c == "" ==> r == head
  {
    Parts4(head, a, b, c);
    if c == "" {
      assert r == (head + a) + b;
      Parts2(head + a, b);
      if b == "" {
        assert r == head + a;
        Parts2(head, a);
      }
    }
  }

  /** `${authors}. ${title}${journal}${year}${doi}` with the title quoted:
      the author part and the quoted title lead; the journal, the year and
      the DOI follow in that order, each right after the previous present
      part, and the last present part ends the citation. */
  function FormatMla(md: CitationMetadata): (r: string)
    ensures MlaLaidOut(r, MlaHead(md), md.journal, md.year, md.doi)
  {
    MlaLayout(MlaHead(md), md.journal, md.year, md.doi);
    MlaHead(md) + Segment(" ", md.journal) + YearSegment(", ", md.year, "") + Segment(". DOI: ", md.doi)
  }

  /** The MLA layout around a given head: " journal", ", year" and
      ". DOI: doi" in that order, each right after the previous present
      part; the last present part ends the citation, and with none it is
      the head alone. */
  predicate MlaLaidOut(r: string, head: string, journal: Option<string>, year: Option<int>, doi: Option<string>) {
    && StartsWith(r, head)
    && (Present(journal) ==> OccursAt(r, " " + journal.value, |head|))
    && (YearPresent(year) ==> OccursAt(r, ", " + IntToString(year.value), |head| + |Segment(" ", journal)|))
    && (Present(doi) ==>
          && OccursAt(r, ". DOI: " + doi.value, |head| + |Segment(" ", journal)| + |YearSegment(", ", year, "")|)
          && EndsWith(r, ". DOI: " + doi.value))
    && (!Present(doi) && YearPresent(year) ==> EndsWith(r, ", " + IntToString(year.value)))
    && (!Present(doi) && !YearPresent(year) && Present(journal) ==> EndsWith(r, " " + journal.value))
    && (!Present(doi) && !YearPresent(year) && !Present(journal) ==> r == head)
  }

  lemma MlaLayout(head: string, journal: Option<string>, year: Option<int>, doi: Option<string>)
    ensures MlaLaidOut(head + Segment(" ", journal) + YearSegment(", ", year, "") + Segment(". DOI: ", doi),
                       head, journal, year, doi)
  {
    OpenLayoutFacts(head, Segment(" ", journal), YearSegment(", ", year, ""), Segment(". DOI: ", doi));
    NoSuffixYear(", ", year);
  }

  /** A year segment without suffix is the prefix and the year. */
  lemma NoSuffixYear(prefix: string, year: Option<int>)
    ensures YearPresent(year) ==> YearSegment(prefix, year, "") == prefix + IntToString(year.value)
  {
    if YearPresent(year) {
      assert prefix + IntToString(year.value) + "" == prefix + IntToString(year.value);
    }
  }

  /** What a layout `head + a + b + c` shows of its parts, and where. */
  lemma OpenLayoutFacts(head: string, a: string, b: string, c: string)
    ensures var r := head + a + b + c;
      && StartsWith(r, head)
      && OccursAt(r, a, |head|) && OccursAt(r, b, |head| + |a|) && OccursAt(r, c, |head| + |a| + |b|)
      && EndsWith(r, c)
      && (c == "" ==> EndsWith(r, b))
      && (b == "" && c == "" ==> EndsWith(r, a))
      && (a == "" && b == "" && c == "" ==> r == head)
  {
    LayoutFacts(head + a + b + c, head, a, b, c);
  }

  /** `${authors}.${title}${journal}${year}${doi}.`: no space after the
      author part, the journal, the year in parentheses and the DOI in that
      order, each right after the previous present part, and always a final
      period. */
  function FormatChicago(md: CitationMetadata): (r: string)
    ensures ChicagoLaidOut(r, ChicagoHead(md), md.journal, md.year, md.doi)
  {
    ChicagoLayout(ChicagoHead(md), md.journal, md.year, md.doi);
    ChicagoHead(md) + Segment(" ", md.journal) + YearSegment(" (", md.year, ")") + Segment(". DOI: ", md.doi) + "."
  }

  /** The Chicago layout around a given head: " journal", " (year)" and
      ". DOI: doi" in that order, each right after the previous present
      part; the last present part is followed only by the closing period,
      and with none the citation is the head and the period. */
  predicate ChicagoLaidOut(r: string, head: string, journal: Option<string>, year: Option<int>, doi: Option<string>) {
    && StartsWith(r, head)
    && EndsWith(r, ".")
    && (Present(journal) ==> OccursAt(r, " " + journal.value, |head|))
    && (YearPresent(year) ==> OccursAt(r, " (" + IntToString(year.value) + ")", |head| + |Segment(" ", journal)|))
    && (Present(doi) ==>
          && OccursAt(r, ". DOI: " + doi.value, |head| + |Segment(" ", journal)| + |YearSegment(" (", year, ")")|)
          && EndsWith(r, ". DOI: " + doi.value + "."))
    && (!Present(doi) && YearPresent(year) ==> EndsWith(r, " (" + IntToString(year.value) + ")" + "."))
    && (!Present(doi) && !YearPresent(year) && Present(journal) ==> EndsWith(r, " " + journal.value + "."))
    && (!Present(doi) && !YearPresent(year) && !Present(journal) ==> r == head + ".")
  }

  lemma ChicagoLayout(head: string, journal: Option<string>, year: Option<int>, doi: Option<string>)
    ensures ChicagoLaidOut(head + Segment(" ", journal) + YearSegment(" (", year, ")") + Segment(". DOI: ", doi) + ".",
                           head, journal, year, doi)
  {
    ClosedLayoutFacts(head, Segment(" ", journal), YearSegment(" (", year, ")"), Segment(". DOI: ", doi));
  }

  /** What a layout `head + a + b + c` closed by a period shows of its
      parts, and where. */
  lemma ClosedLayoutFacts(head: string, a: string, b: string, c: string)
    ensures var r := head + a + b + c + ".";
      && StartsWith(r, head) && EndsWith(r, ".")
      && OccursAt(r, a, |head|) && OccursAt(r, b, |head| + |a|) && OccursAt(r, c, |head| + |a| + |b|)
      && EndsWith(r, c + ".")
      && (c == "" ==> EndsWith(r, b + "."))
      && (b == "" && c == "" ==> EndsWith(r, a + "."))
      && (a == "" && b == "" && c == "" ==> r == head + ".")
  {
    var body := head + a + b + c;
    LayoutFacts(body, head, a, b, c);
    Parts2(body, ".");
    StartAt(body, head);
    OccursShift(body + ".", body, 0, head, 0);
    AtStart(body + ".", head);
    OccursShift(body + ".", body, 0, a, |head|);
    OccursShift(body + ".", body, 0, b, |head| + |a|);
    OccursShift(body + ".", body, 0, c, |head| + |a| + |b|);
    EndsWithAppend(body, c, ".");
    EndsWithAppend(body, b, ".");
    EndsWithAppend(body, a, ".");
  }

  lemma StartAt(r: string, x: string)
    requires StartsWith(r, x)
    ensures OccursAt(r, x, 0)
  {
    assert r[0..|x|] == r[..|x|];
  }

  /** With nothing extracted every layout falls back to its defaults. */
  lemma EmptyMetadataDefaults()
    ensures var md := CitationMetadata([], "", None, None, None);
      && FormatApa(md) == "Unknown Author (n.d.). Untitled"
      && FormatMla(md) == "Unknown Author. \"Untitled.\""
      && FormatChicago(md) == "Unknown Author.\"Untitled.\"."
  {
    var md := CitationMetadata([], "", None, None, None);
    assert FormatApa(md) == "Unknown Author (n.d.). Untitled";
    assert FormatMla(md) == "Unknown Author. \"Untitled.\"";
    ChicagoDefaults();
  }

  lemma ChicagoDefaults()
    ensures FormatChicago(CitationMetadata([], "", None, None, None)) == "Unknown Author.\"Untitled.\"."
  {
  }

  /** A citation shows every field it was given: the title (or "Untitled"),
      the first author, and the journal, year and DOI when present. */
  predicate ShowsFields(r: string, md: CitationMetadata) {
    && Contains(r, TitleOrUntitled(md))
    && (|md.authors| > 0 ==> Contains(r, md.authors[0]))
    && (Present(md.journal) ==> Contains(r, md.journal.value))
    && (YearPresent(md.year) ==> Contains(r, IntToString(md.year.value)))
    && (Present(md.doi) ==> Contains(r, md.doi.value))
  }

  /** `x` framed by `p` and `q` at `i` occurs itself `|p|` further on. */
  lemma Framed(r: string, p: string, x: string, q: string, i: nat)
    requires OccursAt(r, p + x + q, i)
    ensures OccursAt(r, x, i + |p|) && Contains(r, x)
  {
    InfixFacts(p, x, q);
    OccursShift(r, p + x + q, i, x, |p|);
  }

  /** `Framed` without a closing part. */
  lemma After(r: string, p: string, x: string, i: nat)
    requires OccursAt(r, p + x, i)
    ensures OccursAt(r, x, i + |p|) && Contains(r, x)
  {
    Parts2(p, x);
    OccursShift(r, p + x, i, x, |p|);
  }

  /** The first author starts the author part of every layout. */
  lemma FirstAuthorLeads(r: string, authorPart: string, md: CitationMetadata)
    requires StartsWith(r, authorPart)
    requires |md.authors| > 0 ==> StartsWith(authorPart, md.authors[0])
    ensures |md.authors| > 0 ==> Contains(r, md.authors[0])
  {
    if |md.authors| > 0 {
      assert r[..|md.authors[0]|] == authorPart[..|md.authors[0]|];
      assert OccursAt(r, md.authors[0], 0);
    }
  }

  /** The head of a layout shows the title and the first author. */
  lemma HeadShows(r: string, h: string, a: string, off: nat, md: CitationMetadata)
    requires StartsWith(r, h) && OccursAt(h, a, 0) && OccursAt(h, TitleOrUntitled(md), off)
    requires |md.authors| > 0 ==> StartsWith(a, md.authors[0])
    ensures Contains(r, TitleOrUntitled(md))
    ensures |md.authors| > 0 ==> Contains(r, md.authors[0])
  {
    StartAt(r, h);
    OccursShift(r, h, 0, TitleOrUntitled(md), off);
    Witness(r, TitleOrUntitled(md), off);
    OccursShift(r, h, 0, a, 0);
    AtStart(r, a);
    FirstAuthorLeads(r, a, md);
  }

  lemma ApaShowsFields(md: CitationMetadata)
    ensures ShowsFields(FormatApa(md), md)
  {
    var r := FormatApa(md);
    ApaHeadShows(r, md);
    ApaTailShows(r, md);
  }

  lemma ApaHeadShows(r: string, md: CitationMetadata)
    requires StartsWith(r, ApaHead(md))
    ensures Contains(r, TitleOrUntitled(md))
    ensures |md.authors| > 0 ==> Contains(r, md.authors[0])
    ensures YearPresent(md.year) ==> Contains(r, IntToString(md.year.value))
  {
    var a := ApaAuthorPart(md);
    ApaHeadParts(a, ApaYear(md), TitleOrUntitled(md));
    HeadShows(r, ApaHead(md), a, |a| + 1 + |ApaYear(md)| + 2, md);
    if YearPresent(md.year) {
      ApaYearShows(r, a, IntToString(md.year.value), TitleOrUntitled(md));
    }
  }

  /** Where the author part and the title sit in `a (year). title`. */
  lemma ApaHeadParts(a: string, y: string, t: string)
    ensures OccursAt(a + " " + y + ". " + t, a, 0)
    ensures OccursAt(a + " " + y + ". " + t, t, |a| + 1 + |y| + 2)
  {
    var h := a + " " + y + ". " + t;
    Parts4(a + " ", y, ". ", t);
    Parts2(a, " ");
    OccursShift(h, a + " ", 0, a, 0);
  }

  /** The year of an APA head is shown. */
  lemma ApaYearShows(r: string, a: string, y: string, t: string)
    requires StartsWith(r, a + " " + ("(" + y + ")") + ". " + t)
    ensures Contains(r, y)
  {
    var h := a + " " + ("(" + y + ")") + ". " + t;
    Parts4(a + " ", "(" + y + ")", ". ", t);
    StartAt(r, h);
    Framed(h, "(", y, ")", |a| + 1);
    OccursShift(r, h, 0, y, |a| + 2);
    Witness(r, y, |a| + 2);
  }

  lemma ApaTailShows(r: string, md: CitationMetadata)
    requires Present(md.journal) ==> OccursAt(r, ". " + md.journal.value, |ApaHead(md)|)
    requires Present(md.doi) ==> OccursAt(r, ". https://doi.org/" + md.doi.value, |ApaHead(md)| + |Segment(". ", md.journal)|)
    ensures Present(md.journal) ==> Contains(r, md.journal.value)
    ensures Present(md.doi) ==> Contains(r, md.doi.value)
  {
    if Present(md.journal) {
      After(r, ". ", md.journal.value, |ApaHead(md)|);
    }
    if Present(md.doi) {
      After(r, ". https://doi.org/", md.doi.value, |ApaHead(md)| + |Segment(". ", md.journal)|);
    }
  }

  lemma MlaShowsFields(md: CitationMetadata)
    ensures ShowsFields(FormatMla(md), md)
  {
    var r := FormatMla(md);
    var a := MlaAuthorPart(md);
    Parts4(a, ". \"", TitleOrUntitled(md), ".\"");
    HeadShows(r, MlaHead(md), a, |a| + 3, md);
    MlaTailShows(r, md);
  }

  lemma MlaTailShows(r: string, md: CitationMetadata)
    requires Present(md.journal) ==> OccursAt(r, " " + md.journal.value, |MlaHead(md)|)
    requires YearPresent(md.year) ==>
               OccursAt(r, ", " + IntToString(md.year.value), |MlaHead(md)| + |Segment(" ", md.journal)|)
    requires Present(md.doi) ==>
               OccursAt(r, ". DOI: " + md.doi.value,
                        |MlaHead(md)| + |Segment(" ", md.journal)| + |YearSegment(", ", md.year, "")|)
    ensures Present(md.journal) ==> Contains(r, md.journal.value)
    ensures YearPresent(md.year) ==> Contains(r, IntToString(md.year.value))
    ensures Present(md.doi) ==> Contains(r, md.doi.value)
  {
    var h := |MlaHead(md)|;
    var j := |Segment(" ", md.journal)|;
    var y := |YearSegment(", ", md.year, "")|;
    if Present(md.journal) {
      assert Contains(r, md.journal.value) by {
        After(r, " ", md.journal.value, h);
      }
    }
    if YearPresent(md.year) {
      assert Contains(r, IntToString(md.year.value)) by {
        After(r, ", ", IntToString(md.year.value), h + j);
      }
    }
    if Present(md.doi) {
      assert Contains(r, md.doi.value) by {
        After(r, ". DOI: ", md.doi.value, h + j + y);
      }
    }
  }

  lemma ChicagoShowsFields(md: CitationMetadata)
    ensures ShowsFields(FormatChicago(md), md)
  {
    var r := FormatChicago(md);
    var a := ChicagoAuthorPart(md);
    Parts4(a, ".\"", TitleOrUntitled(md), ".\"");
    HeadShows(r, ChicagoHead(md), a, |a| + 2, md);
    ChicagoTailShows(r, md);
  }

  lemma ChicagoTailShows(r: string, md: CitationMetadata)
    requires Present(md.journal) ==> OccursAt(r, " " + md.journal.value, |ChicagoHead(md)|)
    requires YearPresent(md.year) ==>
               OccursAt(r, " (" + IntToString(md.year.value) + ")", |ChicagoHead(md)| + |Segment(" ", md.journal)|)
    requires Present(md.doi) ==>
               OccursAt(r, ". DOI: " + md.doi.value,
                        |ChicagoHead(md)| + |Segment(" ", md.journal)| + |YearSegment(" (", md.year, ")")|)
    ensures Present(md.journal) ==> Contains(r, md.journal.value)
    ensures YearPresent(md.year) ==> Contains(r, IntToString(md.year.value))
    ensures Present(md.doi) ==> Contains(r, md.doi.value)
  {
    var h := ChicagoHead(md);
    if Present(md.journal) {
      After(r, " ", md.journal.value, |h|);
    }
    if YearPresent(md.year) {
      Framed(r, " (", IntToString(md.year.value), ")", |h| + |Segment(" ", md.journal)|);
    }
    if Present(md.doi) {
      After(r, ". DOI: ", md.doi.value, |h| + |Segment(" ", md.journal)| + |YearSegment(" (", md.year, ")")|);
    }
  }

  /** Whatever the style, the citation shows every field it was given. */
  lemma CitationShowsEveryField(md: CitationMetadata, style: string)
    ensures ShowsFields(GenerateCitation(md, style), md)
  {
    ApaShowsFields(md);
    MlaShowsFields(md);
    ChicagoShowsFields(md);
  }

  /** `generateCitation(context, style = 'APA')` after metadata extraction:
      "MLA" and "Chicago" select their layouts; "APA" and every other value
      select APA. */
  function GenerateCitation(md: CitationMetadata, style: string): (r: string)
    ensures style == "MLA" ==> r == FormatMla(md)
    ensures style == "Chicago" ==> r == FormatChicago(md)
    ensures style != "MLA" && style != "Chicago" ==> r == FormatApa(md)
  {
    match style
    case "APA" => FormatApa(md)
    case "MLA" => FormatMla(md)
    case "Chicago" => FormatChicago(md)
    case _ => FormatApa(md)
  }

  /** The default style argument is APA. */
  function GenerateCitationDefault(md: CitationMetadata): (r: string)
    ensures r == FormatApa(md)
  {
    GenerateCitation(md, "APA")
  }

  /** The upper-case "CHICAGO" the Citation agent reports is not a style this
      service recognises: it falls back to APA. */
  lemma UpperCaseChicagoIsApa(md: CitationMetadata)
    ensures GenerateCitation(md, "CHICAGO") == FormatApa(md)
  {
  }

  // ------------------------------------------------------------------ year

  /** `\w` */
  predicate IsWordChar(c: char) {
    'a' <= c <= 'z' || 'A' <= c <= 'Z' || '0' <= c <= '9' || c == '_'
  }

  predicate IsDigit(c: char) {
    '0' <= c <= '9'
  }

  function DigitValue(c: char): (d: nat)
    requires IsDigit(c)
    ensures d < 10
  {
    c as int - '0' as int
  }

  /** The value of `/\b(19|20)\d{2}\b/` matched at `i`. The pattern starts
      and ends with a digit, so each `\b` is a test that the neighbouring
      character is absent or not a word character. */
  function YearAt(s: string, i: nat): (r: Option<int>)
    ensures r.Some? ==> 1900 <= r.value <= 2099
    ensures r.Some? ==> i + 4 <= |s| && (i == 0 || !IsWordChar(s[i - 1])) && (i + 4 == |s| || !IsWordChar(s[i + 4]))
  {
    if && i + 4 <= |s|
       && (i == 0 || !IsWordChar(s[i - 1]))
       && ((s[i] == '1' && s[i + 1] == '9') || (s[i] == '2' && s[i + 1] == '0'))
       && IsDigit(s[i + 2]) && IsDigit(s[i + 3])
       && (i + 4 == |s| || !IsWordChar(s[i + 4]))
    then
      var century := if s[i] == '1' then 1900 else 2000;
      Some(century + 10 * DigitValue(s[i + 2]) + DigitValue(s[i + 3]))
    else None
  }

  predicate NoYearBetween(s: string, lo: nat, hi: nat) {
    forall k :: lo <= k < hi ==> YearAt(s, k).None?
  }

  function FirstYearIndex(s: string, i: nat): (j: nat)
    requires i <= |s|
    ensures i <= j <= |s|
    ensures NoYearBetween(s, i, j)
    ensures j < |s| ==> YearAt(s, j).Some?
    ensures j == |s| ==> NoYearBetween(s, i, |s| + 1)
    decreases |s| - i
  {
    if i == |s| then i
    else if YearAt(s, i).Some? then i
    else FirstYearIndex(s, i + 1)
  }

  /** `extractYear`: the year of the leftmost match, if any. */
  function ExtractYear(text: string): (r: Option<int>)
    ensures r.Some? ==> 1900 <= r.value <= 2099
    ensures r.Some? ==> exists i :: 0 <= i < |text| && YearAt(text, i) == r && NoYearBetween(text, 0, i)
    ensures r.None? ==> NoYearBetween(text, 0, |text| + 1)
  {
    var j := FirstYearIndex(text, 0);
    if j < |text| then YearAt(text, j) else None
  }

  /** The decimal form of a four-digit number. */
  lemma FourDigits(n: nat)
    requires 1000 <= n <= 9999
    ensures NatToString(n) == [DigitChar(n / 1000), DigitChar(n / 100 % 10), DigitChar(n / 10 % 10), DigitChar(n % 10)]
  {
    assert NatToString(n / 1000) == [DigitChar(n / 1000)];
    assert NatToString(n / 100) == [DigitChar(n / 1000)] + [DigitChar(n / 100 % 10)] by {
      assert n / 100 / 10 == n / 1000;
    }
    assert NatToString(n / 10) == NatToString(n / 100) + [DigitChar(n / 10 % 10)] by {
      assert n / 10 / 10 == n / 100;
    }
  }

  /** Round trip: a year in the recognised range, written out alone, is
      extracted back. */
  lemma YearRoundTrip(y: int)
    requires 1900 <= y <= 2099
    ensures ExtractYear(IntToString(y)) == Some(y)
  {
    var s := IntToString(y);
    YearDigits(y);
    assert YearAt(s, 0) == Some(y);
  }

  /** The four characters of a year in the recognised range. */
  lemma YearDigits(y: int)
    requires 1900 <= y <= 2099
    ensures var s := IntToString(y);
      && |s| == 4 && IsDigit(s[2]) && IsDigit(s[3])
      && ((s[0] == '1' && s[1] == '9' && y == 1900 + 10 * DigitValue(s[2]) + DigitValue(s[3]))
       || (s[0] == '2' && s[1] == '0' && y == 2000 + 10 * DigitValue(s[2]) + DigitValue(s[3])))
  {
    FourDigits(y);
    var t := y / 10 % 10;
    var u := y % 10;
    assert y == 100 * (y / 100) + 10 * t + u;
    if y < 2000 {
      assert y / 1000 == 1 && y / 100 % 10 == 9;
    } else {
      assert y / 1000 == 2 && y / 100 % 10 == 0;
    }
  }

  // --------------------------------------------------------------- authors

  /** Length of the separator `/,|\sand\s|\s&\s|\set\sal\./` matched at `q`;
      the alternatives are told apart by their first two characters. */
  function SeparatorAt(s: string, q: nat): (n: nat)
    ensures n > 0 ==> q + n <= |s|
    ensures q < |s| && s[q] == ',' ==> n == 1
  {
    if q >= |s| then 0
    else if s[q] == ',' then 1
    else if !IsSpace(s[q]) then 0
    else if q + 5 <= |s| && s[q + 1] == 'a' && s[q + 2] == 'n' && s[q + 3] == 'd' && IsSpace(s[q + 4]) then 5
    else if q + 3 <= |s| && s[q + 1] == '&' && IsSpace(s[q + 2]) then 3
    else if q + 7 <= |s| && s[q + 1] == 'e' && s[q + 2] == 't' && IsSpace(s[q + 3])
                         && s[q + 4] == 'a' && s[q + 5] == 'l' && s[q + 6] == '.' then 7
    else 0
  }

  /** `s.split(separator)` continued from piece start `p`, scanning at `q`. */
  function SplitPieces(s: string, p: nat, q: nat): (pieces: seq<string>)
    requires p <= q <= |s|
    requires forall k :: p <= k < q ==> SeparatorAt(s, k) == 0
    ensures |pieces| >= 1
    ensures forall k :: 0 <= k < |pieces| ==> ',' !in pieces[k]
    ensures forall k :: 0 <= k < |pieces| ==> Contains(s, pieces[k])
    decreases |s| - q, |s| - p
  {
    if q == |s| then
      NoCommaBeforeSeparator(s, p, q);
      SliceContained(s, p, |s|);
      assert s[p..] == s[p..|s|];
      [s[p..]]
    else if SeparatorAt(s, q) > 0 then
      NoCommaBeforeSeparator(s, p, q);
      SliceContained(s, p, q);
      [s[p..q]] + SplitPieces(s, q + SeparatorAt(s, q), q + SeparatorAt(s, q))
    else
      SplitPieces(s, p, q + 1)
  }

  /** A stretch with no separator holds no comma. */
  lemma NoCommaBeforeSeparator(s: string, p: nat, q: nat)
    requires p <= q <= |s|
    requires forall k :: p <= k < q ==> SeparatorAt(s, k) == 0
    ensures ',' !in s[p..q]
  {
    forall k | p <= k < q
      ensures s[k] != ','
    {
      assert SeparatorAt(s, k) == 0;
    }
  }

  /** `sep` is one whole match of the author separator: a comma, or
      "and", "&" or "et al." with whitespace before and after the word. */
  predicate IsAuthorSeparator(sep: string) {
    || (|sep| == 1 && sep[0] == ',')
    || (|sep| == 5 && IsSpace(sep[0]) && sep[1] == 'a' && sep[2] == 'n' && sep[3] == 'd' && IsSpace(sep[4]))
    || (|sep| == 3 && IsSpace(sep[0]) && sep[1] == '&' && IsSpace(sep[2]))
    || (|sep| == 7 && IsSpace(sep[0]) && sep[1] == 'e' && sep[2] == 't' && IsSpace(sep[3])
                   && sep[4] == 'a' && sep[5] == 'l' && sep[6] == '.')
  }

  /** What `SeparatorAt` finds at `q` is a whole separator. */
  lemma SeparatorAtMatches(s: string, q: nat)
    requires SeparatorAt(s, q) > 0
    ensures IsAuthorSeparator(s[q..q + SeparatorAt(s, q)])
  {
    var t := s[q..q + SeparatorAt(s, q)];
    assert forall k :: 0 <= k < |t| ==> t[k] == s[q + k];
  }

  /** The separators `SplitPieces` cuts out, in order. */
  function SeparatorsFrom(s: string, p: nat, q: nat): (seps: seq<string>)
    requires p <= q <= |s|
    requires forall k :: p <= k < q ==> SeparatorAt(s, k) == 0
    decreases |s| - q, |s| - p
  {
    if q == |s| then []
    else if SeparatorAt(s, q) > 0 then [s[q..q + SeparatorAt(s, q)]] + SeparatorsFrom(s, q + SeparatorAt(s, q), q + SeparatorAt(s, q))
    else SeparatorsFrom(s, p, q + 1)
  }

  /** There is one separator fewer than pieces. */
  lemma {:induction false} SeparatorsCount(s: string, p: nat, q: nat)
    requires p <= q <= |s|
    requires forall k :: p <= k < q ==> SeparatorAt(s, k) == 0
    ensures |SeparatorsFrom(s, p, q)| + 1 == |SplitPieces(s, p, q)|
    decreases |s| - q, |s| - p
  {
    if q == |s| {
    } else if SeparatorAt(s, q) > 0 {
      var e := q + SeparatorAt(s, q);
      SeparatorsCount(s, e, e);
      SplitPiecesCut(s, p, q, e);
      SeparatorsCut(s, p, q, e);
    } else {
      SeparatorsCount(s, p, q + 1);
    }
  }

  /** Every separator cut out is a whole separator. */
  lemma {:induction false} SeparatorsWhole(s: string, p: nat, q: nat)
    requires p <= q <= |s|
    requires forall k :: p <= k < q ==> SeparatorAt(s, k) == 0
    ensures forall k :: 0 <= k < |SeparatorsFrom(s, p, q)| ==> IsAuthorSeparator(SeparatorsFrom(s, p, q)[k])
    decreases |s| - q, |s| - p
  {
    if q == |s| {
    } else if SeparatorAt(s, q) > 0 {
      var e := q + SeparatorAt(s, q);
      var rest := SeparatorsFrom(s, e, e);
      SeparatorsWhole(s, e, e);
      SeparatorsCut(s, p, q, e);
      SeparatorAtMatches(s, q);
      forall k | 0 <= k < |SeparatorsFrom(s, p, q)|
        ensures IsAuthorSeparator(SeparatorsFrom(s, p, q)[k])
      {
        if k > 0 {
          assert SeparatorsFrom(s, p, q)[k] == rest[k - 1];
        }
      }
    } else {
      SeparatorsWhole(s, p, q + 1);
    }
  }

  /** Putting the separators back between the pieces gives the block back. */
  lemma {:induction false} SplitPiecesRebuilds(s: string, p: nat, q: nat)
    requires p <= q <= |s|
    requires forall k :: p <= k < q ==> SeparatorAt(s, k) == 0
    ensures |SeparatorsFrom(s, p, q)| + 1 == |SplitPieces(s, p, q)|
    ensures Interleave(SplitPieces(s, p, q), SeparatorsFrom(s, p, q)) == s[p..]
    decreases |s| - q, |s| - p, 1
  {
    SeparatorsCount(s, p, q);
    if q == |s| {
      assert SplitPieces(s, p, q) == [s[p..]] && SeparatorsFrom(s, p, q) == [];
    } else if SeparatorAt(s, q) > 0 {
      RebuildAtSeparator(s, p, q);
    } else {
      assert SplitPieces(s, p, q) == SplitPieces(s, p, q + 1) && SeparatorsFrom(s, p, q) == SeparatorsFrom(s, p, q + 1);
      SplitPiecesRebuilds(s, p, q + 1);
    }
  }

  /** The step of `SplitPiecesRebuilds` at a separator. */
  lemma {:induction false} RebuildAtSeparator(s: string, p: nat, q: nat)
    requires p <= q < |s| && SeparatorAt(s, q) > 0
    requires forall k :: p <= k < q ==> SeparatorAt(s, k) == 0
    ensures |SeparatorsFrom(s, p, q)| + 1 == |SplitPieces(s, p, q)|
    ensures Interleave(SplitPieces(s, p, q), SeparatorsFrom(s, p, q)) == s[p..]
    decreases |s| - q, |s| - p, 0
  {
    var e := q + SeparatorAt(s, q);
    SplitPiecesRebuilds(s, e, e);
    SplitPiecesCut(s, p, q, e);
    SeparatorsCut(s, p, q, e);
    InterleaveFront(s, p, q, e, SplitPieces(s, p, q), SeparatorsFrom(s, p, q), SplitPieces(s, e, e), SeparatorsFrom(s, e, e));
  }

  /** A separator at `q` ends the current piece. */
  lemma SplitPiecesCut(s: string, p: nat, q: nat, e: nat)
    requires p <= q < |s| && SeparatorAt(s, q) > 0 && e == q + SeparatorAt(s, q)
    requires forall k :: p <= k < q ==> SeparatorAt(s, k) == 0
    ensures SplitPieces(s, p, q) == [s[p..q]] + SplitPieces(s, e, e)
  {
  }

  /** A separator at `q` is cut out whole. */
  lemma SeparatorsCut(s: string, p: nat, q: nat, e: nat)
    requires p <= q < |s| && SeparatorAt(s, q) > 0 && e == q + SeparatorAt(s, q)
    requires forall k :: p <= k < q ==> SeparatorAt(s, k) == 0
    ensures SeparatorsFrom(s, p, q) == [s[q..e]] + SeparatorsFrom(s, e, e)
  {
  }

  /** With no separator ahead, the rest of the block is one piece. */
  lemma {:induction false} SplitPiecesNoSeparator(s: string, p: nat, q: nat)
    requires p <= q <= |s|
    requires forall k :: p <= k < |s| ==> SeparatorAt(s, k) == 0
    ensures SplitPieces(s, p, q) == [s[p..]]
    decreases |s| - q
  {
    if q < |s| {
      SplitPiecesNoSeparator(s, p, q + 1);
    }
  }

  /** The pieces of an author block, before trimming. */
  function AuthorPieces(block: string): (pieces: seq<string>)
    ensures |pieces| >= 1
  {
    SplitPieces(block, 0, 0)
  }

  /** The separators between the pieces of an author block, in order. */
  function AuthorSeparators(block: string): (seps: seq<string>)
    ensures |seps| + 1 == |AuthorPieces(block)|
    ensures forall k :: 0 <= k < |seps| ==> IsAuthorSeparator(seps[k])
  {
    SeparatorsCount(block, 0, 0);
    SeparatorsWhole(block, 0, 0);
    SeparatorsFrom(block, 0, 0)
  }

  /** Nothing is lost in the split: the pieces with their separators put
      back are the block. */
  lemma AuthorPiecesRebuild(block: string)
    ensures Interleave(AuthorPieces(block), AuthorSeparators(block)) == block
  {
    SplitPiecesRebuilds(block, 0, 0);
  }

  /** A block with no separator in it is one author, or none when blank. */
  lemma OneAuthorBlock(block: string)
    requires forall k :: 0 <= k < |block| ==> SeparatorAt(block, k) == 0
    ensures SplitAuthors(block) == if Trim(block) == "" then [] else [Trim(block)]
  {
    SplitPiecesNoSeparator(block, 0, 0);
    assert block[0..] == block;
  }

  /** The split-and-clean step of `extractAuthors`, applied to the matched
      author block: every author is non-empty, trimmed, free of commas, and
      a piece of the block. */
  function SplitAuthors(block: string): (authors: seq<string>)
    ensures forall k :: 0 <= k < |authors| ==> authors[k] != "" && IsTrimmed(authors[k]) && ',' !in authors[k]
    ensures forall k :: 0 <= k < |authors| ==> Contains(block, authors[k])
    ensures forall x :: x in authors <==>
              x != "" && exists k :: 0 <= k < |AuthorPieces(block)| && Trim(AuthorPieces(block)[k]) == x
  {
    var pieces := AuthorPieces(block);
    NonBlankTrimmedLacks(pieces, ',');
    NonBlankTrimmedContained(pieces, block);
    NonBlankTrimmedMembers(pieces);
    NonBlankTrimmed(pieces)
  }

  /** `extractMetadata`. The title, journal and DOI patterns and the
      author-block pattern are not modelled: what they matched is passed in
      (`authorBlock` is `None` when the author pattern finds nothing). The
      year and the author split are computed. */
  function ExtractMetadata(text: string, authorBlock: Option<string>, title: string,
                           journal: Option<string>, doi: Option<string>): (md: CitationMetadata)
    ensures authorBlock.None? ==> md.authors == []
    ensures authorBlock.Some? ==>
              forall k :: 0 <= k < |md.authors| ==>
                && md.authors[k] != "" && IsTrimmed(md.authors[k]) && ',' !in md.authors[k]
                && Contains(authorBlock.value, md.authors[k])
    ensures authorBlock.Some? ==>
              forall x :: x in md.authors <==>
                x != "" && exists k :: 0 <= k < |AuthorPieces(authorBlock.value)| && Trim(AuthorPieces(authorBlock.value)[k]) == x
    ensures md.year.Some? ==> 1900 <= md.year.value <= 2099
    ensures md.year.Some? ==> exists i :: 0 <= i < |text| && YearAt(text, i) == md.year && NoYearBetween(text, 0, i)
    ensures md.year.None? <==> NoYearBetween(text, 0, |text| + 1)
    ensures md.title == title && md.journal == journal && md.doi == doi
  {
    var authors := if authorBlock.Some? then SplitAuthors(authorBlock.value) else [];
    CitationMetadata(authors, title, ExtractYear(text), journal, doi)
  }
}
