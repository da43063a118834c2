/** The arXiv service: turning user input into an arXiv identifier,
    validating it, and shaping the entry the arXiv API returns into paper
    metadata.  The HTTP request and the XML parsing are not modelled: the API
    is a function from the identifier sent to the parsed response. */
module Arxiv {
  import opened Strings

  // ---------------------------------------------------------------------------
  // Identifier extraction: /arxiv\.org\/(?:abs|pdf)\/([\d.]+(?:v\d+)?)/
  // ---------------------------------------------------------------------------

  predicate IsDigitOrDot(c: char) { IsDigit(c) || c == '.' }

  /** The length of the leading run of digits and dots (`[\d.]*`, greedy). */
  function DigitDotRun(s: string): (n: nat)
    ensures n <= |s|
    ensures n == |s| || !IsDigitOrDot(s[n])
  {
    if s != [] && IsDigitOrDot(s[0]) then 1 + DigitDotRun(s[1..]) else 0
  }

  /** The length of the leading run of digits (`\d*`, greedy). */
  function DigitRun(s: string): (n: nat)
    ensures n <= |s|
    ensures n == |s| || !IsDigit(s[n])
    ensures AllDigits(s[..n])
  {
    if s != [] && IsDigit(s[0]) then
      var n := DigitRun(s[1..]);
      assert s[..n + 1] == [s[0]] + s[1..][..n];
      n + 1
    else 0
  }

  /** The length of the optional `(?:v\d+)?` at the start of `s`. */
  function VersionLen(s: string): (n: nat)
    ensures n <= |s|
    ensures n > 0 ==> n >= 2 && s[0] == 'v'
  {
    if |s| >= 2 && s[0] == 'v' && IsDigit(s[1]) then 1 + DigitRun(s[1..]) else 0
  }

  /** The length of the trailing run of dots. */
  function TrailingDots(s: string): (n: nat)
    ensures n <= |s|
    ensures n == |s| || s[|s| - n - 1] != '.'
  {
    if s != [] && s[|s| - 1] == '.' then 1 + TrailingDots(s[..|s| - 1]) else 0
  }

  const AbsPath := "arxiv.org/abs/"
  const PdfPath := "arxiv.org/pdf/"

  /** `arxiv\.org\/(?:abs|pdf)\/` at the start of `s`. */
  predicate PathAt(s: string) {
    StartsWith(s, AbsPath) || StartsWith(s, PdfPath)
  }

  /** The captured group, given the text that follows the path.  As written
      (`corrected` unset) it is the greedy digit-and-dot run and the version
      right after it.  The corrected capture leaves out the trailing dots of
      the run, and then takes a version only when no dot was left out. */
  function CaptureBody(rest: string, corrected: bool): (c: string)
    ensures |c| <= |rest| && rest[..|c|] == c
  {
    var n := DigitDotRun(rest);
    var m := if corrected then n - TrailingDots(rest[..n]) else n;
    if m == n then rest[..n + VersionLen(rest[n..])] else rest[..m]
  }

  /** The captured group of a match starting exactly at the start of `s`. */
  function CaptureAt(s: string, corrected: bool): (r: Option<string>)
    ensures r.Some? ==> PathAt(s) && r.value != []
  {
    if PathAt(s) && DigitDotRun(s[14..]) > 0 && CaptureBody(s[14..], corrected) != [] then
      Some(CaptureBody(s[14..], corrected))
    else None
  }

  /** The captured group of the leftmost match in `s`. */
  function FirstCapture(s: string, corrected: bool): Option<string>
    decreases |s|
  {
    if CaptureAt(s, corrected).Some? then CaptureAt(s, corrected)
    else if s == [] then None
    else FirstCapture(s[1..], corrected)
  }

  /** The identifier `fetchArxivPaper` works with before the version is
      removed: the captured group of a URL, or the trimmed input. */
  function ExtractId(input: string, corrected: bool): string {
    var t := Trim(input);
    if FirstCapture(t, corrected).Some? then FirstCapture(t, corrected).value else t
  }

  /** The length of the trailing run of digits. */
  function TrailingDigits(s: string): (n: nat)
    ensures n <= |s|
    ensures AllDigits(s[|s| - n..])
    ensures n == |s| || !IsDigit(s[|s| - n - 1])
  {
    if s != [] && IsDigit(s[|s| - 1]) then
      var n := TrailingDigits(s[..|s| - 1]);
      assert s[|s| - (n + 1)..] == s[..|s| - 1][|s| - 1 - n..] + [s[|s| - 1]];
      n + 1
    else 0
  }

  /** `id.replace(/v\d+$/, '')`: a final `v` followed by digits is removed,
      and nothing else is. */
  function StripVersion(id: string): (r: string)
    ensures |r| <= |id| && id[..|r|] == r
    ensures r != id ==> |r| + 2 <= |id| && id[|r|] == 'v' && AllDigits(id[|r| + 1..])
    ensures forall j :: 0 <= j < |id| - 1 && id[j] == 'v' && AllDigits(id[j + 1..]) ==> r == id[..j]
  {
    var k := TrailingDigits(id);
    forall j | 0 <= j < |id| - 1 && id[j] == 'v' && AllDigits(id[j + 1..]) {
      VersionStart(id, j);
    }
    if 0 < k < |id| && id[|id| - k - 1] == 'v' then id[..|id| - k - 1] else id
  }

  /** A `v` followed only by digits stands just before the trailing digits. */
  lemma VersionStart(id: string, j: nat)
    requires j < |id| - 1 && id[j] == 'v' && AllDigits(id[j + 1..])
    ensures j == |id| - TrailingDigits(id) - 1
  {
    TrailingDigitsOver(id[..j + 1], id[j + 1..]);
    assert id[..j + 1] + id[j + 1..] == id;
  }

  // ---------------------------------------------------------------------------
  // Identifier validation
  // ---------------------------------------------------------------------------

  /** `/^\d{4}\.\d{4,5}$/` */
  predicate IsNewStyleId(s: string) {
    (|s| == 9 || |s| == 10) && AllDigits(s[..4]) && s[4] == '.' && AllDigits(s[5..])
  }

  predicate IsArchiveChar(c: char) { IsAsciiLower(c) || c == '-' }

  /** `/^[a-z-]+\/\d{7}$/` */
  predicate IsOldStyleId(s: string) {
    |s| >= 9 && s[|s| - 8] == '/' && AllDigits(s[|s| - 7..])
    && forall i :: 0 <= i < |s| - 8 ==> IsArchiveChar(s[i])
  }

  predicate IsValidId(s: string) { IsNewStyleId(s) || IsOldStyleId(s) }

  function InvalidIdMessage(id: string): string {
    "Invalid" + " arXiv ID format: " + "\"" + id + "\". Expected " + "format like " + "2301.13848"
  }

  /** The cleaned identifier, or the format error. */
  function Resolve(input: string, corrected: bool): (r: Result<string>)
    ensures r.Ok? <==> IsValidId(StripVersion(ExtractId(input, corrected)))
    ensures r.Ok? ==> r.value == StripVersion(ExtractId(input, corrected))
    ensures r.Err? ==> r.message == InvalidIdMessage(StripVersion(ExtractId(input, corrected)))
  {
    var cleanId := StripVersion(ExtractId(input, corrected));
    if IsValidId(cleanId) then Ok(cleanId) else Err(InvalidIdMessage(cleanId))
  }

  /** Lines 10-22 of `fetchArxivPaper`, as written. */
  function ResolveId(input: string): (r: Result<string>)
    ensures r.Ok? <==> IsValidId(StripVersion(ExtractId(input, false)))
    ensures r.Ok? ==> r.value == StripVersion(ExtractId(input, false))
  {
    Resolve(input, false)
  }

  /** Lines 10-22 of `fetchArxivPaper` with the corrected capture. */
  function ResolveIdCorrected(input: string): (r: Result<string>)
    ensures r.Ok? <==> IsValidId(StripVersion(ExtractId(input, true)))
    ensures r.Ok? ==> r.value == StripVersion(ExtractId(input, true))
  {
    Resolve(input, true)
  }

  // ---------------------------------------------------------------------------
  // Properties of identifier resolution
  // ---------------------------------------------------------------------------

  lemma {:induction false} DigitDotRunOver(a: string, b: string)
    requires forall i :: 0 <= i < |a| ==> IsDigitOrDot(a[i])
    ensures DigitDotRun(a + b) == |a| + DigitDotRun(b)
  {
    if a == [] {
      assert a + b == b;
    } else {
      assert (a + b)[1..] == a[1..] + b;
      DigitDotRunOver(a[1..], b);
    }
  }

  lemma {:induction false} DigitRunAll(d: string)
    requires AllDigits(d)
    ensures DigitRun(d) == |d|
  {
    if d != [] {
      DigitRunAll(d[1..]);
    }
  }

  lemma {:induction false} TrailingDigitsOver(a: string, d: string)
    requires AllDigits(d)
    requires a == [] || !IsDigit(a[|a| - 1])
    ensures TrailingDigits(a + d) == |d|
  {
    if d == [] {
      assert a + d == a;
    } else {
      assert (a + d)[..|a + d| - 1] == a + d[..|d| - 1];
      TrailingDigitsOver(a, d[..|d| - 1]);
    }
  }

  /** No match can start at a character other than `a`. */
  lemma NoCaptureAt(s: string, corrected: bool)
    requires s == [] || s[0] != 'a'
    ensures CaptureAt(s, corrected) == None
  {
  }

  /** A stretch without the letter `a` holds no match. */
  lemma {:induction false} FirstCaptureSkips(p: string, rest: string, corrected: bool)
    requires 'a' !in p
    ensures FirstCapture(p + rest, corrected) == FirstCapture(rest, corrected)
  {
    if p == [] {
      assert p + rest == rest;
    } else {
      NoCaptureAt(p + rest, corrected);
      assert (p + rest)[1..] == p[1..] + rest;
      FirstCaptureSkips(p[1..], rest, corrected);
    }
  }

  /** The characters of a new-style identifier are digits and dots. */
  lemma NewStyleChars(id: string)
    requires IsNewStyleId(id)
    ensures forall i :: 0 <= i < |id| ==> IsDigitOrDot(id[i])
  {
    forall i | 0 <= i < |id| ensures IsDigitOrDot(id[i]) {
      if i < 4 { assert id[i] == id[..4][i]; }
      else if i > 4 { assert id[i] == id[5..][i - 5]; }
    }
  }

  /** A run of digits and dots holds no letter and no space. */
  lemma DigitsAndDotsOnly(s: string)
    requires forall i :: 0 <= i < |s| ==> IsDigitOrDot(s[i])
    ensures 'a' !in s && 'v' !in s
    ensures s != [] ==> !IsSpace(s[0]) && !IsSpace(s[|s| - 1])
  {
  }

  /** A version suffix, `v` and digits, if any. */
  predicate IsVersion(version: string) {
    version == [] || (|version| >= 2 && version[0] == 'v' && AllDigits(version[1..]))
  }

  /** Removing the version of a new-style identifier gives the identifier. */
  lemma StripVersionOf(id: string, version: string)
    requires IsNewStyleId(id) && IsVersion(version)
    ensures StripVersion(id + version) == id
  {
    if version == [] {
      assert id + version == id;
      TrailingDigitsOver(id[..5], id[5..]);
      assert id[..5] + id[5..] == id;
    } else {
      TrailingDigitsOver(id + "v", version[1..]);
      assert id + "v" + version[1..] == id + version;
    }
  }

  lemma VersionChars(version: string)
    requires IsVersion(version)
    ensures 'a' !in version
    ensures version != [] ==> !IsSpace(version[|version| - 1])
  {
    if version != [] {
      assert forall i :: 1 <= i < |version| ==> version[i] == version[1..][i - 1];
    }
  }

  /** A bare new-style identifier resolves to itself, with any version
      suffix removed. */
  lemma BareIdResolves(id: string, version: string, corrected: bool)
    requires IsNewStyleId(id) && IsVersion(version)
    ensures Resolve(id + version, corrected) == Ok(id)
  {
    NewStyleChars(id);
    DigitsAndDotsOnly(id);
    VersionChars(version);
    var s := id + version;
    assert s[0] == id[0];
    assert s[|s| - 1] == if version == [] then id[|id| - 1] else version[|version| - 1];
    TrimNoEdges(s);
    FirstCaptureSkips(s, [], corrected);
    assert s + [] == s;
    assert FirstCapture([], corrected) == None;
    assert ExtractId(s, corrected) == s;
    StripVersionOf(id, version);
  }

  /** The capture of a new-style identifier and its version. */
  lemma CaptureBodyOfId(id: string, version: string, corrected: bool)
    requires IsNewStyleId(id) && IsVersion(version)
    ensures CaptureBody(id + version, corrected) == id + version
  {
    NewStyleChars(id);
    DigitDotRunOver(id, version);
    assert DigitDotRun(version) == 0;
    assert (id + version)[..|id|] == id;
    assert TrailingDots(id) == 0;
    assert (id + version)[|id|..] == version;
    if version != [] {
      DigitRunAll(version[1..]);
      assert version[1..][0] == version[1];
    }
  }

  /** Both paths are 14 characters long and are matched where they occur. */
  lemma PathAtPath(path: string, body: string)
    requires path == AbsPath || path == PdfPath
    ensures |path| == 14 && PathAt(path + body)
  {
    assert (path + body)[..14] == path;
  }

  /** A match right at a path followed by a digit or dot captures from the
      text after the path. */
  lemma CaptureAfterPath(path: string, body: string, corrected: bool)
    requires |path| == 14 && PathAt(path + body)
    requires DigitDotRun(body) > 0 && CaptureBody(body, corrected) != []
    ensures CaptureAt(path + body, corrected) == Some(CaptureBody(body, corrected))
  {
    assert (path + body)[14..] == body;
  }

  /** A scheme with no blank at its start and a non-blank ending leave
      nothing to trim. */
  lemma TrimUrl(scheme: string, url: string)
    requires scheme != [] && !IsSpace(scheme[0])
    requires url != [] && !IsSpace(url[|url| - 1])
    ensures Trim(scheme + url) == scheme + url
  {
    var s := scheme + url;
    assert s[0] == scheme[0] && s[|s| - 1] == url[|url| - 1];
    TrimNoEdges(s);
  }

  /** A URL: a scheme without the letter `a`, a path, and what follows it. */
  lemma ExtractFromUrl(scheme: string, path: string, body: string, corrected: bool)
    requires scheme != [] && !IsSpace(scheme[0]) && 'a' !in scheme
    requires |path| == 14 && PathAt(path + body)
    requires body != [] && !IsSpace(body[|body| - 1])
    requires DigitDotRun(body) > 0 && CaptureBody(body, corrected) != []
    ensures ExtractId(scheme + (path + body), corrected) == CaptureBody(body, corrected)
  {
    var url := path + body;
    var s := scheme + url;
    assert url[|url| - 1] == body[|body| - 1];
    TrimUrl(scheme, url);
    FirstCaptureSkips(scheme, url, corrected);
    CaptureAfterPath(path, body, corrected);
    assert FirstCapture(Trim(s), corrected) == Some(CaptureBody(body, corrected));
  }

  /** `https://` is free of the letter `a` and does not start blank. */
  lemma Scheme()
    ensures "https://" != [] && !IsSpace("https://"[0]) && 'a' !in "https://"
  {
    var h := "https://";
    assert h == ['h', 't', 't', 'p', 's', ':', '/', '/'];
  }

  lemma Regroup(a: string, b: string, c: string, d: string)
    ensures a + b + c + d == a + (b + (c + d))
  {
  }

  /** `https://arxiv.org/abs/<id>` resolves to the identifier, with any
      version suffix removed. */
  lemma AbsUrlResolves(id: string, version: string, corrected: bool)
    requires IsNewStyleId(id) && IsVersion(version)
    ensures Resolve("https://" + AbsPath + id + version, corrected) == Ok(id)
  {
    NewStyleChars(id);
    DigitsAndDotsOnly(id);
    VersionChars(version);
    var body := id + version;
    assert body[|body| - 1] == if version == [] then id[|id| - 1] else version[|version| - 1];
    assert body[..|id|] == id;
    DigitDotRunOver(id, version);
    CaptureBodyOfId(id, version, corrected);
    PathAtPath(AbsPath, body);
    Scheme();
    ExtractFromUrl("https://", AbsPath, body, corrected);
    var url := "https://" + (AbsPath + body);
    Regroup("https://", AbsPath, id, version);
    StripVersionOf(id, version);
    assert StripVersion(ExtractId(url, corrected)) == id;
  }

  /** The capture of a new-style identifier followed by `.pdf`. */
  lemma CaptureBodyOfPdf(id: string, corrected: bool)
    requires IsNewStyleId(id)
    ensures DigitDotRun(id + ".pdf") == |id| + 1
    ensures CaptureBody(id + ".pdf", corrected) == if corrected then id else id + "."
  {
    NewStyleChars(id);
    var body := id + ".pdf";
    assert body == (id + ".") + "pdf";
    assert forall i :: 0 <= i < |id + "."| ==> IsDigitOrDot((id + ".")[i]);
    DigitDotRunOver(id + ".", "pdf");
    assert DigitDotRun("pdf") == 0;
    var n := |id| + 1;
    assert body[..n] == id + ".";
    assert (id + ".")[..|id|] == id;
    assert TrailingDots(id) == 0;
    assert body[n..] == "pdf";
  }

  /** The digit-and-dot capture swallows the dot of a `.pdf` ending, so a PDF
      link ending in `.pdf` is rejected as an invalid identifier. */
  lemma PdfSuffixRejected(id: string)
    requires IsNewStyleId(id)
    ensures ResolveId("https://" + PdfPath + id + ".pdf") == Err(InvalidIdMessage(id + "."))
  {
    var body := id + ".pdf";
    CaptureBodyOfPdf(id, false);
    assert body[|body| - 1] == 'f';
    PathAtPath(PdfPath, body);
    Scheme();
    ExtractFromUrl("https://", PdfPath, body, false);
    var url := "https://" + (PdfPath + body);
    Regroup("https://", PdfPath, id, ".pdf");
    assert TrailingDigits(id + ".") == 0;
    assert StripVersion(ExtractId(url, false)) == id + ".";
  }

  /** With the corrected capture, a PDF link ending in `.pdf` resolves to
      its identifier. */
  lemma PdfSuffixResolvesCorrected(id: string)
    requires IsNewStyleId(id)
    ensures ResolveIdCorrected("https://" + PdfPath + id + ".pdf") == Ok(id)
  {
    var body := id + ".pdf";
    CaptureBodyOfPdf(id, true);
    assert body[|body| - 1] == 'f';
    PathAtPath(PdfPath, body);
    Scheme();
    ExtractFromUrl("https://", PdfPath, body, true);
    var url := "https://" + (PdfPath + body);
    Regroup("https://", PdfPath, id, ".pdf");
    StripVersionOf(id, []);
    assert id + [] == id;
    assert StripVersion(ExtractId(url, true)) == id;
  }

  // ---------------------------------------------------------------------------
  // Entry post-processing
  // ---------------------------------------------------------------------------

  /** A parsed XML field that may be missing, hold one element, or several
      (`explicitArray: false`). */
  datatype Field<T> = Absent | One(item: T) | Many(items: seq<T>)

  /** `Array.isArray(x) ? x : [x]` for a present field. */
  function Items<T>(f: Field<T>): (r: seq<T>)
    ensures f.Absent? ==> r == []
    ensures f.One? ==> r == [f.item]
    ensures f.Many? ==> r == f.items
  {
    match f
    case Absent => []
    case One(x) => [x]
    case Many(xs) => xs
  }

  /** An `<author>` element: one with a (possibly empty) `<name>`, or bare
      text.  An empty `<author/>` is parsed to the empty string, which is
      `Bare("")`. */
  datatype Author = Person(name: string) | Bare(text: string)

  /** `a.name || a`: the name, or the element itself when it has none. */
  datatype AuthorValue = Name(name: string) | Element(author: Author)

  function AuthorValueOf(a: Author): (r: AuthorValue)
    ensures a.Person? && a.name != [] ==> r == Name(a.name)
    ensures a.Person? && a.name == [] ==> r == Element(a)
    ensures a.Bare? ==> r == Name(a.text)
  {
    match a
    case Person(n) => if n != [] then Name(n) else Element(a)
    case Bare(t) => Name(t)
  }

  /** `if (entry.author)`: the field is there and is not a lone empty
      element (the empty string is falsy; a list, even an empty one, is not). */
  predicate AuthorsPresent(f: Field<Author>) {
    !f.Absent? && f != One(Bare([]))
  }

  /** The authors as a list, one value per element, in order; none when the
      field is missing or a lone empty element. */
  function Authors(f: Field<Author>): (r: seq<AuthorValue>)
    ensures f.Absent? || f == One(Bare([])) ==> r == []
    ensures AuthorsPresent(f) ==> |r| == |Items(f)|
    ensures AuthorsPresent(f) ==> forall i :: 0 <= i < |r| ==> r[i] == AuthorValueOf(Items(f)[i])
  {
    if !AuthorsPresent(f) then []
    else seq(|Items(f)|, i requires 0 <= i < |Items(f)| => AuthorValueOf(Items(f)[i]))
  }

  datatype LinkAttrs = LinkAttrs(title: Option<string>, href: string)

  /** A `<link>` element: an object with its attributes (`$`), if it has
      any, or, for an element with neither attributes nor children, its text
      (`<link/>` is `LinkText("")`). */
  datatype Link = Link(attrs: Option<LinkAttrs>) | LinkText(text: string)

  /** `l.$ && l.$.title === 'pdf'`: a string has no `$`. */
  predicate IsPdfLink(l: Link) {
    l.Link? && l.attrs.Some? && l.attrs.value.title == Some("pdf")
  }

  /** `if (entry.link)`: the field is there and is not a lone empty element. */
  predicate LinksPresent(f: Field<Link>) {
    !f.Absent? && f != One(LinkText([]))
  }

  /** `links.find(l => l.$ && l.$.title === 'pdf')`, as a position. */
  function FindPdfLink(links: seq<Link>): (r: Option<nat>)
    ensures r.Some? ==> r.value < |links| && IsPdfLink(links[r.value])
                        && forall j :: 0 <= j < r.value ==> !IsPdfLink(links[j])
    ensures r.None? ==> forall j :: 0 <= j < |links| ==> !IsPdfLink(links[j])
  {
    if links == [] then None
    else if IsPdfLink(links[0]) then Some(0)
    else
      var r := FindPdfLink(links[1..]);
      assert forall j :: 1 <= j < |links| ==> links[j] == links[1..][j - 1];
      if r.Some? then Some(r.value + 1) else None
  }

  /** The PDF address built when no link is titled `pdf`. */
  function DefaultPdfUrl(cleanId: string): string {
    "https://" + PdfPath + cleanId + ".pdf"
  }

  /** `pdfUrl`: empty without links (or with a lone empty one), else the
      first PDF link's address, else the address built from the identifier. */
  function PdfUrl(links: Field<Link>, cleanId: string): string {
    if !LinksPresent(links) then []
    else
      var found := FindPdfLink(Items(links));
      if found.Some? then Items(links)[found.value].attrs.value.href else DefaultPdfUrl(cleanId)
  }

  /** The address is empty without a link field or with a lone empty link,
      the address of the first link titled `pdf` when there is one, and the
      built address otherwise. */
  lemma PdfUrlChoice(links: Field<Link>, cleanId: string, j: nat)
    ensures links.Absent? || links == One(LinkText([])) ==> PdfUrl(links, cleanId) == []
    ensures LinksPresent(links) && (forall k :: 0 <= k < |Items(links)| ==> !IsPdfLink(Items(links)[k])) ==>
              PdfUrl(links, cleanId) == DefaultPdfUrl(cleanId)
    ensures LinksPresent(links) && j < |Items(links)| && IsPdfLink(Items(links)[j])
            && (forall k :: 0 <= k < j ==> !IsPdfLink(Items(links)[k])) ==>
              PdfUrl(links, cleanId) == Items(links)[j].attrs.value.href
  {
  }

  /** The address the service builds itself for a new-style identifier is
      rejected by its own extraction, and accepted by the corrected one. */
  lemma DefaultPdfUrlRoundTrip(id: string)
    requires IsNewStyleId(id)
    ensures ResolveId(DefaultPdfUrl(id)).Err?
    ensures ResolveIdCorrected(DefaultPdfUrl(id)) == Ok(id)
  {
    PdfSuffixRejected(id);
    PdfSuffixResolvesCorrected(id);
  }

  /** A parsed `<entry>`; a missing text field is `None`. */
  datatype Entry = Entry(title: Option<string>, summary: Option<string>, comment: Option<string>,
                         author: Field<Author>, link: Field<Link>, published: Option<string>,
                         primaryCategory: Option<string>)

  /** `x || ''` */
  function OrEmpty(o: Option<string>): (r: string)
    ensures o.None? ==> r == []
    ensures o.Some? ==> r == o.value
  {
    if o.Some? then o.value else []
  }

  const InvalidIdentifierNote := "is not a valid arxiv identifier"

  /** The markers of an entry arXiv returns for an unknown identifier, given
      the trimmed title and summary. */
  predicate NotFoundEntry(title: string, summary: string, comment: Option<string>) {
    || Lower(title) == "error"
    || Contains(Lower(summary), InvalidIdentifierNote)
    || comment == Some("not found")
    || |title| < 3
  }

  function NotFoundMessage(cleanId: string): string {
    "Paper " + "not found" + " on arXiv for ID: " + cleanId
  }

  const ConnectionMessage := "Failed to connect " + "to arXiv. Please " + "check your " + "internet connection."

  /** The parsed response of the API call, or a failed connection. */
  datatype Response = Unreachable | Feed(entry: Option<Entry>)

  /** The object `fetchArxivPaper` resolves to. */
  datatype Metadata = Metadata(title: string, authors: seq<AuthorValue>, abstractText: string,
                               sourceId: string, source: string, pdfUrl: string,
                               published: string, categories: string)

  /** `fetchArxivPaper(input)`, with the arXiv API given as `query`, the
      parsed response for each identifier sent.  The identifier is taken
      with the corrected capture, which leaves the dot of a `.pdf` ending
      out (see `PdfSuffixRejected`). */
  function FetchArxivPaper(input: string, query: string -> Response): (r: Result<Metadata>)
    ensures var cleanId := StripVersion(ExtractId(input, true));
            && (!IsValidId(cleanId) ==> r == Err(InvalidIdMessage(cleanId)))
            && (IsValidId(cleanId) && query(cleanId).Unreachable? ==> r == Err(ConnectionMessage))
            && (IsValidId(cleanId) && query(cleanId).Feed? && query(cleanId).entry.None? ==>
                  r == Err(NotFoundMessage(cleanId)))
            && (r.Ok? <==> IsValidId(cleanId) && query(cleanId).Feed? && query(cleanId).entry.Some?
                           && !NotFoundEntry(Trim(OrEmpty(query(cleanId).entry.value.title)),
                                             Trim(OrEmpty(query(cleanId).entry.value.summary)),
                                             query(cleanId).entry.value.comment))
    ensures r.Ok? ==> r.value.sourceId == StripVersion(ExtractId(input, true)) && IsValidId(r.value.sourceId)
    ensures r.Err? ==> var cleanId := StripVersion(ExtractId(input, true));
                       r.message in {InvalidIdMessage(cleanId), ConnectionMessage, NotFoundMessage(cleanId)}
    ensures r.Ok? ==> r.value.source == "arxiv"
    ensures r.Ok? ==> forall i :: 0 <= i < |r.value.title| - 1 ==>
                        !(IsSpace(r.value.title[i]) && IsSpace(r.value.title[i + 1]))
    ensures r.Ok? ==> var e := query(r.value.sourceId).entry.value;
                      && r.value.title == CollapseSpaces(Trim(OrEmpty(e.title)))
                      && r.value.abstractText == CollapseSpaces(Trim(OrEmpty(e.summary)))
                      && r.value.authors == Authors(e.author)
                      && r.value.pdfUrl == PdfUrl(e.link, r.value.sourceId)
                      && r.value.published == OrEmpty(e.published)
                      && r.value.categories == OrEmpty(e.primaryCategory)
  {
    match ResolveIdCorrected(input)
    case Err(m) => Err(m)
    case Ok(cleanId) =>
      match query(cleanId)
      case Unreachable => Err(ConnectionMessage)
      case Feed(None) => Err(NotFoundMessage(cleanId))
      case Feed(Some(e)) =>
        var title := Trim(OrEmpty(e.title));
        var summary := Trim(OrEmpty(e.summary));
        if NotFoundEntry(title, summary, e.comment) then Err(NotFoundMessage(cleanId))
        else
          Ok(Metadata(CollapseSpaces(title), Authors(e.author), CollapseSpaces(summary), cleanId, "arxiv",
                      PdfUrl(e.link, cleanId), OrEmpty(e.published), OrEmpty(e.primaryCategory)))
  }
}
