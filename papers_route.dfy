/** The rules of the papers routes: which arXiv inputs `POST /url` accepts,
    the key it looks a stored paper up by, how a failed fetch becomes an HTTP
    status, and the records `POST /url` and `POST /upload` build.  The
    database, the PDF download and the PDF text extraction are inputs. */
module PapersRoute {
  import opened Strings
  import opened Arxiv
  import Compressor
  import Sections

  // ---------------------------------------------------------------------------
  // Input acceptance
  // ---------------------------------------------------------------------------

  /** `/^\d{4}\.\d{4,5}(v\d+)?$/`: four digits, a dot, a run of four or five
      digits, then nothing or a version. */
  predicate LooksLikeArxivId(s: string) {
    |s| >= 9 && AllDigits(s[..4]) && s[4] == '.'
    && (DigitRun(s[5..]) == 4 || DigitRun(s[5..]) == 5)
    && IsVersion(s[5 + DigitRun(s[5..])..])
  }

  /** `arxiv\.org\/(abs|pdf)\/\d{4}\.\d{4}` matched at position `p`. */
  predicate UrlMatchAt(l: string, p: nat) {
    p + 23 <= |l| && PathAt(l[p..]) && AllDigits(l[p + 14..p + 18]) && l[p + 18] == '.'
    && AllDigits(l[p + 19..p + 23])
  }

  /** `/arxiv\.org\/(abs|pdf)\/\d{4}\.\d{4,5}/i`: unanchored, and without an
      end anchor a fifth digit never matters.  The pattern holds only ASCII
      letters, and the `i` flag outside Unicode mode never maps a non-ASCII
      character to an ASCII one, so folding ASCII letters is exact here. */
  predicate LooksLikeArxivUrl(s: string) {
    UrlMatchFrom(Lower(s), 0)
  }

  /** A match at `p` or later. */
  predicate UrlMatchFrom(l: string, p: nat)
    decreases |l| - p
  {
    p < |l| && (UrlMatchAt(l, p) || UrlMatchFrom(l, p + 1))
  }

  /** The search finds a match at any later position. */
  lemma {:induction false} UrlMatchFound(l: string, q: nat, p: nat)
    requires q <= p && UrlMatchAt(l, p)
    ensures UrlMatchFrom(l, q)
    decreases p - q
  {
    if q < p {
      UrlMatchFound(l, q + 1, p);
    }
  }

  /** The search succeeds exactly when there is a match. */
  lemma {:induction false} UrlMatchFromSome(l: string, q: nat)
    requires UrlMatchFrom(l, q)
    ensures exists p :: q <= p < |l| && UrlMatchAt(l, p)
    decreases |l| - q
  {
    if !UrlMatchAt(l, q) {
      UrlMatchFromSome(l, q + 1);
    }
  }

  /** `/^[a-z-]+\/\d{7}$/` */
  predicate LooksLikeOldArxivId(s: string) { IsOldStyleId(s) }

  /** The shape check in front of the arXiv call. */
  predicate Accepted(trimmed: string) {
    LooksLikeArxivId(trimmed) || LooksLikeArxivUrl(trimmed) || LooksLikeOldArxivId(trimmed)
  }

  /** The accepted bare identifiers are exactly the new-style identifiers
      followed by an optional version. */
  lemma ArxivIdShape(s: string)
    ensures LooksLikeArxivId(s) ==>
              var k := 5 + DigitRun(s[5..]);
              IsNewStyleId(s[..k]) && IsVersion(s[k..]) && s == s[..k] + s[k..]
  {
    if LooksLikeArxivId(s) {
      var k := 5 + DigitRun(s[5..]);
      var id := s[..k];
      assert id[..4] == s[..4];
      assert id[5..] == s[5..][..k - 5];
      assert forall i :: 0 <= i < k - 5 ==> id[5..][i] == s[5..][i];
    }
  }

  lemma ArxivIdAccepted(id: string, version: string)
    requires IsNewStyleId(id) && IsVersion(version)
    ensures LooksLikeArxivId(id + version)
  {
    var s := id + version;
    assert s[..4] == id[..4];
    assert s[5..] == id[5..] + version;
    DigitRunAll(id[5..]);
    DigitRunOver(id[5..], version);
    assert s[5 + |id[5..]|..] == version;
  }

  lemma {:induction false} DigitRunOver(d: string, rest: string)
    requires AllDigits(d)
    requires rest == [] || !IsDigit(rest[0])
    ensures DigitRun(d + rest) == |d|
  {
    if d == [] {
      assert d + rest == rest;
    } else {
      assert (d + rest)[1..] == d[1..] + rest;
      DigitRunOver(d[1..], rest);
    }
  }

  /** Every bare identifier the route accepts is one `fetchArxivPaper`
      resolves, to the identifier without its version. */
  lemma AcceptedIdResolves(s: string)
    requires LooksLikeArxivId(s)
    ensures ResolveIdCorrected(s) == Ok(s[..5 + DigitRun(s[5..])])
  {
    ArxivIdShape(s);
    var k := 5 + DigitRun(s[5..]);
    BareIdResolves(s[..k], s[k..], true);
  }

  // ---------------------------------------------------------------------------
  // The key a stored paper is looked up by
  // ---------------------------------------------------------------------------

  /** An `arxiv.org/(abs|pdf)/` of `line` ends at `j`. */
  predicate PathEndsAt(line: string, j: nat) {
    14 <= j <= |line| && PathAt(line[j - 14..])
  }

  /** The end of the last `arxiv.org/(abs|pdf)/` in `line` that ends at or
      before `k`. */
  function LastPathEnd(line: string, k: nat): (r: Option<nat>)
    requires k <= |line|
    ensures r.Some? ==> r.value <= k && PathEndsAt(line, r.value)
    ensures r.Some? ==> forall j :: r.value < j <= k ==> !PathEndsAt(line, j)
    ensures r.None? ==> forall j: nat :: j <= k ==> !PathEndsAt(line, j)
  {
    if k < 14 then None
    else if PathEndsAt(line, k) then Some(k)
    else LastPathEnd(line, k - 1)
  }

  /** The length of the first line. */
  function LineLen(s: string): (n: nat)
    ensures n <= |s|
    ensures n == |s| || IsLineTerminator(s[n])
    ensures forall i :: 0 <= i < n ==> !IsLineTerminator(s[i])
  {
    if s == [] || IsLineTerminator(s[0]) then 0 else 1 + LineLen(s[1..])
  }

  /** `.replace(/.*arxiv\.org\/(?:abs|pdf)\//, '')`: `.` does not cross a
      line end, so the leftmost match starts the first line holding a path,
      and the greedy `.*` runs to the end of that line's last path. */
  function StripThroughPath(s: string): (r: string)
    ensures |r| <= |s|
    decreases |s|
  {
    var n := LineLen(s);
    var e := LastPathEnd(s[..n], n);
    if e.Some? then s[e.value..]
    else if n == |s| then s
    else s[..n + 1] + StripThroughPath(s[n + 1..])
  }

  /** No line terminator occurs in `s`. */
  predicate OneLine(s: string) {
    forall i :: 0 <= i < |s| ==> !IsLineTerminator(s[i])
  }

  /** A text of one line is its own first line. */
  lemma {:induction false} LineLenOfOneLine(s: string)
    requires OneLine(s)
    ensures LineLen(s) == |s|
  {
    if s != [] {
      assert forall i :: 0 <= i < |s[1..]| ==> s[1..][i] == s[i + 1];
      LineLenOfOneLine(s[1..]);
    }
  }

  /** A single line without a path is left as it is. */
  lemma StripNoPath(s: string)
    requires OneLine(s)
    requires forall j: nat :: j <= |s| ==> !PathEndsAt(s, j)
    ensures StripThroughPath(s) == s
  {
    LineLenOfOneLine(s);
    assert s[..|s|] == s;
    var e := LastPathEnd(s, |s|);
    assert e.Some? ==> PathEndsAt(s, e.value);
    assert e == None;
  }

  /** On a single line, everything through the end of the last path is
      removed. */
  lemma StripLastPath(s: string, e: nat)
    requires OneLine(s)
    requires e <= |s| && PathEndsAt(s, e)
    requires forall j :: e < j <= |s| ==> !PathEndsAt(s, j)
    ensures StripThroughPath(s) == s[e..]
  {
    LineLenOfOneLine(s);
    assert s[..|s|] == s;
    LastPathEndIs(s, e, |s|);
  }

  /** The `sourceId` the route looks for before fetching, as written. */
  function DedupKey(trimmed: string): string {
    Trim(StripVersion(StripThroughPath(trimmed)))
  }

  /** The key the duplicate check is meant to look up: the identifier the
      input resolves to, which is the `sourceId` a paper fetched for it is
      stored under; `DedupKey` when it resolves to none. */
  function LookupKey(trimmed: string): (k: string)
    ensures ResolveIdCorrected(trimmed).Ok? ==> k == ResolveIdCorrected(trimmed).value
    ensures ResolveIdCorrected(trimmed).Err? ==> k == DedupKey(trimmed)
  {
    match ResolveIdCorrected(trimmed)
    case Ok(id) => id
    case Err(_) => DedupKey(trimmed)
  }

  /** Neither a line end nor an ASCII capital. */
  predicate Plain(s: string) {
    forall i :: 0 <= i < |s| ==> !IsLineTerminator(s[i]) && !IsAsciiUpper(s[i])
  }

  lemma PlainConcat(a: string, b: string)
    requires Plain(a) && Plain(b)
    ensures Plain(a + b)
  {
    forall i | 0 <= i < |a + b| ensures !IsLineTerminator((a + b)[i]) && !IsAsciiUpper((a + b)[i]) {
      if i >= |a| { assert (a + b)[i] == b[i - |a|]; }
    }
  }

  /** The scheme and the paths are plain. */
  lemma PlainParts()
    ensures Plain("https://") && Plain(AbsPath) && Plain(PdfPath)
  {
    var h := "https://";
    assert h == ['h', 't', 't', 'p', 's', ':', '/', '/'];
    var abs := AbsPath;
    assert abs == ['a', 'r', 'x', 'i', 'v', '.', 'o', 'r', 'g', '/', 'a', 'b', 's', '/'];
    var pdf := PdfPath;
    assert pdf == ['a', 'r', 'x', 'i', 'v', '.', 'o', 'r', 'g', '/', 'p', 'd', 'f', '/'];
  }

  /** A new-style identifier and a version are plain and hold no `a`. */
  lemma PlainId(id: string, version: string)
    requires IsNewStyleId(id) && IsVersion(version)
    ensures Plain(id + version) && Plain(version) && 'a' !in id + version
  {
    NewStyleChars(id);
    DigitsAndDotsOnly(id);
    VersionChars(version);
    var s := id + version;
    forall i | 0 <= i < |s| ensures !IsLineTerminator(s[i]) && !IsAsciiUpper(s[i]) {
      if i >= |id| {
        assert s[i] == version[i - |id|];
        if i > |id| { assert version[i - |id|] == version[1..][i - |id| - 1]; }
      }
    }
    forall i | 0 <= i < |version| ensures !IsLineTerminator(version[i]) && !IsAsciiUpper(version[i]) {
      assert version[i] == s[|id| + i];
    }
  }

  /** Lower-casing leaves a text without capitals as it is. */
  lemma {:induction false} LowerOfPlain(s: string)
    requires Plain(s)
    ensures Lower(s) == s
  {
    if s != [] {
      assert Plain(s[1..]) by {
        forall i | 0 <= i < |s[1..]| ensures !IsLineTerminator(s[1..][i]) && !IsAsciiUpper(s[1..][i]) {
          assert s[1..][i] == s[i + 1];
        }
      }
      LowerOfPlain(s[1..]);
    }
  }

  /** Without an `a` there is no path to strip. */
  lemma NoPathWithoutA(line: string, k: nat)
    requires k <= |line| && 'a' !in line
    ensures LastPathEnd(line, k) == None
  {
    forall j: nat | j <= k ensures !PathEndsAt(line, j) {
      if 14 <= j {
        PathStartsWithA(line[j - 14..]);
      }
    }
  }

  /** A path starts with `ar`. */
  lemma PathStartsWithA(s: string)
    ensures PathAt(s) ==> |s| >= 14 && s[0] == 'a' && s[1] == 'r'
  {
    if PathAt(s) {
      var abs := AbsPath;
      assert abs == ['a', 'r', 'x', 'i', 'v', '.', 'o', 'r', 'g', '/', 'a', 'b', 's', '/'];
      var pdf := PdfPath;
      assert pdf == ['a', 'r', 'x', 'i', 'v', '.', 'o', 'r', 'g', '/', 'p', 'd', 'f', '/'];
      assert s[0] == s[..14][0] && s[1] == s[..14][1];
    }
  }

  /** A single line without an `a` is left as it is. */
  lemma StripNothing(s: string)
    requires 'a' !in s && Plain(s)
    ensures StripThroughPath(s) == s
  {
    NoPathWithoutA(s, |s|);
    StripNoPath(s);
  }

  /** The key of a bare identifier is the identifier, without its version. */
  lemma DedupKeyOfId(id: string, version: string)
    requires IsNewStyleId(id) && IsVersion(version)
    ensures DedupKey(id + version) == id
  {
    PlainId(id, version);
    StripNothing(id + version);
    StripVersionOf(id, version);
    NewStyleChars(id);
    DigitsAndDotsOnly(id);
    TrimNoEdges(id);
  }

  /** No match of a path starts inside a path. */
  lemma PathsDoNotOverlap(path: string, rest: string, j: nat)
    requires path == AbsPath || path == PdfPath
    requires 0 < j < 14
    ensures !PathAt((path + rest)[j..])
  {
    var s := path + rest;
    PathStartsWithA(s[j..]);
    var abs := AbsPath;
    assert abs == ['a', 'r', 'x', 'i', 'v', '.', 'o', 'r', 'g', '/', 'a', 'b', 's', '/'];
    var pdf := PdfPath;
    assert pdf == ['a', 'r', 'x', 'i', 'v', '.', 'o', 'r', 'g', '/', 'p', 'd', 'f', '/'];
    assert s[j] == path[j];
    if j < 13 {
      assert s[j + 1] == path[j + 1];
    }
  }

  lemma DropConcat(a: string, b: string, i: nat)
    requires i <= |b|
    ensures (a + b)[|a| + i..] == b[i..]
  {
  }

  /** The last path end is the one with no path end after it. */
  lemma {:induction false} LastPathEndIs(line: string, p: nat, k: nat)
    requires p <= k <= |line| && PathEndsAt(line, p)
    requires forall j :: p < j <= k ==> !PathEndsAt(line, j)
    ensures LastPathEnd(line, k) == Some(p)
    decreases k
  {
    if k > p {
      LastPathEndIs(line, p, k - 1);
    }
  }

  /** In `scheme + path + body`, where the body holds no `a`, the path is
      the last one. */
  lemma LastPathOfUrl(scheme: string, path: string, body: string)
    requires path == AbsPath || path == PdfPath
    requires 'a' !in body
    ensures |scheme + (path + body)| == |scheme| + 14 + |body|
    ensures LastPathEnd(scheme + (path + body), |scheme + (path + body)|) == Some(|scheme| + 14)
  {
    var u := path + body;
    var s := scheme + u;
    var p := |scheme| + 14;
    DropConcat(scheme, u, 0);
    PathAtPath(path, body);
    assert PathEndsAt(s, p);
    forall j | p < j <= |s| ensures !PathEndsAt(s, j) {
      NoPathEndAfter(scheme, path, body, j);
    }
    LastPathEndIs(s, p, |s|);
  }

  /** No path of `scheme + path + body` ends after `path`. */
  lemma NoPathEndAfter(scheme: string, path: string, body: string, j: nat)
    requires path == AbsPath || path == PdfPath
    requires 'a' !in body
    requires |scheme| + 14 < j <= |scheme| + 14 + |body|
    ensures !PathEndsAt(scheme + (path + body), j)
  {
    var u := path + body;
    var i := j - 14 - |scheme|;
    DropConcat(scheme, u, i);
    assert (scheme + u)[j - 14..] == u[i..];
    if i >= 14 {
      DropConcat(path, body, i - 14);
      PathStartsWithA(body[i - 14..]);
    } else {
      PathsDoNotOverlap(path, body, i);
    }
  }

  /** The key of `https://arxiv.org/abs/<id>` or `https://arxiv.org/pdf/<id>`,
      with or without a version, is the identifier. */
  lemma DedupKeyOfUrl(path: string, id: string, version: string)
    requires path == AbsPath || path == PdfPath
    requires IsNewStyleId(id) && IsVersion(version)
    ensures DedupKey("https://" + path + id + version) == id
  {
    Regroup("https://", path, id, version);
    PlainId(id, version);
    StripThroughUrl(path, id + version);
    StripVersionOf(id, version);
    NewStyleChars(id);
    DigitsAndDotsOnly(id);
    TrimNoEdges(id);
  }

  /** Stripping through the path of a one-line URL leaves what follows it. */
  lemma StripThroughUrl(path: string, body: string)
    requires path == AbsPath || path == PdfPath
    requires Plain(body) && 'a' !in body
    ensures StripThroughPath("https://" + (path + body)) == body
  {
    var s := "https://" + (path + body);
    PlainParts();
    PlainConcat(path, body);
    PlainConcat("https://", path + body);
    LastPathOfUrl("https://", path, body);
    StripLastPath(s, 22);
    assert s[22..] == body;
  }

  /** For bare identifiers and abstract-page URLs, the key the route looks
      up is the `sourceId` the fetched paper is stored under. */
  lemma DedupKeyIsSourceId(id: string, version: string)
    requires IsNewStyleId(id) && IsVersion(version)
    ensures DedupKey(id + version) == id && ResolveIdCorrected(id + version) == Ok(id)
    ensures DedupKey("https://" + AbsPath + id + version) == id
    ensures ResolveIdCorrected("https://" + AbsPath + id + version) == Ok(id)
    ensures LookupKey(id + version) == DedupKey(id + version)
    ensures LookupKey("https://" + AbsPath + id + version) == DedupKey("https://" + AbsPath + id + version)
  {
    DedupKeyOfId(id, version);
    BareIdResolves(id, version, true);
    DedupKeyOfUrl(AbsPath, id, version);
    AbsUrlResolves(id, version, true);
  }

  /** Both URL forms pass the shape check, whatever follows the identifier. */
  lemma UrlAccepted(path: string, id: string, rest: string)
    requires path == AbsPath || path == PdfPath
    requires IsNewStyleId(id) && Plain(rest)
    ensures LooksLikeArxivUrl("https://" + path + id + rest)
  {
    var s := "https://" + path + id + rest;
    Regroup("https://", path, id, rest);
    assert Plain(s) by {
      PlainId(id, []);
      assert id + [] == id;
      PlainParts();
      PlainConcat(id, rest);
      PlainConcat(path, id + rest);
      PlainConcat("https://", path + (id + rest));
    }
    LowerOfPlain(s);
    UrlMatchAtId(path, id, rest);
    UrlMatchFound(Lower(s), 0, 8);
  }

  /** The path and identifier of such a URL match at position 8. */
  lemma UrlMatchAtId(path: string, id: string, rest: string)
    requires path == AbsPath || path == PdfPath
    requires IsNewStyleId(id)
    ensures UrlMatchAt("https://" + (path + (id + rest)), 8)
  {
    var s := "https://" + (path + (id + rest));
    assert s[8..] == path + (id + rest);
    PathAtPath(path, id + rest);
    assert s[22..26] == id[..4] && s[26] == id[4] && s[27..31] == id[5..9];
  }

  /** The PDF link of a paper passes the shape check and is then rejected by
      `fetchArxivPaper` as an invalid identifier. */
  lemma PdfLinkAcceptedThenRejected(id: string)
    requires IsNewStyleId(id)
    ensures Accepted("https://" + PdfPath + id + ".pdf")
    ensures ResolveId("https://" + PdfPath + id + ".pdf").Err?
  {
    var ext := ".pdf";
    assert ext == ['.', 'p', 'd', 'f'];
    UrlAccepted(PdfPath, id, ext);
    PdfSuffixRejected(id);
  }

  /** With the corrected capture the same link passes the shape check and
      resolves to the identifier. */
  lemma PdfLinkAcceptedAndResolved(id: string)
    requires IsNewStyleId(id)
    ensures Accepted("https://" + PdfPath + id + ".pdf")
    ensures ResolveIdCorrected("https://" + PdfPath + id + ".pdf") == Ok(id)
  {
    var ext := ".pdf";
    assert ext == ['.', 'p', 'd', 'f'];
    UrlAccepted(PdfPath, id, ext);
    PdfSuffixResolvesCorrected(id);
  }

  // ---------------------------------------------------------------------------
  // Errors
  // ---------------------------------------------------------------------------

  const DefaultFetchError := "Failed to fetch paper from arXiv"

  /** `error.message || 'Failed to fetch paper from arXiv'` */
  function ErrorMessage(message: string): (r: string)
    ensures message != [] ==> r == message
    ensures message == [] ==> r == DefaultFetchError
  {
    if message != [] then message else DefaultFetchError
  }

  /** 404 for messages mentioning `not found` or `Invalid`, else 500. */
  function ErrorStatus(message: string): (status: nat)
    ensures status == 404 <==> Contains(message, "not found") || Contains(message, "Invalid")
    ensures status == 404 || status == 500
  {
    if Contains(message, "not found") || Contains(message, "Invalid") then 404 else 500
  }

  /** What occurs in a string occurs in any extension of it. */
  lemma {:induction false} ContainsInPrefix(a: string, b: string, sub: string)
    requires Contains(a, sub)
    ensures Contains(a + b, sub)
    decreases |a|
  {
    if StartsWith(a, sub) {
      assert (a + b)[..|sub|] == a[..|sub|];
    } else {
      assert (a + b)[1..] == a[1..] + b;
      ContainsInPrefix(a[1..], b, sub);
    }
  }

  lemma ContainsItself(s: string)
    ensures Contains(s, s)
  {
    assert s[..|s|] == s;
  }

  lemma InvalidIdStatus(cleanId: string)
    ensures ErrorStatus(ErrorMessage(InvalidIdMessage(cleanId))) == 404
  {
    var m := "Invalid";
    ContainsItself(m);
    ContainsInPrefix(m, " arXiv ID format: ", m);
    var m1 := m + " arXiv ID format: ";
    ContainsInPrefix(m1, "\"", m);
    ContainsInPrefix(m1 + "\"", cleanId, m);
    var m2 := m1 + "\"" + cleanId;
    ContainsInPrefix(m2, "\". Expected ", m);
    ContainsInPrefix(m2 + "\". Expected ", "format like ", m);
    ContainsInPrefix(m2 + "\". Expected " + "format like ", "2301.13848", m);
  }

  lemma NotFoundStatus(cleanId: string)
    ensures ErrorStatus(ErrorMessage(NotFoundMessage(cleanId))) == 404
  {
    var m := "not found";
    ContainsItself(m);
    ContainsInSuffix("Paper ", m, m);
    ContainsInPrefix("Paper " + m, " on arXiv for ID: ", m);
    ContainsInPrefix("Paper " + m + " on arXiv for ID: ", cleanId, m);
  }

  /** Every failure of `fetchArxivPaper` is reported as 404 except a failed
      connection, which is reported as 500. */
  lemma FetchErrorStatus(input: string, query: string -> Response)
    requires FetchArxivPaper(input, query).Err?
    ensures var m := FetchArxivPaper(input, query).message;
            ErrorStatus(ErrorMessage(m)) == (if m == ConnectionMessage then 500 else 404)
  {
    var cleanId := StripVersion(ExtractId(input, true));
    InvalidIdStatus(cleanId);
    NotFoundStatus(cleanId);
    NotConnection(cleanId);
    ConnectionStatus();
  }

  /** None of the service's other messages is the connection message. */
  lemma NotConnection(cleanId: string)
    ensures InvalidIdMessage(cleanId) != ConnectionMessage
    ensures NotFoundMessage(cleanId) != ConnectionMessage
  {
    assert InvalidIdMessage(cleanId)[0] == 'I';
    assert NotFoundMessage(cleanId)[0] == 'P';
    assert ConnectionMessage[0] == 'F';
  }

  lemma NotInConcat(c: char, a: string, b: string)
    requires c !in a && c !in b
    ensures c !in a + b
  {
  }

  /** The connection message mentions neither `not found` nor `Invalid`:
      it has no `f` and no `I`. */
  lemma ConnectionStatus()
    ensures ErrorStatus(ErrorMessage(ConnectionMessage)) == 500
  {
    var p1, p2, p3, p4 := "Failed to connect ", "to arXiv. Please ", "check your ", "internet connection.";
    assert 'f' !in p1 && 'I' !in p1;
    assert 'f' !in p2 && 'I' !in p2;
    assert 'f' !in p3 && 'I' !in p3;
    assert 'f' !in p4 && 'I' !in p4;
    NotInConcat('f', p1, p2);
    NotInConcat('f', p1 + p2, p3);
    NotInConcat('f', p1 + p2 + p3, p4);
    NotInConcat('I', p1, p2);
    NotInConcat('I', p1 + p2, p3);
    NotInConcat('I', p1 + p2 + p3, p4);
    var nf, inv := "not found", "Invalid";
    assert nf[4] == 'f' && inv[0] == 'I';
    MissingCharNotContained(ConnectionMessage, nf, 4);
    MissingCharNotContained(ConnectionMessage, inv, 0);
  }

  // ---------------------------------------------------------------------------
  // Stored papers
  // ---------------------------------------------------------------------------

  /** A paper record as the routes create it (the author list is copied
      through and not modelled). */
  datatype Paper = Paper(title: string, source: string, sourceId: Option<string>,
                         abstractText: string, fullText: string, sections: map<string, string>,
                         pdfUrl: Option<string>, pageCount: nat, totalTokens: nat)

  /** `sections.abstract`, or nothing. */
  function SectionText(sections: map<string, string>, key: string): (r: string)
    ensures key in sections ==> r == sections[key]
    ensures key !in sections ==> r == []
  {
    if key in sections then sections[key] else []
  }

  /** `a || b` on strings. */
  function OrElse(a: string, b: string): (r: string)
    ensures a != [] ==> r == a
    ensures a == [] ==> r == b
  {
    if a != [] then a else b
  }

  /** The outcome of downloading and reading the paper's PDF. */
  datatype PdfDownload = Downloaded(text: string, pageCount: nat) | DownloadFailed

  /** The full text, sections and page count `POST /url` gathers: nothing
      without a PDF address, the parsed PDF when it downloads, and only the
      abstract as a section when it does not. */
  datatype Gathered = Gathered(fullText: string, sections: map<string, string>, pageCount: nat)

  function Gather(metadata: Metadata, pdf: string -> PdfDownload): (g: Gathered)
    ensures metadata.pdfUrl == [] ==> g == Gathered([], map[], 0)
    ensures metadata.pdfUrl != [] && pdf(metadata.pdfUrl).Downloaded? ==>
              var d := pdf(metadata.pdfUrl);
              g == Gathered(d.text, Sections.SectionsOf(d.text), d.pageCount)
    ensures metadata.pdfUrl != [] && pdf(metadata.pdfUrl).DownloadFailed? ==>
              g == Gathered([], map["abstract" := metadata.abstractText], 0)
  {
    if metadata.pdfUrl == [] then Gathered([], map[], 0)
    else
      match pdf(metadata.pdfUrl)
      case Downloaded(text, pageCount) => Gathered(text, Sections.SectionsOf(text), pageCount)
      case DownloadFailed => Gathered([], map["abstract" := metadata.abstractText], 0)
  }

  /** The record `POST /url` creates from the fetched metadata. */
  function ArxivPaper(metadata: Metadata, pdf: string -> PdfDownload): (p: Paper)
    ensures p.title == metadata.title && p.source == "arxiv" && p.sourceId == Some(metadata.sourceId)
    ensures p.pdfUrl == Some(metadata.pdfUrl)
    ensures metadata.abstractText != [] ==> p.abstractText == metadata.abstractText
    ensures metadata.abstractText == [] ==> p.abstractText == SectionText(Gather(metadata, pdf).sections, "abstract")
    ensures |Gather(metadata, pdf).sections| > 0 ==> p.sections == Gather(metadata, pdf).sections
    ensures |Gather(metadata, pdf).sections| == 0 ==> p.sections == map["abstract" := metadata.abstractText]
    ensures p.totalTokens == Compressor.EstimateTokens(OrElse(p.fullText, metadata.abstractText))
  {
    var g := Gather(metadata, pdf);
    Paper(metadata.title, "arxiv", Some(metadata.sourceId),
          OrElse(metadata.abstractText, SectionText(g.sections, "abstract")), g.fullText,
          if |g.sections| > 0 then g.sections else map["abstract" := metadata.abstractText],
          Some(metadata.pdfUrl), g.pageCount, Compressor.EstimateTokens(OrElse(g.fullText, metadata.abstractText)))
  }

  /** A paper fetched from arXiv always has at least one section, and the
      abstract survives a failed or missing download. */
  lemma ArxivPaperSections(metadata: Metadata, pdf: string -> PdfDownload)
    ensures |ArxivPaper(metadata, pdf).sections| > 0
    ensures Gather(metadata, pdf).sections == map[] || (metadata.pdfUrl != [] && pdf(metadata.pdfUrl).DownloadFailed?) ==>
              ArxivPaper(metadata, pdf).sections == map["abstract" := metadata.abstractText]
  {
    var g := Gather(metadata, pdf);
    if |g.sections| > 0 {
      var k :| k in g.sections;
      assert k in ArxivPaper(metadata, pdf).sections;
    } else {
      assert "abstract" in ArxivPaper(metadata, pdf).sections;
    }
  }

  // ---------------------------------------------------------------------------
  // POST /url
  // ---------------------------------------------------------------------------

  const EmptyInputError := "Please enter an arXiv URL or paper ID"
  const FormatError := "Invalid arXiv format. Please enter a valid arXiv ID (e.g., 2301.13848) or URL (e.g., https://arxiv.org/abs/2301.13848)"

  datatype UrlOutcome = UrlRejected(status: nat, error: string) | AlreadyStored(sourceId: string) | Created(paper: Paper)

  /** The part of `POST /url` after the shape check, on the trimmed input,
      with the duplicate check looking up `LookupKey`. */
  function AddAccepted(trimmed: string, stored: string -> bool, query: string -> Response,
                       pdf: string -> PdfDownload): (r: UrlOutcome)
    ensures r.AlreadyStored? <==> stored(LookupKey(trimmed))
    ensures r.AlreadyStored? ==> r.sourceId == LookupKey(trimmed)
    ensures r.Created? ==> !stored(LookupKey(trimmed)) && FetchArxivPaper(trimmed, query).Ok?
                           && r.paper == ArxivPaper(FetchArxivPaper(trimmed, query).value, pdf)
    ensures r.UrlRejected? ==> !stored(LookupKey(trimmed)) && FetchArxivPaper(trimmed, query).Err?
                               && r == UrlRejected(ErrorStatus(ErrorMessage(FetchArxivPaper(trimmed, query).message)),
                                                   ErrorMessage(FetchArxivPaper(trimmed, query).message))
    ensures r.UrlRejected? ==> r.status in {404, 500} && r.error != []
  {
    AddFetched(LookupKey(trimmed), stored, FetchArxivPaper(trimmed, query), pdf)
  }

  /** The same with the duplicate check as written, looking up `DedupKey`.
      Only the key is as written: the fetch is the corrected
      `FetchArxivPaper`.  `SlashUrlStoredTwice` needs nothing more, since
      for its input both captures resolve to the same identifier
      (`SlashUrlFacts`). */
  function AddAcceptedAsWritten(trimmed: string, stored: string -> bool, query: string -> Response,
                                pdf: string -> PdfDownload): (r: UrlOutcome)
    ensures r.AlreadyStored? <==> stored(DedupKey(trimmed))
    ensures r.Created? ==> !stored(DedupKey(trimmed)) && FetchArxivPaper(trimmed, query).Ok?
                           && r.paper == ArxivPaper(FetchArxivPaper(trimmed, query).value, pdf)
  {
    AddFetched(DedupKey(trimmed), stored, FetchArxivPaper(trimmed, query), pdf)
  }

  /** The same once the key is known and the metadata fetched (the fetch
      happens only when the key is not stored). */
  function AddFetched(key: string, stored: string -> bool, fetched: Result<Metadata>,
                      pdf: string -> PdfDownload): (r: UrlOutcome)
    ensures r.AlreadyStored? <==> stored(key)
    ensures r.AlreadyStored? ==> r.sourceId == key
    ensures r.Created? ==> !stored(key) && fetched.Ok? && r.paper == ArxivPaper(fetched.value, pdf)
    ensures r.UrlRejected? ==> !stored(key) && fetched.Err?
                               && r == UrlRejected(ErrorStatus(ErrorMessage(fetched.message)), ErrorMessage(fetched.message))
    ensures r.UrlRejected? ==> r.status in {404, 500} && r.error != []
  {
    if stored(key) then AlreadyStored(key)
    else if fetched.Ok? then Created(ArxivPaper(fetched.value, pdf))
    else UrlRejected(ErrorStatus(ErrorMessage(fetched.message)), ErrorMessage(fetched.message))
  }

  /** `POST /url` with the request's `url` (`None` when missing), the lookup
      of stored papers by `sourceId`, the arXiv API and the PDF download
      given. */
  function AddFromUrl(url: Option<string>, stored: string -> bool, query: string -> Response,
                      pdf: string -> PdfDownload): (r: UrlOutcome)
    ensures url.None? || Trim(url.value) == [] ==> r == UrlRejected(400, EmptyInputError)
    ensures url.Some? && Trim(url.value) != [] && !Accepted(Trim(url.value)) ==> r == UrlRejected(400, FormatError)
    ensures url.Some? && Trim(url.value) != [] && Accepted(Trim(url.value)) ==>
              r == AddAccepted(Trim(url.value), stored, query, pdf)
    ensures r.UrlRejected? ==> r.status in {400, 404, 500} && r.error != []
  {
    if url.None? || Trim(url.value) == [] then UrlRejected(400, EmptyInputError)
    else
      var trimmed := Trim(url.value);
      if !Accepted(trimmed) then UrlRejected(400, FormatError)
      else
        AddAccepted(trimmed, stored, query, pdf)
  }

  /** The store once a paper with `sourceId` `key` has been added. */
  function Adding(stored: string -> bool, key: string): (r: string -> bool)
    ensures r(key) && forall s :: s != key ==> r(s) == stored(s)
  {
    s => stored(s) || s == key
  }

  /** A paper `POST /url` creates is stored under the key a second request
      with the same input looks up: once it is stored, the same input is
      answered with "already exists" and that key. */
  lemma ResubmitFindsPaper(x: string, stored: string -> bool, query: string -> Response, pdf: string -> PdfDownload)
    ensures var r := AddFromUrl(Some(x), stored, query, pdf);
            r.Created? ==>
              && r.paper.sourceId == Some(LookupKey(Trim(x)))
              && AddFromUrl(Some(x), Adding(stored, LookupKey(Trim(x))), query, pdf)
                 == AlreadyStored(LookupKey(Trim(x)))
  {
    var r := AddFromUrl(Some(x), stored, query, pdf);
    if r.Created? {
      var t := Trim(x);
      assert r == AddAccepted(t, stored, query, pdf);
      var metadata := FetchArxivPaper(t, query).value;
      assert metadata.sourceId == StripVersion(ExtractId(t, true));
      assert ResolveIdCorrected(t).Ok?;
    }
  }

  /** As written, the key looked up and the `sourceId` stored part for
      `https://arxiv.org/abs/<id>/`: the input passes the shape check and
      resolves to `<id>`, but the duplicate check looks for `<id>/`, so
      every request with it fetches and creates the paper again.  The
      corrected key is `<id>`. */
  lemma SlashUrlStoredTwice(id: string, stored: string -> bool, query: string -> Response, pdf: string -> PdfDownload)
    requires IsNewStyleId(id)
    ensures var x := "https://" + AbsPath + id + "/";
            var r := AddAcceptedAsWritten(x, stored, query, pdf);
            r.Created? ==>
              && r.paper.sourceId == Some(id)
              && AddAcceptedAsWritten(x, Adding(stored, id), query, pdf) == r
  {
    SlashUrlMismatch(id);
    KeyMismatchDuplicates("https://" + AbsPath + id + "/", id, stored, query, pdf);
  }

  lemma SlashUrlMismatch(id: string)
    requires IsNewStyleId(id)
    ensures ResolveIdCorrected("https://" + AbsPath + id + "/") == Ok(id)
    ensures DedupKey("https://" + AbsPath + id + "/") != id
  {
    SlashUrlFacts(id);
  }

  /** As written, whenever the key looked up differs from the identifier
      the input resolves to, storing the created paper does not stop the
      same input from creating it again. */
  lemma KeyMismatchDuplicates(x: string, id: string, stored: string -> bool, query: string -> Response,
                              pdf: string -> PdfDownload)
    requires ResolveIdCorrected(x) == Ok(id) && DedupKey(x) != id
    ensures var r := AddAcceptedAsWritten(x, stored, query, pdf);
            r.Created? ==>
              && r.paper.sourceId == Some(id)
              && AddAcceptedAsWritten(x, Adding(stored, id), query, pdf) == r
  {
    CreatedAsWrittenSourceId(x, stored, query, pdf);
    var later := Adding(stored, id);
    assert later(DedupKey(x)) == stored(DedupKey(x));
    SameKeySameOutcome(x, stored, later, query, pdf);
  }

  /** A paper created as written carries the identifier the input resolves to. */
  lemma CreatedAsWrittenSourceId(x: string, stored: string -> bool, query: string -> Response, pdf: string -> PdfDownload)
    ensures AddAcceptedAsWritten(x, stored, query, pdf).Created? ==>
              ResolveIdCorrected(x).Ok?
              && AddAcceptedAsWritten(x, stored, query, pdf).paper.sourceId == Some(ResolveIdCorrected(x).value)
  {
  }

  /** The outcome depends on the store only through the key looked up. */
  lemma SameKeySameOutcome(x: string, stored: string -> bool, later: string -> bool,
                           query: string -> Response, pdf: string -> PdfDownload)
    requires stored(DedupKey(x)) == later(DedupKey(x))
    ensures AddAcceptedAsWritten(x, stored, query, pdf) == AddAcceptedAsWritten(x, later, query, pdf)
  {
  }

  /** `https://arxiv.org/abs/<id>/` needs no trimming, passes the shape
      check and resolves to `<id>`, with or without the corrected capture;
      its key as written is `<id>/`, the corrected one `<id>`. */
  lemma SlashUrlFacts(id: string)
    requires IsNewStyleId(id)
    ensures var x := "https://" + AbsPath + id + "/";
            && Trim(x) == x && Accepted(x)
            && ResolveId(x) == Ok(id) && ResolveIdCorrected(x) == Ok(id)
            && DedupKey(x) == id + "/" && id + "/" != id
            && LookupKey(x) == id
  {
    SlashUrlResolves(id, false);
    SlashUrlResolves(id, true);
    SlashUrlAccepted(id);
    SlashUrlKey(id);
    SlashUrlTrim(id);
    assert |id + "/"| == |id| + 1;
    LookupKeyOfResolved("https://" + AbsPath + id + "/", id);
  }

  lemma LookupKeyOfResolved(t: string, id: string)
    requires ResolveIdCorrected(t) == Ok(id)
    ensures LookupKey(t) == id
  {
  }

  lemma SlashUrlTrim(id: string)
    requires IsNewStyleId(id)
    ensures Trim("https://" + AbsPath + id + "/") == "https://" + AbsPath + id + "/"
  {
    var url := AbsPath + (id + "/");
    Scheme();
    assert url[|url| - 1] == '/';
    TrimUrl("https://", url);
    Regroup("https://", AbsPath, id, "/");
  }

  lemma SlashBody(id: string)
    requires IsNewStyleId(id)
    ensures Plain(id + "/") && 'a' !in id + "/"
  {
    NewStyleChars(id);
    PlainId(id, []);
    assert id + [] == id;
    assert Plain("/");
    PlainConcat(id, "/");
  }

  lemma SlashUrlAccepted(id: string)
    requires IsNewStyleId(id)
    ensures Accepted("https://" + AbsPath + id + "/")
  {
    SlashBody(id);
    UrlAccepted(AbsPath, id, "/");
  }

  lemma SlashUrlKey(id: string)
    requires IsNewStyleId(id)
    ensures DedupKey("https://" + AbsPath + id + "/") == id + "/"
  {
    var body := id + "/";
    SlashBody(id);
    Regroup("https://", AbsPath, id, "/");
    StripThroughUrl(AbsPath, body);
    assert TrailingDigits(body) == 0;
    NewStyleChars(id);
    DigitsAndDotsOnly(id);
    assert body[0] == id[0] && body[|body| - 1] == '/';
    TrimNoEdges(body);
  }

  lemma SlashUrlResolves(id: string, corrected: bool)
    requires IsNewStyleId(id)
    ensures Resolve("https://" + AbsPath + id + "/", corrected) == Ok(id)
  {
    NewStyleChars(id);
    var body := id + "/";
    DigitDotRunOver(id, "/");
    assert body[..|id|] == id && body[|id|..] == "/";
    assert TrailingDots(id) == 0;
    assert CaptureBody(body, corrected) == id;
    PathAtPath(AbsPath, body);
    Scheme();
    ExtractFromUrl("https://", AbsPath, body, corrected);
    Regroup("https://", AbsPath, id, "/");
    StripVersionOf(id, []);
    assert id + [] == id;
  }

  // ---------------------------------------------------------------------------
  // POST /upload
  // ---------------------------------------------------------------------------

  /** The uploaded file's name and the form's `title` (empty when missing). */
  datatype UploadForm = UploadForm(originalName: string, title: string)

  /** The PDF text extraction: the text and page count, or the message of
      the error it threw. */
  datatype Extraction = Extracted(text: string, pageCount: nat) | ExtractionFailed(message: string)

  datatype UploadOutcome = UploadRejected(status: nat, error: string) | Uploaded(paper: Paper)

  const NoFileError := "No PDF file uploaded"
  const NoTextError := "Could not extract text from PDF"

  /** `req.body.title || req.file.originalname.replace('.pdf', '')`.  A file
      named just `.pdf` sent without a title gets the empty title, which the
      paper schema's required `title` refuses when the record is saved (see
      `UploadTitleMayBeEmpty`). */
  function UploadTitle(form: UploadForm): (title: string)
    ensures form.title != [] ==> title == form.title
    ensures form.title == [] ==> title == RemoveFirst(form.originalName, ".pdf")
  {
    OrElse(form.title, RemoveFirst(form.originalName, ".pdf"))
  }

  /** `POST /upload`, with the uploaded form (`None` without a file) and the
      text extraction given. */
  function UploadPaper(form: Option<UploadForm>, extraction: Extraction): (r: UploadOutcome)
    ensures form.None? ==> r == UploadRejected(400, NoFileError)
    ensures form.Some? && extraction.ExtractionFailed? ==> r == UploadRejected(500, extraction.message)
    ensures form.Some? && extraction.Extracted? && |Trim(extraction.text)| < 50 ==> r == UploadRejected(400, NoTextError)
    ensures r.Uploaded? <==> form.Some? && extraction.Extracted? && |Trim(extraction.text)| >= 50
    ensures r.Uploaded? ==>
              var sections := Sections.SectionsOf(extraction.text);
              && r.paper.title == UploadTitle(form.value) && r.paper.source == "upload"
              && r.paper.sourceId.None? && r.paper.pdfUrl.None?
              && r.paper.abstractText == SectionText(sections, "abstract")
              && r.paper.fullText == extraction.text && r.paper.sections == sections
              && r.paper.pageCount == extraction.pageCount
              && r.paper.totalTokens == Compressor.EstimateTokens(extraction.text)
  {
    if form.None? then UploadRejected(400, NoFileError)
    else
      match extraction
      case ExtractionFailed(m) => UploadRejected(500, m)
      case Extracted(text, pageCount) =>
        if |Trim(text)| < 50 then UploadRejected(400, NoTextError)
        else
          var sections := Sections.SectionsOf(text);
          Uploaded(Paper(UploadTitle(form.value), "upload", None, OrElse(SectionText(sections, "abstract"), []),
                         text, sections, None, pageCount, Compressor.EstimateTokens(text)))
  }

  /** An uploaded paper has at least 50 non-blank-bounded characters, so
      its token estimate is at least 13, and none of its sections is the
      reference list. */
  lemma UploadedPaperFacts(form: Option<UploadForm>, extraction: Extraction)
    requires UploadPaper(form, extraction).Uploaded?
    ensures UploadPaper(form, extraction).paper.totalTokens >= 13
    ensures "references" !in UploadPaper(form, extraction).paper.sections
  {
    var t := extraction.text;
    assert |t| >= |Trim(t)| >= 50;
  }

  /** A string that does not contain `sub` has no occurrence at `k`. */
  lemma {:induction false} NotContainedAt(s: string, sub: string, k: nat)
    requires !Contains(s, sub) && k <= |s|
    ensures !StartsWith(s[k..], sub)
  {
    if k > 0 {
      assert s[1..][k - 1..] == s[k..];
      NotContainedAt(s[1..], sub, k - 1);
    }
  }

  /** The first `.pdf` of `name.pdf` is its extension when `name` holds
      none. */
  lemma NoEarlierPdf(name: string)
    requires !Contains(name, ".pdf")
    ensures forall j :: 0 <= j < |name| ==> !StartsWith((name + ".pdf")[j..], ".pdf")
  {
    var s := name + ".pdf";
    var ext := ".pdf";
    assert ext == ['.', 'p', 'd', 'f'];
    forall j | 0 <= j < |name| ensures !StartsWith(s[j..], ext) {
      if j + 4 <= |name| {
        assert s[j..][..4] == name[j..][..4];
        NotContainedAt(name, ext, j);
      } else {
        var i := |name| - j;
        assert s[j..][i] == s[|name|] == '.';
        assert ext[i] != '.';
      }
    }
  }

  /** Without a form title, an uploaded `name.pdf` is titled `name` when
      `name` holds no `.pdf` of its own. */
  lemma UploadTitleOfPdfName(name: string)
    requires !Contains(name, ".pdf")
    ensures UploadTitle(UploadForm(name + ".pdf", [])) == name
  {
    var s := name + ".pdf";
    var ext := ".pdf";
    assert s[|name|..] == ext;
    ContainsAt(s, |name|, ext);
    NoEarlierPdf(name);
    var k := IndexOf(s, ext);
    assert k == |name|;
    assert s[..|name|] == name && s[|name| + 4..] == [];
  }

  /** A file named `.pdf` without a form title is titled with nothing. */
  lemma UploadTitleMayBeEmpty()
    ensures UploadTitle(UploadForm(".pdf", [])) == []
  {
    UploadTitleOfPdfName([]);
    assert [] + ".pdf" == ".pdf";
  }
}
