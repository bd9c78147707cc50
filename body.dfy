/**
 * The body classifier and the body parsers of request.go: the Bruno body type
 * of a Content-Type header, the label the `.bru` format uses for it, the
 * key/value pairs of a url-encoded body and the boundary of a multipart body.
 */
module Body {
  import opened Wrappers
  import opened Text

  /**
   * The Go library functions the body code calls but that are not part of this
   * model, each total and reporting failure as `None`:
   * `mime.ParseMediaType` (the media type, parameters dropped),
   * `url.QueryUnescape`, and `multipart.NewReader(body, boundary).ReadForm`
   * (the value fields of the form, each with all its values).
   */
  datatype Library = Library(
    parseMediaType: string -> Option<string>,
    queryUnescape: string -> Option<string>,
    readForm: (string, string) -> Option<map<string, seq<string>>>)

  // ---------------------------------------------------------------------------
  // Body types
  // ---------------------------------------------------------------------------

  const NoBody: string := "none"
  const FormUrlEncoded: string := "formUrlEncoded"
  const MultipartForm: string := "multipartForm"

  /** The six Bruno body types. */
  predicate IsBodyType(bt: string) {
    bt in {"none", "json", "xml", "text", "multipartForm", "formUrlEncoded"}
  }

  /** The `btm` table of BodyTypeName: the two types whose label differs from their name. */
  const BodyTypeLabels: map<string, string> :=
    map["formUrlEncoded" := "form-urlencoded", "multipartForm" := "multipart-form"]

  /** BodyTypeName: the label of a body type in a `body:<label>` block. */
  function BodyTypeName(bt: string): (name: string)
    ensures bt == FormUrlEncoded ==> name == "form-urlencoded"
    ensures bt == MultipartForm ==> name == "multipart-form"
    ensures bt != FormUrlEncoded && bt != MultipartForm ==> name == bt
  {
    var name := if bt in BodyTypeLabels then BodyTypeLabels[bt] else "";
    if name == "" then bt else name
  }

  /** A label is already a label: BodyTypeName is idempotent. */
  lemma BodyTypeNameIdempotent(bt: string)
    ensures BodyTypeName(BodyTypeName(bt)) == BodyTypeName(bt)
  {
  }

  /** Distinct body types get distinct labels, so the label identifies the type. */
  lemma BodyTypeNameInjective(a: string, b: string)
    requires IsBodyType(a) && IsBodyType(b)
    requires BodyTypeName(a) == BodyTypeName(b)
    ensures a == b
  {
  }

  /** The `switch mediaType` of BodyTypeFromContentType: the supported media types and their body types. */
  const MediaTypes: map<string, string> := map[
    "application/json" := "json",
    "application/xml" := "xml",
    "text/xml" := "xml",
    "text/plain" := "text",
    "multipart/form-data" := "multipartForm",
    "application/x-www-form-urlencoded" := "formUrlEncoded"]

  /**
   * BodyTypeFromContentType: `none` for a missing header, the body type of a
   * supported media type, and an error for an unparseable header or any other
   * media type.
   */
  function BodyTypeFromContentType(ct: string, lib: Library): (r: Result<string, string>)
    ensures ct == "" ==> r == Ok(NoBody)
    ensures ct != "" ==>
      (r.Ok? <==> lib.parseMediaType(ct).Some? && lib.parseMediaType(ct).value in MediaTypes)
    ensures ct != "" && r.Ok? ==> r.value == MediaTypes[lib.parseMediaType(ct).value]
  {
    if ct == "" then Ok(NoBody)
    else match lib.parseMediaType(ct)
      case None => Err("failed to parse content type " + ct)
      case Some(mediaType) =>
        if mediaType in MediaTypes then Ok(MediaTypes[mediaType])
        else Err("unsupported content type: " + mediaType)
  }

  /** Every successful classification is a body type, and `none` only for a missing header. */
  lemma BodyTypeFromContentTypeRange(ct: string, lib: Library)
    requires BodyTypeFromContentType(ct, lib).Ok?
    ensures IsBodyType(BodyTypeFromContentType(ct, lib).value)
    ensures BodyTypeFromContentType(ct, lib).value == NoBody <==> ct == ""
  {
    if ct != "" {
      var mt := lib.parseMediaType(ct).value;
      assert MediaTypes[mt] in MediaTypes.Values;
    }
  }

  /** Only the media type decides: two headers with the same media type (say, different parameters) classify alike. */
  lemma MediaTypeAlone(ct1: string, ct2: string, lib: Library)
    requires ct1 != "" && ct2 != ""
    requires lib.parseMediaType(ct1) == lib.parseMediaType(ct2)
    ensures BodyTypeFromContentType(ct1, lib).Ok? == BodyTypeFromContentType(ct2, lib).Ok?
    ensures BodyTypeFromContentType(ct1, lib).Ok? ==>
      BodyTypeFromContentType(ct1, lib).value == BodyTypeFromContentType(ct2, lib).value
  {
  }

  // ---------------------------------------------------------------------------
  // ParseBodyUrlEncoded
  // ---------------------------------------------------------------------------

  /** `url.QueryUnescape` with its error discarded: Go then returns the empty string. */
  function Unescape(lib: Library, s: string): string {
    lib.queryUnescape(s).GetOr("")
  }

  /** The pair one `&`-piece stands for: split at its first `=`, or the whole piece as a key with an empty value. */
  function PieceEntry(lib: Library, piece: string): (e: (string, string))
    ensures '=' !in piece ==> e == (Unescape(lib, piece), "")
    ensures '=' in piece ==> exists k, v :: piece == k + "=" + v && '=' !in k
                                            && e == (Unescape(lib, k), Unescape(lib, v))
  {
    match Cut(piece, '=')
    case None => (Unescape(lib, piece), "")
    case Some((k, v)) => (Unescape(lib, k), Unescape(lib, v))
  }

  /** The pairs of a url-encoded body, in order; none for the empty body. */
  function UrlEncodedPairs(body: string, lib: Library): (ps: seq<(string, string)>)
    ensures body == "" ==> ps == []
    ensures body != "" ==> |ps| == |Split(body, '&')|
    ensures body != "" ==> forall i :: 0 <= i < |ps| ==> ps[i] == PieceEntry(lib, Split(body, '&')[i])
  {
    if body == "" then []
    else
      var pieces := Split(body, '&');
      seq(|pieces|, i requires 0 <= i < |pieces| => PieceEntry(lib, pieces[i]))
  }

  /** ParseBodyUrlEncoded: the map filled by assigning the pairs of the body in order. */
  method ParseBodyUrlEncoded(body: string, lib: Library) returns (result: map<string, string>)
    ensures result == FromPairs(UrlEncodedPairs(body, lib))
  {
    result := map[];
    if body == "" {
      return;
    }
    var pairs := Split(body, '&');
    ghost var ps := UrlEncodedPairs(body, lib);
    for i := 0 to |pairs|
      invariant result == FromPairs(ps[..i])
    {
      UrlEncodedStep(body, lib, i);
      var parts := Cut(pairs[i], '=');
      if parts.Some? {
        var key := Unescape(lib, parts.value.0);
        var value := Unescape(lib, parts.value.1);
        result := result[key := value];
      } else {
        var key := Unescape(lib, pairs[i]);
        result := result[key := ""];
      }
    }
    assert ps[..|pairs|] == ps;
  }

  /** Assigning the pair of one more piece. */
  lemma UrlEncodedStep(body: string, lib: Library, i: nat)
    requires body != "" && i < |Split(body, '&')|
    ensures var ps := UrlEncodedPairs(body, lib);
      var e := PieceEntry(lib, Split(body, '&')[i]);
      FromPairs(ps[..i + 1]) == FromPairs(ps[..i])[e.0 := e.1]
  {
    var ps := UrlEncodedPairs(body, lib);
    var e := PieceEntry(lib, Split(body, '&')[i]);
    assert ps[..i + 1] == ps[..i] + [e];
    FromPairsSnoc(ps[..i], e);
  }

  /** The keys of the parsed body are exactly the unescaped keys of its pieces. */
  lemma UrlEncodedKeys(body: string, lib: Library)
    ensures FromPairs(UrlEncodedPairs(body, lib)).Keys ==
      if body == "" then {} else set i | 0 <= i < |Split(body, '&')| :: PieceEntry(lib, Split(body, '&')[i]).0
  {
    var ps := UrlEncodedPairs(body, lib);
    if body != "" {
      var pieces := Split(body, '&');
      assert forall p :: p in ps <==> exists i :: 0 <= i < |pieces| && p == PieceEntry(lib, pieces[i]);
    }
  }

  /**
   * The value of a key is taken from the last piece that names it: the text
   * after that piece's first `=` (unescaped), or the empty string when it has no `=`.
   */
  lemma UrlEncodedValue(body: string, lib: Library, j: nat)
    requires body != "" && j < |Split(body, '&')|
    requires forall m :: j < m < |Split(body, '&')| ==>
      PieceEntry(lib, Split(body, '&')[m]).0 != PieceEntry(lib, Split(body, '&')[j]).0
    ensures var piece := Split(body, '&')[j];
      var result := FromPairs(UrlEncodedPairs(body, lib));
      PieceEntry(lib, piece).0 in result && result[PieceEntry(lib, piece).0] == PieceEntry(lib, piece).1
  {
    FromPairsLastWins(UrlEncodedPairs(body, lib), j);
  }

  /** A body with no `&` is a single pair: key and value split at the first `=` only. */
  lemma UrlEncodedSinglePiece(k: string, v: string, lib: Library)
    requires '&' !in k && '&' !in v && '=' !in k
    ensures FromPairs(UrlEncodedPairs(k + "=" + v, lib)) == map[Unescape(lib, k) := Unescape(lib, v)]
  {
    var body := k + "=" + v;
    assert body[|k|] == '=';
    assert '&' !in body;
    var c := Cut(body, '=');
    assert c.Some?;
    CutUnique(body, '=', k, v);
    var ps := UrlEncodedPairs(body, lib);
    assert ps == [(Unescape(lib, k), Unescape(lib, v))];
    assert ps[..0] == [];
  }

  // ---------------------------------------------------------------------------
  // The multipart boundary
  // ---------------------------------------------------------------------------

  /** `strings.HasPrefix`. */
  predicate HasPrefix(s: string, p: string) {
    |p| <= |s| && s[..|p|] == p
  }

  /** `sep` occurs in `s` at offset `i`. */
  predicate SepAt(s: string, sep: string, i: nat) {
    i + |sep| <= |s| && s[i..i + |sep|] == sep
  }

  /** The offset of the first `sep` in `s` at or after `i`, or `|s|` when there is none. */
  function FirstSep(s: string, sep: string, i: nat): (j: nat)
    requires i <= |s|
    ensures i <= j <= |s|
    ensures j < |s| ==> SepAt(s, sep, j)
    ensures forall k :: i <= k < j ==> !SepAt(s, sep, k)
    decreases |s| - i
  {
    if i == |s| || SepAt(s, sep, i) then i else FirstSep(s, sep, i + 1)
  }

  /** `strings.SplitN(s, sep, 2)[0]`: the text before the first `sep`, or all of `s`. */
  function BeforeFirst(s: string, sep: string): (r: string)
    ensures |r| <= |s| && r == s[..|r|]
    ensures |r| < |s| ==> SepAt(s, sep, |r|)
    ensures forall i :: 0 <= i < |r| ==> !SepAt(s, sep, i)
  {
    s[..FirstSep(s, sep, 0)]
  }

  /** The text before the first LF holds no LF. */
  lemma BeforeFirstLf(s: string)
    ensures '\n' !in BeforeFirst(s, "\n")
  {
    var r := BeforeFirst(s, "\n");
    forall i | 0 <= i < |r| ensures r[i] != '\n' {
      assert !SepAt(s, "\n", i);
      assert s[i..i + 1] == [s[i]];
    }
  }

  /** extractBoundary as written: the CRLF first line, then the LF first line, as boundary lines. */
  function ExtractBoundaryAsWritten(body: string): string {
    var firstLine := BeforeFirst(body, "\r\n");
    if HasPrefix(firstLine, "--") then firstLine[2..]
    else
      var lfLine := BeforeFirst(body, "\n");
      if HasPrefix(lfLine, "--") then lfLine[2..] else ""
  }

  /** A body that starts with `--` has a CRLF first line that starts with `--` too. */
  lemma BoundaryLineKeepsDashes(body: string)
    requires HasPrefix(body, "--")
    ensures HasPrefix(BeforeFirst(body, "\r\n"), "--")
  {
    var line := BeforeFirst(body, "\r\n");
    assert !SepAt(body, "\r\n", 0) && !SepAt(body, "\r\n", 1) by {
      assert body[0] == '-' && body[1] == '-';
    }
    assert |line| >= 2;
    assert line[..2] == body[..2];
  }

  /**
   * The LF fallback never contributes: the boundary is the rest of the CRLF
   * first line when the body starts with `--`, and empty otherwise.
   */
  lemma ExtractBoundaryAsWrittenMeans(body: string)
    ensures ExtractBoundaryAsWritten(body) ==
      if HasPrefix(body, "--") then BeforeFirst(body, "\r\n")[2..] else ""
  {
    if HasPrefix(body, "--") {
      BoundaryLineKeepsDashes(body);
    } else {
      var line := BeforeFirst(body, "\r\n");
      var lf := BeforeFirst(body, "\n");
      assert !HasPrefix(line, "--") by {
        if |line| >= 2 { assert line[..2] == body[..2]; }
      }
      assert !HasPrefix(lf, "--") by {
        if |lf| >= 2 { assert lf[..2] == body[..2]; }
      }
    }
  }

  /** An LF-only multipart body: the boundary swallows the rest of the body. */
  lemma ExtractBoundaryLfOnly()
    ensures ExtractBoundaryAsWritten("--b\nx") == "b\nx"
  {
    var body := "--b\nx";
    ExtractBoundaryAsWrittenMeans(body);
    var line := BeforeFirst(body, "\r\n");
    assert body[0] != '\r' && body[1] != '\r' && body[2] != '\r' && body[3] != '\r';
    assert !SepAt(body, "\r\n", 0) && !SepAt(body, "\r\n", 1) && !SepAt(body, "\r\n", 2);
    assert !SepAt(body, "\r\n", 3) && !SepAt(body, "\r\n", 4);
    assert |line| == 5;
  }

  /**
   * A first line may end at `p`: the body ends there, a CRLF starts there, or
   * an LF that does not follow a CR sits there.
   */
  predicate LineEndAt(body: string, p: nat) {
    p <= |body| &&
    (p == |body| || SepAt(body, "\r\n", p) || (body[p] == '\n' && (p == 0 || body[p - 1] != '\r')))
  }

  /**
   * extractBoundary as intended: the first line ends at the first CRLF, or at
   * the first LF when the body has an LF before any CRLF; the boundary is that
   * line without its leading `--`.
   */
  function ExtractBoundary(body: string): (boundary: string)
    ensures '\n' !in boundary
    ensures HasPrefix(body, "--") ==> HasPrefix(body, "--" + boundary) && LineEndAt(body, 2 + |boundary|)
    ensures !HasPrefix(body, "--") ==> boundary == ""
  {
    var crlfLine := BeforeFirst(body, "\r\n");
    var line := if '\n' in crlfLine then BeforeFirst(body, "\n") else crlfLine;
    FirstLineEnds(body);
    if HasPrefix(line, "--") then
      assert line == line[..2] + line[2..];
      assert body[..|"--" + line[2..]|] == "--" + line[2..];
      line[2..]
    else ""
  }

  /** The line ExtractBoundary cuts holds no LF, ends where a line may end, and keeps the body's leading `--`. */
  lemma FirstLineEnds(body: string)
    ensures var crlfLine := BeforeFirst(body, "\r\n");
      var line := if '\n' in crlfLine then BeforeFirst(body, "\n") else crlfLine;
      && line == body[..|line|] && '\n' !in line && LineEndAt(body, |line|)
      && (HasPrefix(body, "--") <==> HasPrefix(line, "--"))
  {
    var crlfLine := BeforeFirst(body, "\r\n");
    BeforeFirstLf(body);
    if '\n' in crlfLine {
      LfLineEnds(body);
      LinePrefix(body, BeforeFirst(body, "\n"));
    } else {
      LinePrefix(body, crlfLine);
    }
  }

  /** When the CRLF first line holds an LF, the LF first line stops at a bare LF. */
  lemma LfLineEnds(body: string)
    requires '\n' in BeforeFirst(body, "\r\n")
    ensures LineEndAt(body, |BeforeFirst(body, "\n")|)
  {
    var crlfLine := BeforeFirst(body, "\r\n");
    var lf := BeforeFirst(body, "\n");
    var i :| 0 <= i < |crlfLine| && crlfLine[i] == '\n';
    assert body[i..i + 1] == "\n";
    assert SepAt(body, "\n", i);
    assert |lf| <= i;
    assert body[|lf|..|lf| + 1] == "\n";
    if |lf| > 0 {
      assert !SepAt(body, "\r\n", |lf| - 1);
      assert body[|lf| - 1..|lf| + 1] == [body[|lf| - 1], body[|lf|]];
    }
  }

  /** A line that starts the body and is cut before any line break starts with `--` exactly when the body does. */
  lemma LinePrefix(body: string, line: string)
    requires |line| <= |body| && line == body[..|line|]
    requires |line| < 2 ==> |line| == |body| || body[|line|] == '\r' || body[|line|] == '\n'
    ensures HasPrefix(body, "--") <==> HasPrefix(line, "--")
  {
    if |line| >= 2 {
      assert line[..2] == body[..2];
    }
  }

  /**
   * The boundary is pinned down: any LF-free `b` with `--b` at the start of the
   * body, followed by a place where a line may end, is ExtractBoundary's result.
   */
  lemma ExtractBoundaryUnique(body: string, b: string)
    requires '\n' !in b && HasPrefix(body, "--" + b) && LineEndAt(body, 2 + |b|)
    ensures b == ExtractBoundary(body)
  {
    var e := ExtractBoundary(body);
    assert HasPrefix(body, "--") by {
      assert body[..2] == ("--" + b)[..2];
    }
    NotShorter(body, e, b);
    NotShorter(body, b, e);
    assert body[..2 + |b|] == "--" + b;
    assert body[..2 + |e|] == "--" + e;
    assert b == ("--" + b)[2..] == ("--" + e)[2..] == e;
  }

  /** Of two candidate boundaries, the first cannot be the shorter. */
  lemma NotShorter(body: string, b1: string, b2: string)
    requires '\n' !in b1 && HasPrefix(body, "--" + b1) && LineEndAt(body, 2 + |b1|)
    requires '\n' !in b2 && HasPrefix(body, "--" + b2) && LineEndAt(body, 2 + |b2|)
    ensures |b1| >= |b2|
  {
    var p1, p2 := 2 + |b1|, 2 + |b2|;
    assert body[..p2] == "--" + b2;
    assert forall k :: 2 <= k < p2 ==> body[k] == b2[k - 2] && body[k] != '\n';
    assert p1 < |body| ==> body[p1] == '\n' || (body[p1] == '\r' && body[p1 + 1] == '\n') by {
      if p1 < |body| && body[p1] != '\n' {
        assert SepAt(body, "\r\n", p1);
        assert body[p1..p1 + 2] == "\r\n";
      }
    }
    assert p2 < |body| ==> body[p2] != '\n' || body[p2 - 1] != '\r' by {
      if p2 < |body| && SepAt(body, "\r\n", p2) {
        assert body[p2..p2 + 2][0] == body[p2];
      }
    }
  }

  /** Wherever the first line ends in CRLF (or the body has no line break), the fix agrees with the code as written. */
  lemma ExtractBoundaryAgrees(body: string)
    requires '\n' !in BeforeFirst(body, "\r\n")
    ensures ExtractBoundary(body) == ExtractBoundaryAsWritten(body)
  {
    ExtractBoundaryAsWrittenMeans(body);
    var line := BeforeFirst(body, "\r\n");
    if HasPrefix(body, "--") {
      BoundaryLineKeepsDashes(body);
    } else if |line| >= 2 {
      assert line[..2] == body[..2];
    }
  }

  /** The LF-only body now yields the boundary token alone. */
  lemma ExtractBoundaryLfOnlyFixed()
    ensures ExtractBoundary("--b\nx") == "b"
  {
    var body := "--b\nx";
    assert body[..3] == "--b";
    assert body[3] == '\n' && body[2] != '\r';
    ExtractBoundaryUnique(body, "b");
  }

  // ---------------------------------------------------------------------------
  // ParseBodyMultipartForm
  // ---------------------------------------------------------------------------

  /**
   * ParseBodyMultipartForm: the first value of every value field of the form;
   * the empty map for an empty body or a form that does not parse.
   */
  function ParseBodyMultipartForm(body: string, lib: Library): (result: map<string, string>)
    ensures body == "" ==> result == map[]
    ensures body != "" && lib.readForm(body, ExtractBoundary(body)).None? ==> result == map[]
    ensures body != "" && lib.readForm(body, ExtractBoundary(body)).Some? ==>
      var form := lib.readForm(body, ExtractBoundary(body)).value;
      && (forall k :: k in result <==> k in form && |form[k]| > 0)
      && (forall k :: k in result ==> result[k] == form[k][0])
  {
    if body == "" then map[]
    else match lib.readForm(body, ExtractBoundary(body))
      case None => map[]
      case Some(form) => map k | k in form && |form[k]| > 0 :: form[k][0]
  }
}
