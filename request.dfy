/**
 * The request writer of request.go: the request record, the file name derived
 * from the path (pathToName), the `.bru` text of a request (requestContent and
 * RequestBodyBlock) and the creation of the request file (createRequestFile).
 */
module Request {
  import opened Wrappers
  import opened Text
  import opened Helpers
  import opened Env
  import opened Body
  import opened Folder

  /** RequestData, without the captured `*http.Request` (used only for a warning on stderr). */
  datatype RequestData = RequestData(
    filesCount: int,
    name: string,
    basedir: string,
    verb: string,
    path: string,
    rawQuery: string,
    bodyType: string,
    body: string,
    env: Option<BrunoEnv>)

  /**
   * The disk as createRequestFile sees it: the folder tree, the files that
   * exist (folder and file name), and DirFilesCount for each folder.
   */
  datatype Disk = Disk(
    tree: Tree,
    files: set<(seq<string>, string)>,
    filesCount: seq<string> -> nat)

  // ---------------------------------------------------------------------------
  // pathToName
  // ---------------------------------------------------------------------------

  /** The end of the run of word characters (`\w`) that starts at `i`. */
  function WordEnd(s: string, i: nat): (j: nat)
    requires i <= |s|
    ensures i <= j <= |s|
    ensures forall k :: i <= k < j ==> IsWordChar(s[k])
    ensures j < |s| ==> !IsWordChar(s[j])
    decreases |s| - i
  {
    if i < |s| && IsWordChar(s[i]) then WordEnd(s, i + 1) else i
  }

  /** The pattern `\{\{(\w+)\}\}` matches at offset `i`. */
  predicate PlaceholderAt(s: string, i: nat) {
    && i + 2 <= |s| && s[i] == '{' && s[i + 1] == '{'
    && var j := WordEnd(s, i + 2);
       j > i + 2 && j + 2 <= |s| && s[j] == '}' && s[j + 1] == '}'
  }

  /**
   * `ReplaceAllStringFunc` with the pattern above from offset `i` on: matches
   * are found left to right without overlap, and each is replaced by its name
   * in upper case.
   */
  function UpperPlaceholders(s: string, i: nat): (r: string)
    requires i <= |s|
    ensures |r| <= |s| - i
    decreases |s| - i
  {
    if i == |s| then ""
    else if PlaceholderAt(s, i) then
      var j := WordEnd(s, i + 2);
      Upper(s[i + 2..j]) + UpperPlaceholders(s, j + 2)
    else
      [s[i]] + UpperPlaceholders(s, i + 1)
  }

  /** Every character of the result that is not a word character comes from the text. */
  lemma {:induction false} UpperPlaceholdersChars(s: string, i: nat)
    requires i <= |s|
    ensures forall c :: c in UpperPlaceholders(s, i) && !IsWordChar(c) ==> c in s[i..]
    decreases |s| - i
  {
    if i < |s| {
      if PlaceholderAt(s, i) {
        var j := WordEnd(s, i + 2);
        UpperWord(s[i + 2..j]);
        UpperPlaceholdersChars(s, j + 2);
        assert forall c :: c in s[j + 2..] ==> c in s[i..];
      } else {
        UpperPlaceholdersChars(s, i + 1);
        assert forall c :: c in s[i + 1..] ==> c in s[i..];
      }
    }
  }

  /** Upper case keeps word characters word characters. */
  lemma UpperWord(w: string)
    requires forall k :: 0 <= k < |w| ==> IsWordChar(w[k])
    ensures forall c :: c in Upper(w) ==> IsWordChar(c)
  {
    forall c | c in Upper(w) ensures IsWordChar(c) {
      var k :| 0 <= k < |w| && Upper(w)[k] == c;
      assert IsWordChar(w[k]);
    }
  }

  /** pathToName: `/` becomes `-` and every `{{name}}` becomes `NAME`. */
  function PathToName(path: string): (name: string)
    ensures '/' !in name
    ensures |name| <= |path|
  {
    var s := ReplaceChar(path, '/', '-');
    UpperPlaceholdersChars(s, 0);
    UpperPlaceholders(s, 0)
  }

  /** Without `{` in the text from `i` on, nothing is matched. */
  lemma {:induction false} UpperPlaceholdersPlain(s: string, i: nat)
    requires i <= |s|
    requires forall k :: i <= k < |s| ==> s[k] != '{'
    ensures UpperPlaceholders(s, i) == s[i..]
    decreases |s| - i
  {
    if i < |s| {
      UpperPlaceholdersPlain(s, i + 1);
      assert s[i..] == [s[i]] + s[i + 1..];
    }
  }

  /** Text before the first `{` is copied as it is. */
  lemma {:induction false} UpperPlaceholdersPrefix(s: string, i: nat, k: nat)
    requires i <= k <= |s|
    requires forall m :: i <= m < k ==> s[m] != '{'
    ensures UpperPlaceholders(s, i) == s[i..k] + UpperPlaceholders(s, k)
    decreases k - i
  {
    if i < k {
      UpperPlaceholdersPrefix(s, i + 1, k);
      UpperPlaceholdersCopy(s, i);
      ConsSlice(s, i, k, UpperPlaceholders(s, k));
    } else {
      assert s[i..k] == [];
    }
  }

  /** Putting `s[i]` in front of `s[i + 1..k]` gives `s[i..k]`. */
  lemma ConsSlice(s: string, i: nat, k: nat, rest: string)
    requires i < k <= |s|
    ensures [s[i]] + (s[i + 1..k] + rest) == s[i..k] + rest
  {
    assert s[i..k] == [s[i]] + s[i + 1..k];
  }

  /** A path with no `{` only has its slashes turned into dashes. */
  lemma PathToNamePlain(path: string)
    requires '{' !in path
    ensures PathToName(path) == ReplaceChar(path, '/', '-')
  {
    UpperPlaceholdersPlain(ReplaceChar(path, '/', '-'), 0);
  }

  /**
   * A path ending in a placeholder: the prefix gets dashes for slashes and the
   * placeholder becomes its name in upper case, so `api/users/{{user_id}}`
   * becomes `api-users-USER_ID`.
   */
  lemma PathToNameTrailingPlaceholder(prefix: string, varName: string)
    requires '{' !in prefix
    requires varName != "" && forall k :: 0 <= k < |varName| ==> IsWordChar(varName[k])
    ensures PathToName(prefix + Placeholder(varName)) == ReplaceChar(prefix, '/', '-') + Upper(varName)
  {
    var path := prefix + Placeholder(varName);
    var rp := ReplaceChar(prefix, '/', '-');
    var s := ReplaceChar(path, '/', '-');
    assert '/' !in Placeholder(varName) by {
      assert forall k :: 0 <= k < |varName| ==> varName[k] != '/';
    }
    assert s == rp + Placeholder(varName);
    assert s[..|prefix|] == rp;
    UpperPlaceholdersPrefix(s, 0, |prefix|);
    assert s[|prefix|..] == Placeholder(varName);
    PlaceholderTail(s, |prefix|, varName);
  }

  /** Where no placeholder starts, the character is copied. */
  lemma UpperPlaceholdersCopy(s: string, i: nat)
    requires i < |s| && (s[i] != '{' || !PlaceholderAt(s, i))
    ensures UpperPlaceholders(s, i) == [s[i]] + UpperPlaceholders(s, i + 1)
  {
  }

  /** Where a placeholder starts, its name in upper case replaces it. */
  lemma UpperPlaceholdersReplace(s: string, i: nat)
    requires i < |s| && PlaceholderAt(s, i)
    ensures WordEnd(s, i + 2) + 2 <= |s|
    ensures UpperPlaceholders(s, i)
         == Upper(s[i + 2..WordEnd(s, i + 2)]) + UpperPlaceholders(s, WordEnd(s, i + 2) + 2)
  {
  }

  /** A placeholder at the very end of the text becomes its name in upper case. */
  lemma PlaceholderTail(s: string, n: nat, w: string)
    requires w != "" && forall k :: 0 <= k < |w| ==> IsWordChar(w[k])
    requires n <= |s| && s[n..] == Placeholder(w)
    ensures UpperPlaceholders(s, n) == Upper(w)
  {
    PlaceholderMatch(s, n, w);
    UpperPlaceholdersReplace(s, n);
    assert WordEnd(s, n + 2) + 2 == |s|;
    assert UpperPlaceholders(s, |s|) == "";
  }

  /** The pattern matches a placeholder of a word name, and the name ends where the word does. */
  lemma PlaceholderMatch(s: string, n: nat, w: string)
    requires w != "" && forall k :: 0 <= k < |w| ==> IsWordChar(w[k])
    requires n <= |s| && s[n..] == Placeholder(w)
    ensures PlaceholderAt(s, n) && WordEnd(s, n + 2) == n + 2 + |w|
    ensures s[n + 2..n + 2 + |w|] == w
  {
    var j := n + 2 + |w|;
    assert s[n + 2..j] == w;
    WordEndOver(s, n + 2, j);
  }

  /** The word run from `i` ends at `j` when `s[i..j]` is all word characters and `s[j]` is not. */
  lemma {:induction false} WordEndOver(s: string, i: nat, j: nat)
    requires i <= j < |s|
    requires forall k :: i <= k < j ==> IsWordChar(s[k])
    requires !IsWordChar(s[j])
    ensures WordEnd(s, i) == j
    decreases j - i
  {
    if i < j {
      WordEndOver(s, i + 1, j);
    }
  }

  // ---------------------------------------------------------------------------
  // RequestBodyBlock
  // ---------------------------------------------------------------------------

  /** `block` is what RequestBodyBlock may return for `rd`. */
  ghost predicate IsBodyBlockOf(block: string, rd: RequestData, lib: Library) {
    if rd.bodyType == FormUrlEncoded then
      IsNameBlockMapOf(block, "body:form-urlencoded", FromPairs(UrlEncodedPairs(rd.body, lib)))
    else if rd.bodyType == MultipartForm then
      IsNameBlockMapOf(block, "body:multipart-form", ParseBodyMultipartForm(rd.body, lib))
    else
      block == Wrap(rd.bodyType, ItemsText([rd.body]))
  }

  /**
   * RequestBodyBlock, RequestBodyUrlEncoded and RequestBodyMultipartForm: form
   * bodies become `body:<label>` key/value blocks, any other body a block with
   * the raw body as its single line.
   */
  method RequestBodyBlock(rd: RequestData, lib: Library) returns (block: string)
    ensures IsBodyBlockOf(block, rd, lib)
  {
    if rd.bodyType == FormUrlEncoded {
      var name := "body:" + BodyTypeName(rd.bodyType);
      assert name == "body:form-urlencoded";
      var vars := ParseBodyUrlEncoded(rd.body, lib);
      block := NameBlockMap(name, vars);
      return;
    }
    if rd.bodyType == MultipartForm {
      var name := "body:" + BodyTypeName(rd.bodyType);
      assert name == "body:multipart-form";
      var vars := ParseBodyMultipartForm(rd.body, lib);
      block := NameBlockMap(name, vars);
      return;
    }
    block := NameBlockStrings(rd.bodyType, [rd.body]);
  }

  /** A raw body (json, xml, text) is written verbatim on one indented line of its block. */
  lemma RawBodyBlock(block: string, rd: RequestData, lib: Library)
    requires rd.bodyType != FormUrlEncoded && rd.bodyType != MultipartForm
    requires IsBodyBlockOf(block, rd, lib)
    ensures block == rd.bodyType + " {\n  " + rd.body + "\n}\n"
  {
    assert [rd.body][..0] == [];
    assert ItemsText([rd.body]) == "  " + rd.body + "\n";
    LinesOfOneEntry(rd.bodyType, rd.body);
  }

  /** A block of one line, spelled out. */
  lemma LinesOfOneEntry(name: string, line: string)
    ensures Wrap(name, "  " + line + "\n") == name + " {\n  " + line + "\n}\n"
  {
    assert " {\n" + "  " == " {\n  ";
    assert "\n" + "}\n" == "\n}\n";
  }

  /** A url-encoded body block holds one `key: value` line per distinct key of the body. */
  lemma UrlEncodedBodyBlock(block: string, rd: RequestData, lib: Library, k: string)
    requires rd.bodyType == FormUrlEncoded
    requires IsBodyBlockOf(block, rd, lib)
    requires k in FromPairs(UrlEncodedPairs(rd.body, lib))
    ensures HasLine(block, EntryItem(k, FromPairs(UrlEncodedPairs(rd.body, lib))[k]))
  {
    NamedBlockLine(block, "body:form-urlencoded", FromPairs(UrlEncodedPairs(rd.body, lib)), k);
  }

  // ---------------------------------------------------------------------------
  // requestContent
  // ---------------------------------------------------------------------------

  /** The entries of the `meta` block. */
  function MetaVars(rd: RequestData): map<string, string> {
    map["name" := rd.name, "seq" := Itoa(rd.filesCount + 1), "type" := "http"]
  }

  /** The entries of the `settings` block. */
  const SettingsVars: map<string, string> := map["encodeUrl" := "false"]

  /** The path with its first `/` removed, before the environment is applied. */
  function RelativePath(path: string): string {
    if HasPrefix(path, "/") then path[1..] else path
  }

  /** The path of the URL: the substituted path, rooted at `/`, and the query when there is one. */
  function UrlPath(rd: RequestData, query: string): string {
    var p := SubstitutePath(RelativePath(rd.path), rd.env);
    (if HasPrefix(p, "/") then p else "/" + p) + (if rd.rawQuery != "" then "?" + query else "")
  }

  /** The scheme: `{{proto}}` when an environment is in use, empty otherwise. */
  function Proto(env: Option<BrunoEnv>): string {
    if env.Some? then "{{proto}}" else ""
  }

  /** The host: `{{host}}` when an environment is in use, empty otherwise. */
  function Host(env: Option<BrunoEnv>): string {
    if env.Some? then "{{host}}" else ""
  }

  /** The `url` entry of the request block, given the substituted query. */
  function Url(rd: RequestData, query: string): string {
    Proto(rd.env) + "://" + Host(rd.env) + UrlPath(rd, query)
  }

  /** The entries of the request block (named after the method in lower case). */
  function RequestVars(rd: RequestData, url: string): map<string, string> {
    map["url" := url, "body" := rd.bodyType, "auth" := "none"]
  }

  /** The check-list of the `docs` block; forms and raw bodies add a line for body parameters. */
  function DocItems(bodyType: string): (items: seq<string>)
    ensures "- [ ] body params" in items <==> bodyType != NoBody
  {
    ["- [ ] methods", "- [ ] params", "- [ ] headers"]
      + (if bodyType != NoBody then ["- [ ] body params"] else [])
  }

  /** The two check-lists, spelled out. */
  lemma DocItemsCases(bodyType: string)
    ensures bodyType == "none" ==> DocItems(bodyType) == ["- [ ] methods", "- [ ] params", "- [ ] headers"]
    ensures bodyType != "none" ==>
      DocItems(bodyType) == ["- [ ] methods", "- [ ] params", "- [ ] headers"] + ["- [ ] body params"]
  {
  }

  /** The rendered blocks of a request file and the substituted query they use. */
  datatype Blocks = Blocks(meta: string, request: string, settings: string, body: string, query: string)

  /** Each block is one that its serialiser may produce for `rd`. */
  ghost predicate ValidBlocks(b: Blocks, rd: RequestData, lib: Library) {
    && IsNameBlockMapOf(b.meta, "meta", MetaVars(rd))
    && (rd.rawQuery != "" ==> IsEnvToBodyOf(b.query, rd.rawQuery, rd.env))
    && IsNameBlockMapOf(b.request, Lower(rd.verb), RequestVars(rd, Url(rd, b.query)))
    && IsNameBlockMapOf(b.settings, "settings", SettingsVars)
    && (rd.bodyType != NoBody ==> IsBodyBlockOf(b.body, rd, lib))
  }

  /** The file text: meta, request, settings, the body block unless there is none, and docs. */
  function Assemble(b: Blocks, rd: RequestData): string {
    b.meta + "\n" + b.request + "\n" + b.settings + "\n"
      + (if rd.bodyType != NoBody then b.body + "\n" else "")
      + NameBlockStrings("docs", DocItems(rd.bodyType))
  }

  /** `content` is what requestContent may return for `rd`. */
  ghost predicate IsRequestContentOf(content: string, rd: RequestData, lib: Library) {
    exists b :: ValidBlocks(b, rd, lib) && content == Assemble(b, rd)
  }

  /**
   * The URL part of requestContent: root the path at `/`, substitute the
   * environment into its segments, root it again, append the substituted
   * query, and put the scheme and host placeholders in front.
   */
  method RequestUrl(rd: RequestData) returns (url: string, query: string)
    ensures rd.rawQuery != "" ==> IsEnvToBodyOf(query, rd.rawQuery, rd.env)
    ensures url == Url(rd, query)
  {
    var path := rd.path;
    if !HasPrefix(path, "/") {
      path := "/" + path;
    }
    assert path[1..] == RelativePath(rd.path);
    path := EnvToPath(path[1..], rd.env);
    if !HasPrefix(path, "/") {
      path := "/" + path;
    }
    query := "";
    if rd.rawQuery != "" {
      query := EnvToBody(rd.rawQuery, rd.env);
      path := path + "?" + query;
    }
    var proto, host := "", "";
    if rd.env.Some? {
      proto := "{{proto}}";
      host := "{{host}}";
    }
    url := proto + "://" + host + path;
  }

  /** requestContent: the `.bru` text of a request. */
  method RequestContent(rd: RequestData, lib: Library) returns (content: string)
    ensures IsRequestContentOf(content, rd, lib)
  {
    var metaBlock := NameBlockMap("meta", MetaVars(rd));
    var url, query := RequestUrl(rd);
    var requestBlock := NameBlockMap(Lower(rd.verb), RequestVars(rd, url));
    var settingsBlock := NameBlockMap("settings", SettingsVars);

    var docs := ["- [ ] methods", "- [ ] params", "- [ ] headers"];
    var bodyBlock, bodyPart := "", "";
    if rd.bodyType != "none" {
      bodyBlock := RequestBodyBlock(rd, lib);
      bodyPart := bodyBlock + "\n";
      docs := docs + ["- [ ] body params"];
    }
    content := metaBlock + "\n" + requestBlock + "\n" + settingsBlock + "\n" + bodyPart
      + NameBlockStrings("docs", docs);

    ghost var b := Blocks(metaBlock, requestBlock, settingsBlock, bodyBlock, query);
    BlocksValid(b, rd, lib);
    DocItemsCases(rd.bodyType);
    assert content == Assemble(b, rd);
  }

  /** The conjuncts of ValidBlocks, one by one. */
  lemma BlocksValid(b: Blocks, rd: RequestData, lib: Library)
    requires IsNameBlockMapOf(b.meta, "meta", MetaVars(rd))
    requires rd.rawQuery != "" ==> IsEnvToBodyOf(b.query, rd.rawQuery, rd.env)
    requires IsNameBlockMapOf(b.request, Lower(rd.verb), RequestVars(rd, Url(rd, b.query)))
    requires IsNameBlockMapOf(b.settings, "settings", SettingsVars)
    requires rd.bodyType != NoBody ==> IsBodyBlockOf(b.body, rd, lib)
    ensures ValidBlocks(b, rd, lib)
  {
  }

  // ---------------------------------------------------------------------------
  // Properties of the request text
  // ---------------------------------------------------------------------------

  /** `item` appears in `s` as a line of a block. */
  ghost predicate HasLine(s: string, item: string) {
    exists at: nat :: OccursAt(ItemLine(item), s, at)
  }

  /** A block of a single entry is determined: `name {`, the entry's line, `}`. */
  lemma SingleEntryBlock(r: string, name: string, k: string, v: string)
    requires IsNameBlockMapOf(r, name, map[k := v])
    ensures r == Wrap(name, ItemLine(EntryItem(k, v)))
  {
    var m := map[k := v];
    var body :| IsBlockMapOf(body, m) && r == Wrap(name, body);
    var order :| IsKeyOrder(order, m) && body == ItemsText(EntryItems(m, order));
    KeyOrderLength(order, m);
    assert order == [k];
    assert EntryItems(m, order) == [EntryItem(k, v)];
    assert [EntryItem(k, v)][..0] == [];
    assert ItemsText([EntryItem(k, v)]) == ItemLine(EntryItem(k, v));
  }

  /**
   * The file opens with the meta block, which carries the request name,
   * `type: http` and the sequence number one past the folder's file count.
   */
  lemma ContentMeta(content: string, rd: RequestData, lib: Library)
    requires IsRequestContentOf(content, rd, lib)
    requires rd.filesCount >= 0
    ensures content[..6] == "meta {"
    ensures HasLine(content, EntryItem("seq", Itoa(rd.filesCount + 1)))
    ensures HasLine(content, EntryItem("name", rd.name))
    ensures DecimalValue(Itoa(rd.filesCount + 1)) == rd.filesCount + 1
  {
    var b :| ValidBlocks(b, rd, lib) && content == Assemble(b, rd);
    MetaBlock(b.meta, rd);
    MetaInContent(content, b, rd);
    ItoaNat(rd.filesCount + 1);
  }

  /** What the meta block shows, the assembled text shows. */
  lemma MetaInContent(content: string, b: Blocks, rd: RequestData)
    requires content == Assemble(b, rd)
    requires |b.meta| >= 6 && b.meta[..6] == "meta {"
    requires HasLine(b.meta, EntryItem("seq", Itoa(rd.filesCount + 1)))
    requires HasLine(b.meta, EntryItem("name", rd.name))
    ensures content[..6] == "meta {"
    ensures HasLine(content, EntryItem("seq", Itoa(rd.filesCount + 1)))
    ensures HasLine(content, EntryItem("name", rd.name))
  {
    AssembledPrefix(content, b, rd);
    HasLinePrefix(content, b.meta, EntryItem("seq", Itoa(rd.filesCount + 1)));
    HasLinePrefix(content, b.meta, EntryItem("name", rd.name));
    assert content[..6] == b.meta[..6];
  }

  /** The assembled text starts with its meta block. */
  lemma AssembledPrefix(content: string, b: Blocks, rd: RequestData)
    requires content == Assemble(b, rd)
    ensures |b.meta| <= |content| && content[..|b.meta|] == b.meta
  {
  }

  /** The meta block opens with `meta {` and has a line for the name and one for the sequence number. */
  lemma MetaBlock(meta: string, rd: RequestData)
    requires IsNameBlockMapOf(meta, "meta", MetaVars(rd))
    ensures |meta| >= 6 && meta[..6] == "meta {"
    ensures HasLine(meta, EntryItem("seq", Itoa(rd.filesCount + 1)))
    ensures HasLine(meta, EntryItem("name", rd.name))
  {
    var m := MetaVars(rd);
    MetaVarsEntries(rd);
    NamedBlockLine(meta, "meta", m, "seq");
    NamedBlockLine(meta, "meta", m, "name");
    assert "meta" + " {" == "meta {";
  }

  /** The meta entries by key. */
  lemma MetaVarsEntries(rd: RequestData)
    ensures "seq" in MetaVars(rd) && MetaVars(rd)["seq"] == Itoa(rd.filesCount + 1)
    ensures "name" in MetaVars(rd) && MetaVars(rd)["name"] == rd.name
  {
  }

  /** Each entry of a named key/value block is one of its lines, and the block opens with `name {`. */
  lemma NamedBlockLine(r: string, name: string, m: map<string, string>, k: string)
    requires IsNameBlockMapOf(r, name, m)
    requires k in m
    ensures |r| >= |name| + 2 && r[..|name| + 2] == name + " {"
    ensures HasLine(r, EntryItem(k, m[k]))
  {
    var body :| IsBlockMapOf(body, m) && r == Wrap(name, body);
    WrapShape(name, body);
    BlockMapHasEntry(body, m, k);
    HasLineExtend(name + " {\n", body, "}\n", EntryItem(k, m[k]));
  }

  /** A line of a prefix is a line of the whole text. */
  lemma HasLinePrefix(s: string, t: string, item: string)
    requires |t| <= |s| && s[..|t|] == t
    requires HasLine(t, item)
    ensures HasLine(s, item)
  {
    var at: nat :| OccursAt(ItemLine(item), t, at);
    var x := ItemLine(item);
    assert t[at..at + |x|] == s[..|t|][at..at + |x|];
    assert s[..|t|][at..at + |x|] == s[at..at + |x|];
    assert OccursAt(x, s, at);
  }

  /** A line of `t` is a line of any text that contains `t`. */
  lemma HasLineExtend(s: string, t: string, u: string, item: string)
    requires HasLine(t, item)
    ensures HasLine(s + t + u, item)
  {
    var at: nat :| OccursAt(ItemLine(item), t, at);
    var x := ItemLine(item);
    assert (s + t + u)[|s| + at..|s| + at + |x|] == t[at..at + |x|];
    assert OccursAt(x, s + t + u, |s| + at);
  }

  /** The settings block always holds the single line `encodeUrl: false`. */
  lemma ContentSettings(b: Blocks, rd: RequestData, lib: Library)
    requires ValidBlocks(b, rd, lib)
    ensures b.settings == Wrap("settings", ItemLine(EntryItem("encodeUrl", "false")))
  {
    SingleEntryBlock(b.settings, "settings", "encodeUrl", "false");
  }

  /**
   * The file ends with the docs check-list; a body block and the body-params
   * item are present exactly when the body type is not `none`.
   */
  lemma ContentDocs(content: string, rd: RequestData, lib: Library)
    requires IsRequestContentOf(content, rd, lib)
    ensures var docs := Wrap("docs", ItemsText(DocItems(rd.bodyType)));
      |docs| <= |content| && content[|content| - |docs|..] == docs
    ensures "- [ ] body params" in DocItems(rd.bodyType) <==> rd.bodyType != NoBody
  {
    var b :| ValidBlocks(b, rd, lib) && content == Assemble(b, rd);
    AssembledSuffix(b, rd);
  }

  /** The assembled text ends with its docs block. */
  lemma AssembledSuffix(b: Blocks, rd: RequestData)
    ensures var docs := Wrap("docs", ItemsText(DocItems(rd.bodyType)));
      var content := Assemble(b, rd);
      |docs| <= |content| && content[|content| - |docs|..] == docs
  {
    var docs := Wrap("docs", ItemsText(DocItems(rd.bodyType)));
    var pre := b.meta + "\n" + b.request + "\n" + b.settings + "\n"
      + (if rd.bodyType != NoBody then b.body + "\n" else "");
    assert Assemble(b, rd) == pre + docs;
  }

  /** Every URL path is rooted at `/`. */
  lemma UrlPathRooted(rd: RequestData, query: string)
    ensures UrlPath(rd, query)[0] == '/'
  {
  }

  /**
   * Without an environment nothing is substituted: the URL is `://`, the path
   * rooted at `/`, and the raw query behind `?` when there is one.
   */
  lemma UrlWithoutEnv(rd: RequestData, query: string)
    requires rd.env.None?
    requires rd.rawQuery != "" ==> IsEnvToBodyOf(query, rd.rawQuery, rd.env)
    ensures var p := RelativePath(rd.path);
      Url(rd, query) == "://" + (if HasPrefix(p, "/") then p else "/" + p)
        + (if rd.rawQuery != "" then "?" + rd.rawQuery else "")
  {
  }

  /**
   * With an environment, a path segment equal to a variable's value becomes
   * its placeholder: `/users/42` with `user_id: 42` gives
   * `{{proto}}://{{host}}/users/{{user_id}}`.
   */
  lemma UrlWithEnvSegment(rd: RequestData, query: string, a: string, v: string, varName: string)
    requires rd.env.Some? && rd.rawQuery == ""
    requires rd.path == "/" + a + "/" + v
    requires a != "" && '/' !in a && '/' !in v
    requires a !in rd.env.value.reverseVars
    requires v in rd.env.value.reverseVars && rd.env.value.reverseVars[v] == varName
    ensures Url(rd, query) == "{{proto}}" + "://" + "{{host}}" + UrlPath(rd, query)
    ensures UrlPath(rd, query) == "/" + (a + "/" + Placeholder(varName))
  {
    var rel := a + "/" + v;
    assert RelativePath(rd.path) == rel by {
      assert rd.path == "/" + rel;
    }
    SubstituteLastSegment(a, v, rd.env.value, varName);
    var p := a + "/" + Placeholder(varName);
    assert p[0] == a[0] && !HasPrefix(p, "/");
  }

  /** In `a/v`, a known value `v` is replaced and an unknown `a` is kept. */
  lemma SubstituteLastSegment(a: string, v: string, env: BrunoEnv, varName: string)
    requires '/' !in a && '/' !in v
    requires a !in env.reverseVars
    requires v in env.reverseVars && env.reverseVars[v] == varName
    ensures SubstitutePath(a + "/" + v, Some(env)) == a + "/" + Placeholder(varName)
  {
    var rel := a + "/" + v;
    assert rel == a + ['/'] + v;
    SplitAppend(a, v, '/');
    assert Split(rel, '/') == [a, v];
    assert SubstituteSegments([a, v], env.reverseVars) == [a, Placeholder(varName)];
    JoinCons(a, [Placeholder(varName)], '/');
  }

  // ---------------------------------------------------------------------------
  // createRequestFile
  // ---------------------------------------------------------------------------

  /** The request name: the path's name and the method, or the method alone for an empty name. */
  function RequestName(verb: string, pathName: string): string {
    if pathName == "" then verb else pathName + "-" + verb
  }

  /** The folder of the request file and the request name it is saved under. */
  function Target(rd: RequestData, disk: Disk): (Dir, string) {
    var (dir, tail) := ResolveFolder(disk.tree, rd.basedir, rd.path);
    (dir, RequestName(rd.verb, PathToName(SubstitutePath(tail, rd.env))))
  }

  /** A request file to be written: its folder, its file name and its text. */
  datatype RequestFile = RequestFile(dir: Dir, fileName: string, content: string)

  /**
   * createRequestFile: resolve the folder, name the request after the rest of
   * the path, substitute the environment into the body and render the file;
   * an existing file of that name is an error and nothing is written.
   */
  method CreateRequestFile(rd: RequestData, disk: Disk, lib: Library) returns (r: Result<RequestFile, (Dir, string)>)
    ensures var (dir, name) := Target(rd, disk);
      && (r.Err? <==> (dir.sub, name + ".bru") in disk.files)
      && (r.Err? ==> r.error == (dir, name + ".bru"))
      && (r.Ok? ==> && r.value.dir == dir && r.value.fileName == name + ".bru"
                    && exists body :: IsEnvToBodyOf(body, rd.body, rd.env)
                         && IsRequestContentOf(r.value.content,
                              rd.(name := name, filesCount := disk.filesCount(dir.sub), body := body), lib))
  {
    var dir, tail := FindRequestFolder(rd.basedir, rd.path, disk.tree);
    tail := EnvToPath(tail, rd.env);
    var name := PathToName(tail);
    var rd' := rd;
    if name == "" {
      rd' := rd'.(name := rd.verb);
    } else {
      rd' := rd'.(name := name + "-" + rd.verb);
    }
    rd' := rd'.(filesCount := disk.filesCount(dir.sub));
    var body := EnvToBody(rd.body, rd.env);
    rd' := rd'.(body := body);

    var content := RequestContent(rd', lib);
    var fileName := rd'.name + ".bru";

    if (dir.sub, fileName) in disk.files {
      return Err((dir, fileName));
    }
    return Ok(RequestFile(dir, fileName, content));
  }

  /** The file name ends in `-<method>.bru`, or is `<method>.bru`, and holds no `/` when the method has none. */
  lemma TargetFileName(rd: RequestData, disk: Disk)
    requires '/' !in rd.verb
    ensures var name := Target(rd, disk).1;
      && '/' !in name
      && |rd.verb| <= |name| && name[|name| - |rd.verb|..] == rd.verb
  {
    var (dir, tail) := ResolveFolder(disk.tree, rd.basedir, rd.path);
    var pathName := PathToName(SubstitutePath(tail, rd.env));
    var name := RequestName(rd.verb, pathName);
    if pathName != "" {
      assert name == pathName + "-" + rd.verb;
      assert forall c :: c in name ==> c in pathName || c == '-' || c in rd.verb;
    }
  }

  /**
   * A path that is exactly an existing folder names the file after the method
   * alone, unless the environment holds a variable whose value is empty (its
   * placeholder then stands for the empty remainder of the path).
   */
  lemma ExactFolderFileName(rd: RequestData, disk: Disk)
    requires TrimmedPath(rd.path) != ""
    requires Split(TrimmedPath(rd.path), '/') in disk.tree.dirs
    requires rd.env.Some? ==> "" !in rd.env.value.reverseVars
    ensures Target(rd, disk).1 == rd.verb
  {
    var segs := Split(TrimmedPath(rd.path), '/');
    assert segs[..|segs|] == segs;
    assert segs[|segs|..] == [];
    var (dir, tail) := ResolveFolder(disk.tree, rd.basedir, rd.path);
    assert tail == "";
    if rd.env.Some? && |rd.env.value.reverseVars| > 0 {
      assert Split("", '/') == [""];
      assert SubstituteSegments([""], rd.env.value.reverseVars) == [""];
    }
  }

  /**
   * Once the file of a request has been written, a second run for the same
   * request finds it in place: by CreateRequestFile's contract that run fails
   * and writes nothing.
   */
  lemma SecondRunCollides(rd: RequestData, disk: Disk)
    ensures var (dir, name) := Target(rd, disk);
      var after := disk.(files := disk.files + {(dir.sub, name + ".bru")});
      Target(rd, after) == (dir, name) && (dir.sub, name + ".bru") in after.files
  {
  }
}
