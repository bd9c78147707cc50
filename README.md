# http2bruno request translation, modelled in Dafny

http2bruno reads a captured HTTP request and writes it as a Bruno request
file (`<name>.bru`) inside a Bruno collection. This project models the
engine that does the translation and proves properties of it:

- **Environment** (`env.go`, module `Env`, file `env.dfy`):
  - `ParseBrunoEnv` is a line scanner. It reads the `vars { … }` block of a
    Bruno environment file into a name → value map and a value → name map.
  - `EnvToPath` replaces each path segment equal to a known value with its
    `{{name}}` placeholder.
  - `EnvToBody` replaces bounded occurrences of known values in a body or
    query, longest value first.
  - `EnvGenerate` and `DefaultEnvBru` write a `vars` block.
- **Block serialisers** (`helpers.go`, module `Helpers`, file
  `helpers.dfy`): `NameBlockMap`, `BlockMap` and `BlockStrings` write the
  `name {\n  k: v\n}\n` text format of `.bru` files.
- **Body handling** (`request.go`, module `Body`, file `body.dfy`):
  - `BodyTypeName` and `BodyTypeFromContentType` classify the body.
  - `ParseBodyUrlEncoded` parses a url-encoded body.
  - `extractBoundary` finds a multipart boundary.
  - `ParseBodyMultipartForm` parses a multipart body.
- **Folder resolution** (`request.go`, module `Folder`, file `folder.dfy`):
  `findRequestFolder` looks for the deepest existing folder under the base
  directory that is a prefix of the request path. It has a second pass for
  the case where the base directory is itself named after the first segment.
- **Request file** (`request.go`, module `Request`, file `request.dfy`):
  - `pathToName` turns the rest of the path into a file name.
  - `requestContent` and `RequestBodyBlock` render the `.bru` text.
  - `createRequestFile` picks the folder and file name, refuses to overwrite
    an existing file, and produces the file to write.

`Wrappers` (`wrappers.dfy`) and `Text` (`text.dfy`) define what the model
uses from Go's standard library: `Option`/`Result`, `strings.Split`,
`strings.Join`, `strings.Cut`, `strings.TrimSpace`, `strings.Trim`,
`strings.ToUpper`, `strings.ToLower`, `strconv.Itoa`, and maps filled by
repeated assignment.

### How Go behaviour is represented

- **Go map iteration order** is not fixed. `BlockMap` picks its keys in an
  arbitrary order, and its contract says the output is the rendering of
  *some* order that lists every key once (`Helpers.IsBlockMapOf`).
  `NameBlockMap`, `requestContent` and `createRequestFile` inherit that
  freedom (`Helpers.IsNameBlockMapOf`, `Request.IsRequestContentOf`).
- **`EnvToBody` ordering.** `sort.Slice` is not stable, so equally long
  values may be handled in any order. `Env.KeysByLength` promises only
  "longest first". `Env.IsEnvToBodyOf` ranges over every such order.
- **Go library functions outside this model** are passed in as a
  `Body.Library` value and treated as total functions that report failure
  as `None`: `mime.ParseMediaType`, `url.QueryUnescape` and
  `multipart.Reader.ReadForm`.
- **The disk** is a `Request.Disk` value with three parts:
  - the directories under the base directory, as segment lists
    (`Folder.Tree`);
  - the last element of the base directory's absolute path;
  - the existing files, and `DirFilesCount` for each folder.
- **`createRequestFile`** returns the `RequestFile` to write (folder, file
  name, text) instead of writing it. On a collision it returns an error
  carrying the colliding folder and file name.
- **A nil `*BrunoEnv`** is `None`.
- **`EnvToBody`** follows the behaviour described by its doc comment
  (`env.go:18-21`) and its tests, not the regular expression it builds; see
  "Left out".
- **Word boundaries in `EnvToBody`.** Each value's pass tests them against
  the text as earlier passes left it, so the `}` of an earlier placeholder
  counts as a boundary.

## Model

| member | source | states |
|---|---|---|
| `Helpers.BlockStrings` | helpers.go:34-46 | the result is the items in order, each as `"  " + x + "\n"`, and `""` for no items |
| `Helpers.BlockMap` | helpers.go:18-32 | the result renders every entry of the map once, as `"  k: v\n"`, in some order of the keys (any order Go's map iteration may give) |
| `Helpers.NameBlockMap` | helpers.go:5-16 | `""` for an empty map; otherwise `name + " {\n"`, a BlockMap rendering of the map, and `"}\n"` |
| `Helpers.ItemsTextAppend` | helpers.go:39-45 | rendering a list of items distributes over concatenation: `BlockStrings(a + b) == BlockStrings(a) + BlockStrings(b)` |
| `Helpers.ItemsTextLength` | helpers.go:39-45 | the length of the rendering is the sum over the items of their length plus three |
| `Helpers.ItemsTextIndent` | helpers.go:40-44 | a non-empty rendering starts with exactly the two-space indentation |
| `Helpers.ItemsTextEmpty` | helpers.go:35-37 | the rendering is empty exactly when there are no items |
| `Helpers.BlockMapHasEntry` | helpers.go:24-30 | every entry of the map has its own `"  k: v\n"` line in the rendered block |
| `Helpers.ItemsTextHasLine` | helpers.go:40-44 | item `i` is rendered as its own line, right after the lines of the items before it |
| `Helpers.KeyOrderLength` | helpers.go:24-30 | a rendering order lists as many keys as the map holds, so a block has one line per entry |
| `Helpers.WrapShape` | helpers.go:10-15 | a named block is five characters longer than its name and body together, opens with `name {` and ends with `}` and a newline |
| `Helpers.NameBlockMapShape` | helpers.go:5-16 | NameBlockMap's result is empty exactly for the empty map; otherwise it opens with `name {` and ends with `}\n` |
| `Env.LineEntry` | env.go:108-114 | a line without a colon gives no entry; otherwise the entry is the text before the first colon and the text after it, both trimmed |
| `Env.InVarsBlockStep` | env.go:88-102 | `vars {` opens the block, `}` closes it, and blank and other lines leave the scanner flag as it was |
| `Env.InVarsBlockMeans` | env.go:82-103 | the scanner is inside a block at a line exactly when some earlier line is `vars {` and no line since is `}` |
| `Env.EnvOfSnoc` | env.go:116-117 | one more entry `k: v` sets `vars[k] = v` and `reverseVars[v] = k` |
| `Env.ParseBrunoEnv` | env.go:75-126 | the two maps are those built, in order, from the entries of the block lines the scanner meets |
| `Env.EnvOfConsistent` | env.go:116-117 | after parsing, every value of `vars` is a key of `reverseVars`, and every value of `reverseVars` is a key of `vars` |
| `Env.EnvOfDistinctValues` | env.go:116-117 | when all values are distinct, `reverseVars[vars[k]] == k` for every name `k` |
| `Env.NoBlockNoEntries` | env.go:84-103 | lines before any `vars {` line produce no entry, so content without a block parses to empty maps |
| `Env.ColonlessLineSkipped` | env.go:108-111 | a line without a colon never adds an entry |
| `Env.LaterLineWins` | env.go:116-117 | a later line for the same name overwrites the earlier one |
| `Env.LaterValueWins` | env.go:116-117 | when several names share a value, `reverseVars[value]` is the name loaded last |
| `Env.EnvToPath` | env.go:51-63 | the identity without an environment or with an empty reverse map; otherwise the path with each `/`-segment substituted |
| `Env.SubstitutePathSegments` | env.go:56-62 | when no variable name holds `/`, the result has as many segments as the path, and segment `i` is `{{reverseVars[seg]}}` when `seg` is a known value and `seg` otherwise |
| `Env.SubstitutePathNoKnownSegment` | env.go:56-62 | a path none of whose segments is a known value is returned unchanged |
| `Env.ReplaceValue` | env.go:39-41 | one pass replaces every non-overlapping, left-to-right occurrence of the value that has no alphanumeric character on either side |
| `Env.RewriteWithoutMatch` | env.go:39-41 | text without a bounded occurrence of the value is copied unchanged |
| `Env.RewriteCopies` | env.go:39-41 | where the value does not match, the pass copies the character and moves on by one |
| `Env.RewriteLastMatch` | env.go:39-41 | a value that ends the text, after a boundary, is replaced by its placeholder |
| `Env.RewriteTrailing` | env.go:39-41 | in text `p + v`, where `p` ends in a non-alphanumeric character and lacks `v`'s first character, only the trailing `v` is replaced |
| `Env.AbsentValueKeepsText` | env.go:39-41 | a value whose first character does not occur in the text finds no match |
| `Env.KeysByLength` | env.go:27-34 | the keys slice lists every known value exactly once, in descending order of length |
| `Env.SortedSoFarStep` | env.go:27-34 | taking a longest remaining value keeps the keys sorted by descending length, each value listed once |
| `Env.LongestExists` | env.go:32-34 | a non-empty set of values has a longest one, so the sort can always take the next key |
| `Env.EnvToBody` | env.go:22-45 | the body unchanged for no environment or an empty body; otherwise the result of one replacement pass per value, in some longest-first order |
| `Env.EnvToBodyNoValues` | env.go:23-25 | with no environment, an empty body or no known values, the body comes back unchanged |
| `Env.LongerValueFirst` | env.go:32-34 | a strictly longer value is always handled before a shorter one |
| `Env.SingleValue` | env.go:36-42 | with one known value, the result is that value's single pass |
| `Env.EmptyValueKeepsBody` | env.go:39-41 | an empty value never matches, so an environment whose only value is empty leaves the body unchanged |
| `Env.EmptyValuePass` | env.go:39-41 | the pass for an empty value copies the text unchanged, so an empty value changes nothing in any order of passes |
| `Env.TwoValueOrder` | env.go:27-34 | with two values of different lengths, the only order used puts the longer one first |
| `Env.TwoPasses` | env.go:36-42 | two values are handled as two passes in sequence, each over the previous pass's output |
| `Env.LongerValueMatchedFirst` | env.go:27-42 | `val=12345` with the values `123` and `12345` becomes `val={{long}}` |
| `Env.LongPass` | env.go:39-41 | the pass for `12345` over `val=12345` gives `val={{long}}` |
| `Env.ShortPass` | env.go:39-41 | the pass for `123` over `val={{long}}` changes nothing |
| `Env.EnvGenerate` | env.go:134-136 | the result is the named block `vars` of the map |
| `Env.DefaultVars` | env.go:139-142 | the default variables are exactly `host` (the name), `proto` (`https`) and `ua` (the fixed browser user agent) |
| `Env.DefaultEnvBru` | env.go:138-145 | the default environment file is the non-empty `vars` block of those three variables |
| `Body.BodyTypeName` | request.go:35-46 | `formUrlEncoded` gives `form-urlencoded`, `multipartForm` gives `multipart-form`, and every other string is returned unchanged |
| `Body.BodyTypeNameIdempotent` | request.go:35-46 | applying BodyTypeName to a label gives the same label |
| `Body.BodyTypeNameInjective` | request.go:36-38 | distinct body types have distinct labels |
| `Body.BodyTypeFromContentType` | request.go:53-77 | `none` for a missing header; otherwise success exactly when the media type parses and is one of the six supported ones, giving its body type |
| `Body.BodyTypeFromContentTypeRange` | request.go:53-77 | every successful classification is one of the six Bruno body types, and it is `none` only for a missing header |
| `Body.MediaTypeAlone` | request.go:58-63 | only the parsed media type decides the body type; parameters do not matter |
| `Body.PieceEntry` | request.go:281-289 | a piece without `=` gives its unescaped key with an empty value; otherwise the key is the text before the first `=` and the value the text after it, both unescaped |
| `Body.UrlEncodedPairs` | request.go:274-280 | no pairs for the empty body; otherwise one pair per `&`-piece, in order |
| `Body.ParseBodyUrlEncoded` | request.go:274-292 | the result is the map built by assigning the body's pairs in order |
| `Body.UrlEncodedStep` | request.go:280-290 | each piece assigns its pair to the map, over what the earlier pieces left |
| `Body.UrlEncodedKeys` | request.go:279-290 | the keys of the result are exactly the unescaped keys of the pieces |
| `Body.UrlEncodedValue` | request.go:280-290 | a key's value comes from the last piece that names it |
| `Body.UrlEncodedSinglePiece` | request.go:281-285 | `k=v` with `v` holding more `=` is split at the first `=` only |
| `Body.BeforeFirst` | request.go:261 | `strings.SplitN(s, sep, 2)[0]` is the prefix of `s` before the first `sep`, or all of `s` |
| `Body.BoundaryLineKeepsDashes` | request.go:261-263 | when the body starts with `--`, so does its first CRLF-terminated line |
| `Body.ExtractBoundaryAsWrittenMeans` | request.go:259-271 | as written, the boundary is the CRLF first line without its `--` when the body starts with `--`, and `""` otherwise; the LF fallback never contributes |
| `Body.ExtractBoundaryLfOnly` | request.go:265-269 | as written, the LF-only body `--b\nx` gets the boundary `b\nx` |
| `Body.ExtractBoundary` | request.go:259-271 | the corrected boundary is `""` when the body does not start with `--`; otherwise `--` + boundary starts the body, the boundary holds no LF, and right after it the body ends, a CRLF starts or a bare LF stands |
| `Body.ExtractBoundaryUnique` | request.go:259-271 | that description has one solution: any LF-free `b` whose `--b` starts the body and is followed by a line end is the corrected boundary |
| `Body.ExtractBoundaryAgrees` | request.go:259-271 | wherever the first CRLF line holds no LF, the corrected boundary equals the one the code computes |
| `Body.ExtractBoundaryLfOnlyFixed` | request.go:265-269 | the corrected boundary of `--b\nx` is `b` |
| `Body.ParseBodyMultipartForm` | request.go:236-256 | the empty map for an empty body or a form that fails to parse; otherwise each value field that has values maps to its first value; the form is read with the corrected boundary (see Left out) |
| `Folder.Deepest` | request.go:338-344 | the found length `i` is the largest one whose prefix `segments[:i]` exists; no prefix beyond it exists |
| `Folder.DeepestNone` | request.go:338-344 | when no prefix exists, the search finds nothing |
| `Folder.FindRequestFolder` | request.go:324-368 | both descending searches, with their early returns, compute ResolveFolder |
| `Folder.SearchFolders` | request.go:338-344 | one descending search returns the deepest existing prefix and the rest of the segments joined by `/`, or nothing |
| `Folder.ResolveEmptyPath` | request.go:330-333 | a path of slashes only gives the base directory (`.` for an empty basedir) and an empty tail |
| `Folder.ResolveDeepest` | request.go:336-344 | when some prefix exists, the folder is the deepest existing prefix, and the tail is the remaining segments joined by `/` |
| `Folder.ResolveSecondPass` | request.go:346-367 | when no prefix exists: if the first segment is not the base directory's name, the result is the base directory and the trimmed path; if it is, the remaining segments are searched the same way, falling back to all of them as the tail |
| `Folder.PassTailSegments` | request.go:341-342 | in a successful search with a non-empty tail, the folder's segments followed by the tail's segments give back the path's segments; with an empty tail (and a non-empty last segment) the folder is all of the segments |
| `Folder.ResolveTailSegments` | request.go:334-367 | when the tail is not empty, the folder's segments and the tail's segments rebuild the trimmed path; when the tail is empty, the folder is the whole trimmed path (the exact-folder case); after the second pass, the base directory's name is put in front |
| `Folder.SecondPassTailSegments` | request.go:353-362 | after the second pass with a non-empty tail, the base directory's name, the folder's segments and the tail's segments rebuild the path's segments; with an empty tail (and a non-empty last segment), the base directory's name and the folder's segments do |
| `Folder.TailSplit` | request.go:341 | splitting the joined remaining segments gives them back |
| `Folder.ResolveNestedExample` | request.go:314-317 | with `a` and `a/b` existing but not `a/b/c`, the path `a/b/c` resolves to folder `a/b` with tail `c` |
| `Request.PathToName` | request.go:299-312 | the file name holds no `/` and is no longer than the path |
| `Request.UpperPlaceholders` | request.go:304-309 | replacing placeholders never lengthens the text |
| `Request.UpperPlaceholdersChars` | request.go:304-309 | every non-word character of the result comes from the text, so no `/` is introduced |
| `Request.WordEnd` | request.go:304 | the `\w+` run ends at the first non-word character |
| `Request.UpperPlaceholdersPlain` | request.go:304-309 | text without `{` is returned unchanged |
| `Request.UpperPlaceholdersPrefix` | request.go:304-309 | text before the first `{` is copied as it is |
| `Request.UpperPlaceholdersCopy` | request.go:304-309 | where no placeholder starts, the character is kept |
| `Request.UpperPlaceholdersReplace` | request.go:304-309 | where `{{word}}` starts, it is replaced by the word in upper case and the scan resumes after `}}` |
| `Request.PathToNamePlain` | request.go:299-312 | a path without `{` only has its `/` turned into `-`; in particular `pathToName("") == ""` |
| `Request.PathToNameTrailingPlaceholder` | request.go:294-312 | `prefix/{{word}}` becomes the prefix with dashes, followed by the word in upper case (`api/users/{{user_id}}` gives `api-users-USER_ID`) |
| `Request.PlaceholderTail` | request.go:305-309 | a placeholder at the end of the text becomes its name in upper case |
| `Request.PlaceholderMatch` | request.go:304 | the pattern matches `{{word}}`, and its capture is exactly the word |
| `Request.WordEndOver` | request.go:304 | the word run ends exactly at the first non-word character |
| `Request.RequestBodyBlock` | request.go:213-233 | a url-encoded body gives the `body:form-urlencoded` block of its parsed pairs; a multipart body gives the `body:multipart-form` block of its parsed form; any other body gives a block named after the body type, holding the raw body as its single line |
| `Request.RawBodyBlock` | request.go:220 | a raw body block is exactly `type {\n  <body>\n}\n` |
| `Request.UrlEncodedBodyBlock` | request.go:223-227 | every parsed key of a url-encoded body has its `key: value` line in the body block |
| `Request.DocItems` | request.go:200-206 | the `- [ ] body params` item is on the check-list exactly when the body type is not `none` |
| `Request.RequestUrl` | request.go:168-189 | the URL is the scheme placeholder, `://`, the host placeholder, the substituted path rooted at `/`, and `?` plus the substituted query when the raw query is not empty |
| `Request.RequestContent` | request.go:157-211 | the text is, in order: the meta block, the request block (named after the lower-case method), the settings block, the body block unless the type is `none`, and the docs block; each is one its serialiser may produce |
| `Request.SingleEntryBlock` | helpers.go:5-30 | a block of a one-entry map is fully determined: `name {`, the entry's line, `}` |
| `Request.ContentMeta` | request.go:160-166 | the file opens with `meta {`; it has a `name` line and a `seq` line, and the seq line holds the decimal digits of the folder's file count plus one |
| `Request.MetaBlock` | request.go:160-165 | the meta block opens with `meta {` and has a line for the name and one for the sequence number |
| `Request.NamedBlockLine` | helpers.go:5-30 | every entry of a named key/value block is one of its lines, and the block opens with `name {` |
| `Request.ContentSettings` | request.go:195-198 | the settings block is exactly `settings {`, `  encodeUrl: false`, `}` |
| `Request.ContentDocs` | request.go:200-208 | the text ends with the docs block, whose check-list includes body params exactly when the body type is not `none` |
| `Request.AssembledSuffix` | request.go:208-210 | the assembled text ends with the docs block |
| `Request.UrlPathRooted` | request.go:169-176 | the URL path always starts with `/` |
| `Request.UrlWithoutEnv` | request.go:177-189 | without an environment, the URL is `://`, the path rooted at `/`, and `?` plus the raw query when there is one |
| `Request.UrlWithEnvSegment` | request.go:173-189 | with an environment, `/a/v`, where `v` is the value of `user_id`, gives `{{proto}}://{{host}}/a/{{user_id}}` |
| `Request.SubstituteLastSegment` | env.go:56-62 | in `a/v`, a known value `v` is replaced and an unknown `a` is kept |
| `Request.CreateRequestFile` | request.go:131-155 | an error exactly when the target file exists, carrying that folder and file name; otherwise the target folder, `name.bru`, and a text rendered with the request name, the folder's file count and the substituted body |
| `Request.TargetFileName` | request.go:134-139 | the request name holds no `/` and ends with the method (`name-METHOD` or `METHOD`) |
| `Request.ExactFolderFileName` | request.go:132-139 | a path that is exactly an existing folder names the request after the method alone, provided no variable has an empty value |
| `Request.SecondRunCollides` | request.go:146-148 | after the file is written, a second run for the same request targets the same file and finds it in place |
| `Text.ItoaNat` | request.go:162 | the sequence number `strconv.Itoa(n)` of a natural number is its decimal digits, with no leading zero, and has the value `n` |

## Left out

- `DoRequest` (`request.go:79-129`) and `ParseRawRequest`
  (`request.go:371-395`) are left out. They read standard input, parse
  HTTP with `net/http`, and echo the request back to standard output.
- `EnvFromFile` (`env.go:65-72`) is left out: it reads a file and then calls
  `ParseBrunoEnv`, which is modelled.
- Env.ParseBrunoEnv: never fails. The `bufio.Scanner` error for a line over
  64 KiB (`env.go:121-123`) is not modelled.
- The `EnvToBody` regular expression uses a lookbehind, which Go's RE2
  engine rejects at `regexp.MustCompile` (`env.go:39-40`), so the code as
  written panics whenever a value is processed.
  - `Env.EnvToBody` models the documented behaviour instead: a bounded,
    literal, left-to-right replacement.
  - The panic itself is not modelled.
- The order in which `EnvToBody` handles equally long values is left open:
  it comes from `sort.Slice` over map keys.
- The host-mismatch warning on standard error (`request.go:186-188`) is
  output only. The captured `*http.Request` it reads is left out of
  `RequestData`.
- `os.Stat`, `os.WriteFile` and their errors in `createRequestFile`
  (`request.go:146-152`) are left out.
  - A collision is membership in `Disk.files`.
  - A write failure is not modelled.
  - The error carries the folder and the file name instead of Go's message
    text.
- `filepath.Join`, `filepath.Abs` and `filepath.Base` cleaning rules are
  left out.
  - Folders are segment lists below the base directory.
  - The base directory's name is an input. It is `None` when `filepath.Abs`
    fails.
  - The model does not catch paths with `.`, `..` or empty segments that
    `filepath.Join` would clean into another existing folder.
- `mime.ParseMediaType`, `url.QueryUnescape` and `multipart.Reader.ReadForm`
  are parameters (`Body.Library`): they are Go library code.
  - The model keeps the discarded `QueryUnescape` error: a failed unescape
    gives `""`.
  - The 10 MB memory bound of `ReadForm` and the removal of temporary files
    are not modelled.
- `strings.ToUpper` and `strings.ToLower` are modelled on ASCII letters only.
  So are the method name in the request block and the placeholder names in
  `pathToName`. Go's full Unicode case mapping is not modelled.
- `MetaGenerate`, `NameBlockStrings` and `DirFilesCount` are called by
  `request.go` but defined in a file that is not part of this model.
  - `MetaGenerate` is taken to be the named block `meta` of its map.
  - `NameBlockStrings` follows its tests (`helpers_test.go:80-146`): `""` for
    no items, otherwise the named block of the items.
  - `DirFilesCount` is the `Disk.filesCount` input.
- `structure.go`, `collection.go`, `folder.go` and `main.go` are not part of
  this model. They hold the collection scaffolding, JSON marshalling and the
  command line.
- `EnvToPath` substitutes an empty segment when some variable has an empty
  value. This includes the empty tail of a path that is exactly an existing
  folder. Such a request is then named `KEY-METHOD` rather than `METHOD`.
  The model keeps this behaviour, and `Request.ExactFolderFileName` excludes
  it in its precondition.
- Body.ParseBodyMultipartForm: reads the form with the corrected boundary
  `Body.ExtractBoundary`, where `request.go:242` passes `extractBoundary` as
  written. The two differ only on bodies whose first line ends in a bare
  LF (see "Findings"); there the code as written hands `ReadForm` the rest
  of the body as boundary. `Body.ExtractBoundaryAgrees` proves they agree
  on every other body.
- Request.RequestBodyBlock, Request.RequestContent and
  Request.CreateRequestFile: for a multipart body they inherit the corrected
  boundary from `Body.ParseBodyMultipartForm`, so on LF-only multipart
  bodies they describe the repaired program, not the code as written.
- Request.PathToName: the full "each `{{word}}` becomes `WORD`" rewrite is
  stated by `Request.UpperPlaceholders` and the lemmas about it. It is
  proved for plain paths and for a trailing placeholder, not as a closed
  form for every path.

## Findings

| source | as written | input that shows it | evidently intended | confidence | as-written member | corrected member |
|---|---|---|---|---|---|---|
| request.go:259-271 | The first line is cut at the first CRLF. For a body with LF line endings, that line is the whole body, and it starts with `--`, so the LF fallback at lines 265-269 is never reached. The boundary then holds the rest of the body. | the body `--b\nx` (LF line endings) gets the boundary `b\nx` | the boundary is the first line (CRLF or LF terminated) without its `--`, so `b` | not executed | `Body.ExtractBoundaryLfOnly` | `Body.ExtractBoundaryLfOnlyFixed` |

`Body.ExtractBoundaryAsWritten` models the code as written, and
`Body.ExtractBoundaryAsWrittenMeans` proves that its LF branch is dead.
`Body.ExtractBoundary` is the corrected definition. Its contract pins the
boundary's end, and `Body.ExtractBoundaryUnique` proves that contract has
exactly one solution. `Body.ParseBodyMultipartForm` uses it, as "Left out"
records, and `Body.ExtractBoundaryAgrees` proves it agrees with the code
wherever the first line ends in CRLF.
