/**
 * The environment store and the substitution engine of env.go: parsing the
 * `vars { … }` block of a Bruno environment file into a forward and a reverse
 * map, and replacing known values by `{{name}}` placeholders in paths and bodies.
 */
module Env {
  import opened Wrappers
  import opened Text
  import Helpers

  /** BrunoEnv: name → value and value → name. A nil *BrunoEnv is `None`. */
  datatype BrunoEnv = BrunoEnv(vars: map<string, string>, reverseVars: map<string, string>)

  /** The text that stands for variable `name`. */
  function Placeholder(name: string): string {
    "{{" + name + "}}"
  }

  // ---------------------------------------------------------------------------
  // ParseBrunoEnv
  // ---------------------------------------------------------------------------

  /**
   * The lines a `bufio.Scanner` yields, each passed through `strings.TrimSpace`.
   * Splitting at every newline gives the scanner's lines up to a trailing
   * carriage return and a final empty line; both vanish under the trimming.
   */
  function Lines(content: string): (lines: seq<string>)
    ensures |lines| == |Split(content, '\n')|
    ensures forall i :: 0 <= i < |lines| ==> lines[i] == TrimSpace(Split(content, '\n')[i])
  {
    var raw := Split(content, '\n');
    seq(|raw|, i requires 0 <= i < |raw| => TrimSpace(raw[i]))
  }

  /** A trimmed line that opens the vars block. */
  predicate Opens(line: string) {
    line == "vars {"
  }

  /** A trimmed line that closes it. */
  predicate Closes(line: string) {
    line == "}"
  }

  /**
   * The scanner is inside a vars block when it reaches line `i`: the previous
   * line opened one, or it was already inside and the previous line did not close it.
   */
  predicate InVarsBlock(lines: seq<string>, i: nat)
    requires i <= |lines|
  {
    i > 0 && (Opens(lines[i - 1]) || (!Closes(lines[i - 1]) && InVarsBlock(lines, i - 1)))
  }

  /** The entry a trimmed line inside the block stands for: split at the first colon, both halves trimmed. */
  function LineEntry(line: string): (e: Option<(string, string)>)
    ensures e.None? <==> ':' !in line
    ensures e.Some? ==> exists k, v :: line == k + ":" + v && ':' !in k
                                       && e.value == (TrimSpace(k), TrimSpace(v))
  {
    match Cut(line, ':')
    case None => None
    case Some((k, v)) => Some((TrimSpace(k), TrimSpace(v)))
  }

  /** The entries produced by the first `n` lines, in order. */
  ghost function BlockEntries(lines: seq<string>, n: nat): seq<(string, string)>
    requires n <= |lines|
  {
    if n == 0 then []
    else
      var e := LineEntry(lines[n - 1]);
      BlockEntries(lines, n - 1) + if InVarsBlock(lines, n - 1) && e.Some? then [e.value] else []
  }

  /** Each pair `(k, v)` as `(v, k)`. */
  function Swapped(ps: seq<(string, string)>): (r: seq<(string, string)>)
    ensures |r| == |ps|
    ensures forall i :: 0 <= i < |ps| ==> r[i] == (ps[i].1, ps[i].0)
  {
    seq(|ps|, i requires 0 <= i < |ps| => (ps[i].1, ps[i].0))
  }

  /** The environment built from a list of entries, later entries overwriting earlier ones. */
  function EnvOf(entries: seq<(string, string)>): BrunoEnv {
    BrunoEnv(FromPairs(entries), FromPairs(Swapped(entries)))
  }

  /** Some line before `i` is `vars {` and no line since is `}`. */
  ghost predicate OpenSince(lines: seq<string>, i: nat)
    requires i <= |lines|
  {
    exists j :: 0 <= j < i && Opens(lines[j]) && forall m :: j < m < i ==> !Closes(lines[m])
  }

  /** A `}` line that is not `vars {` leaves no block open behind it. */
  lemma ClosingLineEndsBlock(lines: seq<string>, i: nat)
    requires 0 < i <= |lines|
    requires !Opens(lines[i - 1]) && Closes(lines[i - 1])
    ensures !OpenSince(lines, i)
  {
    forall j | 0 <= j < i && Opens(lines[j])
      ensures j < i - 1
    {
      assert lines[j] != lines[i - 1];
    }
  }

  /** Any other line leaves the open/closed state as it was. */
  lemma PlainLineKeepsBlock(lines: seq<string>, i: nat)
    requires 0 < i <= |lines|
    requires !Opens(lines[i - 1]) && !Closes(lines[i - 1])
    ensures OpenSince(lines, i) <==> OpenSince(lines, i - 1)
  {
    if OpenSince(lines, i - 1) {
      var j :| 0 <= j < i - 1 && Opens(lines[j]) && forall m :: j < m < i - 1 ==> !Closes(lines[m]);
      assert forall m :: j < m < i ==> !Closes(lines[m]);
    }
    if OpenSince(lines, i) {
      var j :| 0 <= j < i && Opens(lines[j]) && forall m :: j < m < i ==> !Closes(lines[m]);
      OpenLineBefore(lines, i, j);
    }
  }

  lemma OpenLineBefore(lines: seq<string>, i: nat, j: nat)
    requires 0 <= j < i <= |lines|
    requires !Opens(lines[i - 1]) && Opens(lines[j])
    requires forall m :: j < m < i ==> !Closes(lines[m])
    ensures OpenSince(lines, i - 1)
  {
    assert j != i - 1;
  }

  /**
   * The scanner flag, stated without the scanner: line `i` is inside a block
   * exactly when some earlier line is `vars {` and no line since is `}`.
   */
  lemma {:induction false} InVarsBlockMeans(lines: seq<string>, i: nat)
    requires i <= |lines|
    ensures InVarsBlock(lines, i) <==> OpenSince(lines, i)
  {
    if i > 0 {
      InVarsBlockMeans(lines, i - 1);
      if Opens(lines[i - 1]) {
        assert 0 <= i - 1 < i && Opens(lines[i - 1]);
      } else if Closes(lines[i - 1]) {
        ClosingLineEndsBlock(lines, i);
      } else {
        PlainLineKeepsBlock(lines, i);
      }
    }
  }

  /** Assigning one more entry updates both maps. */
  lemma EnvOfSnoc(entries: seq<(string, string)>, k: string, v: string)
    ensures EnvOf(entries + [(k, v)])
         == BrunoEnv(EnvOf(entries).vars[k := v], EnvOf(entries).reverseVars[v := k])
  {
    var ps := entries + [(k, v)];
    assert ps[..|ps| - 1] == entries;
    assert Swapped(ps) == Swapped(entries) + [(v, k)];
    assert Swapped(ps)[..|ps| - 1] == Swapped(entries);
  }

  /** How the scanner flag moves across line `i`. */
  lemma InVarsBlockStep(lines: seq<string>, i: nat)
    requires i < |lines|
    ensures lines[i] == "vars {" ==> InVarsBlock(lines, i + 1)
    ensures lines[i] == "}" ==> !InVarsBlock(lines, i + 1)
    ensures lines[i] != "vars {" && lines[i] != "}" ==> InVarsBlock(lines, i + 1) == InVarsBlock(lines, i)
    ensures lines[i] == "" ==> InVarsBlock(lines, i + 1) == InVarsBlock(lines, i)
  {
  }

  lemma BlockEntriesStep(lines: seq<string>, i: nat)
    requires i < |lines|
    ensures var t := lines[i];
      BlockEntries(lines, i + 1) == BlockEntries(lines, i) +
        if InVarsBlock(lines, i) && t != "" && t != "vars {" && t != "}" && LineEntry(t).Some?
        then [LineEntry(t).value] else []
  {
    var t := lines[i];
    if t == "" || t == "vars {" || t == "}" {
      assert ':' !in t;
    }
  }

  /**
   * ParseBrunoEnv: a line scanner with an `inVarsBlock` flag that fills both
   * maps from the trimmed `key: value` lines of the block.
   */
  method ParseBrunoEnv(content: string) returns (env: BrunoEnv)
    ensures env == EnvOf(BlockEntries(Lines(content), |Lines(content)|))
  {
    var lines := Lines(content);
    var vars: map<string, string> := map[];
    var reverseVars: map<string, string> := map[];
    var inVarsBlock := false;
    ghost var entries: seq<(string, string)> := [];
    for i := 0 to |lines|
      invariant inVarsBlock == InVarsBlock(lines, i)
      invariant entries == BlockEntries(lines, i)
      invariant BrunoEnv(vars, reverseVars) == EnvOf(entries)
    {
      InVarsBlockStep(lines, i);
      BlockEntriesStep(lines, i);
      var line := lines[i];
      if line == "" {
        // blank lines are skipped
      } else if line == "vars {" {
        inVarsBlock := true;
      } else if line == "}" && inVarsBlock {
        inVarsBlock := false;
      } else if inVarsBlock {
        var entry := LineEntry(line);
        if entry.Some? {
          var (k, v) := entry.value;
          EnvOfSnoc(entries, k, v);
          vars := vars[k := v];
          reverseVars := reverseVars[v := k];
          entries := entries + [(k, v)];
        }
      }
    }
    env := BrunoEnv(vars, reverseVars);
  }

  // ---------------------------------------------------------------------------
  // Properties of parsed environments
  // ---------------------------------------------------------------------------

  /** Every value is a known reverse key and every reverse value a known name. */
  ghost predicate Consistent(env: BrunoEnv) {
    && (forall k :: k in env.vars ==> env.vars[k] in env.reverseVars)
    && (forall v :: v in env.reverseVars ==> env.reverseVars[v] in env.vars)
  }

  /** An environment built from entries keeps both maps in step. */
  lemma EnvOfConsistent(entries: seq<(string, string)>)
    ensures Consistent(EnvOf(entries))
  {
    var env := EnvOf(entries);
    forall k | k in env.vars ensures env.vars[k] in env.reverseVars {
      FromPairsValue(entries, k);
      var j :| 0 <= j < |entries| && entries[j] == (k, env.vars[k]);
      assert Swapped(entries)[j] in Swapped(entries);
    }
    forall v | v in env.reverseVars ensures env.reverseVars[v] in env.vars {
      FromPairsValue(Swapped(entries), v);
      var j :| 0 <= j < |entries| && Swapped(entries)[j] == (v, env.reverseVars[v]);
      assert entries[j] in entries;
    }
  }

  /** When no two entries share a value, the reverse map undoes the forward map. */
  lemma EnvOfDistinctValues(entries: seq<(string, string)>)
    requires forall a, b :: 0 <= a < b < |entries| ==> entries[a].1 != entries[b].1
    ensures var env := EnvOf(entries);
      forall k :: k in env.vars ==> env.vars[k] in env.reverseVars && env.reverseVars[env.vars[k]] == k
  {
    var env := EnvOf(entries);
    forall k | k in env.vars
      ensures env.vars[k] in env.reverseVars && env.reverseVars[env.vars[k]] == k
    {
      FromPairsValue(entries, k);
      var j :| 0 <= j < |entries| && entries[j] == (k, env.vars[k]);
      FromPairsLastWins(Swapped(entries), j);
    }
  }

  /** Lines before the first `vars {` line produce nothing: content without one parses to empty maps. */
  lemma {:induction false} NoBlockNoEntries(lines: seq<string>, n: nat)
    requires n <= |lines|
    requires forall i :: 0 <= i < n ==> !Opens(lines[i])
    ensures BlockEntries(lines, n) == []
  {
    if n > 0 {
      NoBlockNoEntries(lines, n - 1);
      InVarsBlockMeans(lines, n - 1);
    }
  }

  /** A line without a colon never produces an entry, inside a block or not. */
  lemma ColonlessLineSkipped(lines: seq<string>, i: nat)
    requires i < |lines|
    requires ':' !in lines[i]
    ensures BlockEntries(lines, i + 1) == BlockEntries(lines, i)
  {
  }

  /** A later line for the same name overwrites the earlier one. */
  lemma LaterLineWins(entries: seq<(string, string)>, j: nat)
    requires j < |entries|
    requires forall m :: j < m < |entries| ==> entries[m].0 != entries[j].0
    ensures EnvOf(entries).vars[entries[j].0] == entries[j].1
  {
    FromPairsLastWins(entries, j);
  }

  /** When two names share a value, the reverse map keeps the name loaded last. */
  lemma LaterValueWins(entries: seq<(string, string)>, j: nat)
    requires j < |entries|
    requires forall m :: j < m < |entries| ==> entries[m].1 != entries[j].1
    ensures entries[j].1 in EnvOf(entries).reverseVars
    ensures EnvOf(entries).reverseVars[entries[j].1] == entries[j].0
  {
    FromPairsLastWins(Swapped(entries), j);
  }

  // ---------------------------------------------------------------------------
  // EnvToPath
  // ---------------------------------------------------------------------------

  /** One path segment: its placeholder when it is a known value, itself otherwise. */
  function SubstituteSegment(seg: string, reverseVars: map<string, string>): string {
    if seg in reverseVars then Placeholder(reverseVars[seg]) else seg
  }

  function SubstituteSegments(parts: seq<string>, reverseVars: map<string, string>): (r: seq<string>)
    ensures |r| == |parts|
    ensures forall i :: 0 <= i < |parts| ==> r[i] == SubstituteSegment(parts[i], reverseVars)
  {
    seq(|parts|, i requires 0 <= i < |parts| => SubstituteSegment(parts[i], reverseVars))
  }

  /** What EnvToPath computes. */
  function SubstitutePath(path: string, env: Option<BrunoEnv>): string {
    if env.None? || |env.value.reverseVars| == 0 then path
    else Join(SubstituteSegments(Split(path, '/'), env.value.reverseVars), '/')
  }

  /** EnvToPath: each `/`-separated segment equal to a known value becomes its placeholder. */
  method EnvToPath(path: string, env: Option<BrunoEnv>) returns (r: string)
    ensures r == SubstitutePath(path, env)
  {
    if env.None? || |env.value.reverseVars| == 0 {
      return path;
    }
    var reverseVars := env.value.reverseVars;
    var parts := Split(path, '/');
    ghost var original := parts;
    for i := 0 to |parts|
      invariant |parts| == |original|
      invariant forall j :: 0 <= j < i ==> parts[j] == SubstituteSegment(original[j], reverseVars)
      invariant forall j :: i <= j < |parts| ==> parts[j] == original[j]
    {
      if parts[i] in reverseVars {
        parts := parts[i := "{{" + reverseVars[parts[i]] + "}}"];
      }
    }
    assert parts == SubstituteSegments(original, reverseVars);
    r := Join(parts, '/');
  }

  /**
   * With a non-empty environment whose names hold no `/`, the result has as many
   * segments as the path, each the substituted segment of the path.
   */
  lemma SubstitutePathSegments(path: string, env: BrunoEnv)
    requires |env.reverseVars| > 0
    requires forall v :: v in env.reverseVars ==> '/' !in env.reverseVars[v]
    ensures var parts := Split(path, '/');
      Split(SubstitutePath(path, Some(env)), '/') == SubstituteSegments(parts, env.reverseVars)
  {
    var parts := Split(path, '/');
    var subst := SubstituteSegments(parts, env.reverseVars);
    forall i | 0 <= i < |subst| ensures '/' !in subst[i] {
      if parts[i] in env.reverseVars {
        assert subst[i] == "{{" + env.reverseVars[parts[i]] + "}}";
      }
    }
    SplitJoin(subst, '/');
  }

  /** A path none of whose segments is a known value comes back unchanged. */
  lemma SubstitutePathNoKnownSegment(path: string, env: BrunoEnv)
    requires forall i :: 0 <= i < |Split(path, '/')| ==> Split(path, '/')[i] !in env.reverseVars
    ensures SubstitutePath(path, Some(env)) == path
  {
    var parts := Split(path, '/');
    assert SubstituteSegments(parts, env.reverseVars) == parts;
    JoinSplit(path, '/');
  }

  // ---------------------------------------------------------------------------
  // EnvToBody
  // ---------------------------------------------------------------------------

  /**
   * A non-empty `v` occurs at `i` with neither neighbour alphanumeric; the start
   * and the end of the text count as boundaries.
   */
  predicate MatchAt(s: string, v: string, i: nat) {
    && |v| > 0
    && i + |v| <= |s|
    && s[i..i + |v|] == v
    && (i == 0 || !IsAlnum(s[i - 1]))
    && (i + |v| == |s| || !IsAlnum(s[i + |v|]))
  }

  /** The left-to-right, non-overlapping replacement of the matches of `v` from position `i` on. */
  function Rewrite(s: string, v: string, rep: string, i: nat): string
    requires i <= |s|
    decreases |s| - i
  {
    if i == |s| then ""
    else if MatchAt(s, v, i) then rep + Rewrite(s, v, rep, i + |v|)
    else [s[i]] + Rewrite(s, v, rep, i + 1)
  }

  /** One pass of EnvToBody: replace every bounded occurrence of `v` by `rep`. */
  method ReplaceValue(s: string, v: string, rep: string) returns (r: string)
    ensures r == Rewrite(s, v, rep, 0)
  {
    r := "";
    var i := 0;
    while i < |s|
      invariant i <= |s|
      invariant r + Rewrite(s, v, rep, i) == Rewrite(s, v, rep, 0)
      decreases |s| - i
    {
      if MatchAt(s, v, i) {
        r := r + rep;
        i := i + |v|;
      } else {
        r := r + [s[i]];
        i := i + 1;
      }
    }
  }

  /** Text with no bounded occurrence of `v` from `i` on is copied unchanged. */
  lemma {:induction false} RewriteWithoutMatch(s: string, v: string, rep: string, i: nat)
    requires i <= |s|
    requires forall j :: i <= j < |s| ==> !MatchAt(s, v, j)
    ensures Rewrite(s, v, rep, i) == s[i..]
    decreases |s| - i
  {
    if i < |s| {
      RewriteWithoutMatch(s, v, rep, i + 1);
    }
  }

  /** The values in an order EnvToBody may use: each once, longest first. */
  ghost predicate IsLengthOrder(order: seq<string>, reverseVars: map<string, string>) {
    && (forall i :: 0 <= i < |order| ==> order[i] in reverseVars)
    && (forall i, j :: 0 <= i < j < |order| ==> order[i] != order[j])
    && (forall v :: v in reverseVars ==> v in order)
    && (forall i, j :: 0 <= i < j < |order| ==> |order[i]| >= |order[j]|)
  }

  /** The body after one pass per value of `order`, in that order. */
  function SubstituteAll(body: string, reverseVars: map<string, string>, order: seq<string>): string
    requires forall i :: 0 <= i < |order| ==> order[i] in reverseVars
    decreases |order|
  {
    if |order| == 0 then body
    else
      var v := order[|order| - 1];
      Rewrite(SubstituteAll(body, reverseVars, order[..|order| - 1]), v, Placeholder(reverseVars[v]), 0)
  }

  /** `r` is a result EnvToBody may return (the order among equally long values is not fixed). */
  ghost predicate IsEnvToBodyOf(r: string, body: string, env: Option<BrunoEnv>) {
    if env.None? || body == "" then r == body
    else exists order :: IsLengthOrder(order, env.value.reverseVars)
                         && r == SubstituteAll(body, env.value.reverseVars, order)
  }

  /** A non-empty finite set of strings has a longest element. */
  lemma LongestExists(s: set<string>)
    requires s != {}
    ensures exists v :: v in s && forall w :: w in s ==> |w| <= |v|
  {
    var x :| x in s;
    if s != {x} {
      LongestExists(s - {x});
      var y :| y in s - {x} && forall w :: w in s - {x} ==> |w| <= |y|;
      if |x| > |y| {
        assert forall w :: w in s ==> |w| <= |x|;
      } else {
        assert forall w :: w in s ==> |w| <= |y|;
      }
    } else {
      assert forall w :: w in s ==> |w| <= |x|;
    }
  }

  /**
   * The `keys` slice of EnvToBody: every value of `reverseVars` once, sorted by
   * descending length. Go's `sort.Slice` is not stable and map iteration order
   * is not fixed, so among equally long values any order may come out.
   */
  method KeysByLength(reverseVars: map<string, string>) returns (keys: seq<string>)
    ensures IsLengthOrder(keys, reverseVars)
  {
    var rest := reverseVars.Keys;
    keys := [];
    while rest != {}
      invariant SortedSoFar(keys, rest, reverseVars)
      decreases rest
    {
      LongestExists(rest);
      var value :| value in rest && forall w :: w in rest ==> |w| <= |value|;
      SortedSoFarStep(keys, rest, reverseVars, value);
      keys := keys + [value];
      rest := rest - {value};
    }
  }

  /**
   * The loop state of KeysByLength: `keys` lists the values taken so far, each
   * once, and `rest` the others; `keys` is sorted and nothing in `rest` is longer.
   */
  ghost predicate SortedSoFar(keys: seq<string>, rest: set<string>, reverseVars: map<string, string>) {
    Helpers.VisitedSoFar(keys, rest, reverseVars) && LongestFirst(keys, rest)
  }

  /** `keys` is in descending order of length and no element of `rest` is longer than any of them. */
  ghost predicate LongestFirst(keys: seq<string>, rest: set<string>) {
    && (forall i, j :: 0 <= i < j < |keys| ==> |keys[i]| >= |keys[j]|)
    && (forall i, w :: 0 <= i < |keys| && w in rest ==> |w| <= |keys[i]|)
  }

  /** Taking a longest remaining value keeps the loop state. */
  lemma SortedSoFarStep(keys: seq<string>, rest: set<string>, reverseVars: map<string, string>, value: string)
    requires SortedSoFar(keys, rest, reverseVars)
    requires value in rest && forall w :: w in rest ==> |w| <= |value|
    ensures SortedSoFar(keys + [value], rest - {value}, reverseVars)
  {
    Helpers.VisitedSoFarStep(keys, rest, reverseVars, value);
    LongestFirstStep(keys, rest, value);
  }

  lemma LongestFirstStep(keys: seq<string>, rest: set<string>, value: string)
    requires LongestFirst(keys, rest)
    requires value in rest && forall w :: w in rest ==> |w| <= |value|
    ensures LongestFirst(keys + [value], rest - {value})
  {
    var keys' := keys + [value];
    assert forall i :: 0 <= i < |keys| ==> keys'[i] == keys[i];
    assert keys'[|keys|] == value;
  }

  /**
   * EnvToBody: the documented behaviour of env.go. Values are taken longest
   * first; each pass replaces all bounded occurrences of one value in the text
   * left by the previous passes.
   */
  method EnvToBody(body: string, env: Option<BrunoEnv>) returns (r: string)
    ensures IsEnvToBodyOf(r, body, env)
  {
    if env.None? || body == "" {
      return body;
    }
    var reverseVars := env.value.reverseVars;
    var keys := KeysByLength(reverseVars);
    r := body;
    for i := 0 to |keys|
      invariant r == SubstituteAll(body, reverseVars, keys[..i])
    {
      var value := keys[i];
      r := ReplaceValue(r, value, "{{" + reverseVars[value] + "}}");
      assert keys[..i + 1][..i] == keys[..i];
    }
    assert keys[..|keys|] == keys;
  }

  /** With no known values the body comes back unchanged. */
  lemma EnvToBodyNoValues(r: string, body: string, env: Option<BrunoEnv>)
    requires IsEnvToBodyOf(r, body, env)
    requires env.None? || |env.value.reverseVars| == 0
    ensures r == body
  {
    if env.Some? && body != "" {
      var order :| IsLengthOrder(order, env.value.reverseVars)
                   && r == SubstituteAll(body, env.value.reverseVars, order);
      assert |order| == 0;
    }
  }

  /** An order EnvToBody uses takes a strictly longer value before a shorter one. */
  lemma LongerValueFirst(order: seq<string>, reverseVars: map<string, string>, i: nat, j: nat)
    requires IsLengthOrder(order, reverseVars)
    requires i < |order| && j < |order|
    requires |order[i]| > |order[j]|
    ensures i < j
  {
  }

  /** The one pass of the only value `v` that the environment knows. */
  lemma SingleValue(r: string, body: string, v: string, name: string, vars: map<string, string>)
    requires body != ""
    requires IsEnvToBodyOf(r, body, Some(BrunoEnv(vars, map[v := name])))
    ensures r == Rewrite(body, v, Placeholder(name), 0)
  {
    var rv := map[v := name];
    var order :| IsLengthOrder(order, rv) && r == SubstituteAll(body, rv, order);
    assert v in order;
    assert forall i :: 0 <= i < |order| ==> order[i] == v;
    assert |order| == 1 by {
      Helpers.DistinctCard(order);
      assert (set x | x in order) == {v};
    }
    assert order == [v];
    assert order[..0] == [];
    assert SubstituteAll(body, rv, order[..0]) == body;
    assert rv[v] == name;
  }

  /** An empty value never matches: an environment whose only value is empty leaves the body as it is. */
  lemma EmptyValueKeepsBody(r: string, body: string, name: string, vars: map<string, string>)
    requires IsEnvToBodyOf(r, body, Some(BrunoEnv(vars, map["" := name])))
    ensures r == body
  {
    if body != "" {
      SingleValue(r, body, "", name, vars);
      EmptyValuePass(body, Placeholder(name), 0);
    }
  }

  /** The pass for an empty value is the identity, whatever other values the environment holds. */
  lemma {:induction false} EmptyValuePass(s: string, rep: string, i: nat)
    requires i <= |s|
    ensures Rewrite(s, "", rep, i) == s[i..]
  {
    RewriteWithoutMatch(s, "", rep, i);
  }

  /**
   * A value at the end of the text, preceded by a boundary character and by
   * text that does not hold its first character, is the only match.
   */
  lemma {:induction false} RewriteTrailing(p: string, v: string, rep: string, i: nat)
    requires i <= |p|
    requires |v| > 0 && |p| > 0 && !IsAlnum(p[|p| - 1]) && v[0] !in p
    ensures Rewrite(p + v, v, rep, i) == p[i..] + rep
    decreases |p| - i
  {
    if i == |p| {
      RewriteLastMatch(p + v, v, rep, i);
      assert p[i..] == "";
    } else {
      NoMatchBeforeValue(p, v, i);
      RewriteCopies(p + v, v, rep, i);
      RewriteTrailing(p, v, rep, i + 1);
      assert (p + v)[i] == p[i];
      assert p[i..] == [p[i]] + p[i + 1..];
    }
  }

  /** Where the value does not match, the character is copied. */
  lemma RewriteCopies(s: string, v: string, rep: string, i: nat)
    requires i < |s| && !MatchAt(s, v, i)
    ensures Rewrite(s, v, rep, i) == [s[i]] + Rewrite(s, v, rep, i + 1)
  {
  }

  /** The value that ends the text after a boundary is replaced there. */
  lemma RewriteLastMatch(s: string, v: string, rep: string, i: nat)
    requires |v| > 0 && i + |v| == |s| && s[i..] == v
    requires i == 0 || !IsAlnum(s[i - 1])
    ensures Rewrite(s, v, rep, i) == rep
  {
    assert s[i..i + |v|] == v;
    assert MatchAt(s, v, i);
  }

  /** Inside text that lacks the value's first character, a character is copied. */
  lemma NoMatchBeforeValue(p: string, v: string, i: nat)
    requires i < |p| && |v| > 0 && v[0] !in p
    ensures !MatchAt(p + v, v, i)
  {
    var s := p + v;
    assert s[i] == p[i] && p[i] in p;
    if i + |v| <= |s| {
      assert s[i..i + |v|][0] == s[i];
    }
  }

  /** A value whose first character does not occur in the text has no match. */
  lemma AbsentValueKeepsText(s: string, v: string, rep: string)
    requires |v| > 0 && v[0] !in s
    ensures Rewrite(s, v, rep, 0) == s
  {
    forall j | 0 <= j < |s| ensures !MatchAt(s, v, j) {
      assert s[j] in s;
      if j + |v| <= |s| {
        assert s[j..j + |v|][0] == s[j];
      }
    }
    RewriteWithoutMatch(s, v, rep, 0);
  }

  /** The only length order of two values of different lengths puts the longer one first. */
  lemma TwoValueOrder(order: seq<string>, reverseVars: map<string, string>, long: string, short: string)
    requires reverseVars.Keys == {long, short} && |long| > |short|
    requires IsLengthOrder(order, reverseVars)
    ensures order == [long, short]
  {
    assert |order| == 2 by {
      Helpers.DistinctCard(order);
      assert (set x | x in order) == {long, short};
    }
    assert long in order && short in order;
  }

  /**
   * Longer values are matched first: in `val=12345`, with the values `123`
   * and `12345` both known, the longer one takes the whole number and the
   * shorter one then finds nothing left to replace.
   */
  lemma LongerValueMatchedFirst(r: string, vars: map<string, string>)
    requires IsEnvToBodyOf(r, "val=12345", Some(BrunoEnv(vars, map["123" := "short", "12345" := "long"])))
    ensures r == "val={{long}}"
  {
    var rv := map["123" := "short", "12345" := "long"];
    var order :| IsLengthOrder(order, rv) && r == SubstituteAll("val=12345", rv, order);
    TwoValueOrder(order, rv, "12345", "123");
    TwoPasses("val=12345", rv, "12345", "123");
    LongPass();
    ShortPass();
  }

  /** Two values: two passes, in order. */
  lemma TwoPasses(body: string, reverseVars: map<string, string>, a: string, b: string)
    requires a in reverseVars && b in reverseVars
    ensures SubstituteAll(body, reverseVars, [a, b])
         == Rewrite(Rewrite(body, a, Placeholder(reverseVars[a]), 0), b, Placeholder(reverseVars[b]), 0)
  {
    assert [a, b][..1] == [a] && [a][..0] == [];
    assert SubstituteAll(body, reverseVars, []) == body;
    assert SubstituteAll(body, reverseVars, [a]) == Rewrite(body, a, Placeholder(reverseVars[a]), 0);
  }

  /** The pass of `12345` over `val=12345`. */
  lemma LongPass()
    ensures Rewrite("val=12345", "12345", Placeholder("long"), 0) == "val={{long}}"
  {
    assert "val=12345" == "val=" + "12345";
    RewriteTrailing("val=", "12345", Placeholder("long"), 0);
  }

  /** The pass of `123` over `val={{long}}`. */
  lemma ShortPass()
    ensures Rewrite("val={{long}}", "123", Placeholder("short"), 0) == "val={{long}}"
  {
    AbsentValueKeepsText("val={{long}}", "123", Placeholder("short"));
  }

  // ---------------------------------------------------------------------------
  // EnvGenerate and DefaultEnvBru
  // ---------------------------------------------------------------------------

  /** EnvGenerate: the `vars` block of an environment file. */
  method EnvGenerate(vars: map<string, string>) returns (r: string)
    ensures Helpers.IsNameBlockMapOf(r, "vars", vars)
  {
    r := Helpers.NameBlockMap("vars", vars);
  }

  const DefaultUserAgent: string :=
    "Mozilla/5.0 (X11; Linux x86_64) AppleWebKit/537.36 (KHTML, like Gecko) Chrome/143.0.0.0 Safari/537.36"

  /** The variables of a new collection's base environment. */
  function DefaultVars(name: string): (m: map<string, string>)
    ensures m.Keys == {"host", "proto", "ua"}
    ensures m["host"] == name && m["proto"] == "https" && m["ua"] == DefaultUserAgent
  {
    map["host" := name, "proto" := "https", "ua" := DefaultUserAgent]
  }

  /** DefaultEnvBru: the base environment file, a `vars` block with host, proto and ua. */
  method DefaultEnvBru(name: string) returns (r: string)
    ensures Helpers.IsNameBlockMapOf(r, "vars", DefaultVars(name))
    ensures r != ""
  {
    r := EnvGenerate(DefaultVars(name));
    Helpers.NameBlockMapShape(r, "vars", DefaultVars(name));
  }
}
