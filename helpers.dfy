/**
 * The block serialisers of helpers.go. A block is the text unit of a `.bru`
 * file: a name, ` {`, one line per entry indented by exactly two spaces, and a
 * closing `}`; a block with no entries is left out altogether.
 */
module Helpers {

  /** One line of a block: two spaces, the item, a newline. */
  function ItemLine(x: string): string {
    "  " + x + "\n"
  }

  /** The body of a block whose lines are `xs`, in order. */
  function ItemsText(xs: seq<string>): string
    decreases |xs|
  {
    if |xs| == 0 then "" else ItemsText(xs[..|xs| - 1]) + ItemLine(xs[|xs| - 1])
  }

  /** A named block around an already rendered body. */
  function Wrap(name: string, body: string): string {
    name + " {\n" + body + "}\n"
  }

  /** The item `k: v` of a key/value block. */
  function EntryItem(k: string, v: string): string {
    k + ": " + v
  }

  /** The items of `m` taken in the given order of its keys. */
  function EntryItems(m: map<string, string>, order: seq<string>): (items: seq<string>)
    requires forall i :: 0 <= i < |order| ==> order[i] in m
    ensures |items| == |order|
    ensures forall i :: 0 <= i < |order| ==> items[i] == EntryItem(order[i], m[order[i]])
  {
    seq(|order|, i requires 0 <= i < |order| => EntryItem(order[i], m[order[i]]))
  }

  /** `order` lists every key of `m` exactly once: one possible Go map iteration order. */
  ghost predicate IsKeyOrder(order: seq<string>, m: map<string, string>) {
    && (forall i :: 0 <= i < |order| ==> order[i] in m)
    && (forall i, j :: 0 <= i < j < |order| ==> order[i] != order[j])
    && (forall k :: k in m ==> k in order)
  }

  /** `r` is what `BlockMap(m)` may return: one line per entry, in some order of the keys. */
  ghost predicate IsBlockMapOf(r: string, m: map<string, string>) {
    exists order :: IsKeyOrder(order, m) && r == ItemsText(EntryItems(m, order))
  }

  /** `r` is what `NameBlockMap(name, m)` may return. */
  ghost predicate IsNameBlockMapOf(r: string, name: string, m: map<string, string>) {
    if |m| == 0 then r == ""
    else exists body :: IsBlockMapOf(body, m) && r == Wrap(name, body)
  }

  /** BlockStrings: the items in order, each on its own indented line. */
  method BlockStrings(xs: seq<string>) returns (r: string)
    ensures r == ItemsText(xs)
  {
    if |xs| == 0 {
      return "";
    }
    r := "";
    for i := 0 to |xs|
      invariant r == ItemsText(xs[..i])
    {
      assert xs[..i + 1][..i] == xs[..i];
      r := r + "  " + xs[i] + "\n";
    }
    assert xs[..|xs|] == xs;
  }

  /** BlockMap: one line `  k: v` per entry, in Go's (unspecified) map iteration order. */
  method BlockMap(m: map<string, string>) returns (r: string)
    ensures IsBlockMapOf(r, m)
  {
    if |m| == 0 {
      assert IsKeyOrder([], m);
      assert "" == ItemsText(EntryItems(m, []));
      return "";
    }
    r := "";
    ghost var order: seq<string> := [];
    var rest := m.Keys;
    while rest != {}
      invariant VisitedSoFar(order, rest, m)
      invariant r == ItemsText(EntryItems(m, order))
      decreases rest
    {
      var key :| key in rest;
      VisitedSoFarStep(order, rest, m, key);
      EntryItemsSnoc(order, m, key);
      r := r + "  " + key + ": " + m[key] + "\n";
      order := order + [key];
      rest := rest - {key};
    }
    assert IsKeyOrder(order, m);
  }

  /** The loop state of BlockMap: `order` lists the keys visited so far, each once, and `rest` the others. */
  ghost predicate VisitedSoFar(order: seq<string>, rest: set<string>, m: map<string, string>) {
    && rest <= m.Keys
    && (forall i :: 0 <= i < |order| ==> order[i] in m && order[i] !in rest)
    && (forall i, j :: 0 <= i < j < |order| ==> order[i] != order[j])
    && (forall k :: k in m ==> k in rest || k in order)
  }

  /** Visiting one more key keeps the loop state. */
  lemma VisitedSoFarStep(order: seq<string>, rest: set<string>, m: map<string, string>, key: string)
    requires VisitedSoFar(order, rest, m)
    requires key in rest
    ensures VisitedSoFar(order + [key], rest - {key}, m)
  {
  }

  /** Visiting one more key appends that key's line. */
  lemma EntryItemsSnoc(order: seq<string>, m: map<string, string>, key: string)
    requires forall i :: 0 <= i < |order| ==> order[i] in m
    requires key in m
    ensures ItemsText(EntryItems(m, order + [key])) == ItemsText(EntryItems(m, order)) + "  " + key + ": " + m[key] + "\n"
  {
    assert EntryItems(m, order + [key])[..|order|] == EntryItems(m, order);
    var p := ItemsText(EntryItems(m, order));
    assert p + ItemLine(EntryItem(key, m[key])) == p + "  " + key + ": " + m[key] + "\n";
  }

  /** NameBlockMap: the empty string for an empty map, otherwise the named block of its entries. */
  method NameBlockMap(name: string, heads: map<string, string>) returns (r: string)
    ensures IsNameBlockMapOf(r, name, heads)
  {
    if |heads| == 0 {
      return "";
    }
    var body := BlockMap(heads);
    r := name + " {\n" + body + "}\n";
    assert r == Wrap(name, body);
  }

  /**
   * NameBlockStrings is called by request.go but defined in a file that is not
   * part of this model; this is the behaviour its tests describe.
   */
  function NameBlockStrings(name: string, xs: seq<string>): string {
    if |xs| == 0 then "" else Wrap(name, ItemsText(xs))
  }

  // ---------------------------------------------------------------------------
  // Properties of the format
  // ---------------------------------------------------------------------------

  /** Rendering is a homomorphism from list concatenation to string concatenation. */
  lemma {:induction false} ItemsTextAppend(a: seq<string>, b: seq<string>)
    ensures ItemsText(a + b) == ItemsText(a) + ItemsText(b)
    decreases |b|
  {
    if |b| > 0 {
      var b' := b[..|b| - 1];
      assert (a + b)[..|a + b| - 1] == a + b';
      ItemsTextAppend(a, b');
    } else {
      assert a + b == a;
    }
  }

  /** Each item costs its own length plus three characters (two spaces and a newline). */
  function TotalLength(xs: seq<string>): nat
    decreases |xs|
  {
    if |xs| == 0 then 0 else TotalLength(xs[..|xs| - 1]) + |xs[|xs| - 1]| + 3
  }

  lemma {:induction false} ItemsTextLength(xs: seq<string>)
    ensures |ItemsText(xs)| == TotalLength(xs)
    decreases |xs|
  {
    if |xs| > 0 {
      ItemsTextLength(xs[..|xs| - 1]);
    }
  }

  /** A non-empty body starts with the two-space indentation of its first line. */
  lemma {:induction false} ItemsTextIndent(xs: seq<string>)
    requires |xs| > 0
    ensures |ItemsText(xs)| >= 3 && ItemsText(xs)[..2] == "  "
  {
    ItemsTextAppend([xs[0]], xs[1..]);
    assert [xs[0]] + xs[1..] == xs;
    assert ItemsText([xs[0]]) == ItemLine(xs[0]);
  }

  /** The body of a block is empty exactly when it has no items. */
  lemma ItemsTextEmpty(xs: seq<string>)
    ensures ItemsText(xs) == "" <==> |xs| == 0
  {
    if |xs| > 0 {
      ItemsTextIndent(xs);
    }
  }

  /** `x` occurs in `s` starting at offset `at`. */
  predicate OccursAt(x: string, s: string, at: nat) {
    at + |x| <= |s| && s[at..at + |x|] == x
  }

  /** Every entry of the map contributes its own line to the block. */
  lemma BlockMapHasEntry(r: string, m: map<string, string>, k: string)
    requires IsBlockMapOf(r, m)
    requires k in m
    ensures exists at: nat :: OccursAt(ItemLine(EntryItem(k, m[k])), r, at)
  {
    var order :| IsKeyOrder(order, m) && r == ItemsText(EntryItems(m, order));
    var i :| 0 <= i < |order| && order[i] == k;
    ItemsTextHasLine(EntryItems(m, order), i);
  }

  /** Item `i` is rendered as a line right after the lines of the items before it. */
  lemma ItemsTextHasLine(items: seq<string>, i: nat)
    requires i < |items|
    ensures OccursAt(ItemLine(items[i]), ItemsText(items), |ItemsText(items[..i])|)
  {
    var pre := items[..i];
    var post := items[i + 1..];
    assert items == pre + [items[i]] + post;
    ItemsTextAppend(pre + [items[i]], post);
    ItemsTextAppend(pre, [items[i]]);
    assert ItemsText([items[i]]) == ItemLine(items[i]) by {
      assert [items[i]][..0] == [];
    }
    OccursMiddle(ItemsText(pre), ItemLine(items[i]), ItemsText(post));
  }

  /** `x` occurs in `a + x + b` right after `a`. */
  lemma OccursMiddle(a: string, x: string, b: string)
    ensures OccursAt(x, a + x + b, |a|)
  {
    assert (a + x + b)[|a|..|a| + |x|] == x;
  }

  /** A key order of `m` has exactly one element per entry, so the block has `|m|` lines. */
  lemma {:induction false} KeyOrderLength(order: seq<string>, m: map<string, string>)
    requires IsKeyOrder(order, m)
    ensures |order| == |m|
  {
    DistinctCard(order);
    assert (set x | x in order) == m.Keys;
  }

  lemma {:induction false} DistinctCard(xs: seq<string>)
    requires forall i, j :: 0 <= i < j < |xs| ==> xs[i] != xs[j]
    ensures |set x | x in xs| == |xs|
    decreases |xs|
  {
    if |xs| > 0 {
      var init := xs[..|xs| - 1];
      DistinctCard(init);
      assert (set x | x in xs) == (set x | x in init) + {xs[|xs| - 1]};
      assert xs[|xs| - 1] !in init;
    }
  }

  /** A non-empty named block starts with `name {` and ends with `}` and a newline. */
  lemma WrapShape(name: string, body: string)
    ensures var w := Wrap(name, body);
      |w| == |name| + |body| + 5 && w[..|name| + 2] == name + " {" && w[|w| - 2..] == "}\n"
  {
  }

  /** NameBlockMap of a non-empty map is never empty and has the shape of a named block. */
  lemma NameBlockMapShape(r: string, name: string, m: map<string, string>)
    requires IsNameBlockMapOf(r, name, m)
    ensures r == "" <==> |m| == 0
    ensures |m| > 0 ==> |r| >= |name| + 5 && r[..|name| + 2] == name + " {" && r[|r| - 2..] == "}\n"
  {
    if |m| > 0 {
      var body :| IsBlockMapOf(body, m) && r == Wrap(name, body);
      WrapShape(name, body);
    }
  }
}
