/**
 * The parts of Go's `strings`, `unicode` and `strconv` packages that the
 * request-translation engine relies on, stated over `seq<char>`, together with
 * the association-list view of a Go map that is filled by repeated assignment.
 */
module Text {
  import opened Wrappers

  // ---------------------------------------------------------------------------
  // Character classes
  // ---------------------------------------------------------------------------

  /** Go's `unicode.IsSpace`: the Unicode White_Space property. */
  predicate IsSpace(c: char) {
    c == ' ' || c == '\t' || c == '\n' || c == '\U{000B}' || c == '\U{000C}' || c == '\r'
    || c == '\U{0085}' || c == '\U{00A0}' || c == '\U{1680}'
    || ('\U{2000}' <= c <= '\U{200A}')
    || c == '\U{2028}' || c == '\U{2029}' || c == '\U{202F}' || c == '\U{205F}' || c == '\U{3000}'
  }

  /** The regular-expression class `[a-zA-Z0-9]`. */
  predicate IsAlnum(c: char) {
    ('a' <= c <= 'z') || ('A' <= c <= 'Z') || ('0' <= c <= '9')
  }

  /** The regular-expression class `\w`, that is `[0-9A-Za-z_]`. */
  predicate IsWordChar(c: char) {
    IsAlnum(c) || c == '_'
  }

  function UpperChar(c: char): (u: char)
    ensures 'a' <= c <= 'z' ==> 'A' <= u <= 'Z' && u as int == c as int - 32
    ensures !('a' <= c <= 'z') ==> u == c
  {
    if 'a' <= c <= 'z' then (c as int - 32) as char else c
  }

  function LowerChar(c: char): (l: char)
    ensures 'A' <= c <= 'Z' ==> 'a' <= l <= 'z' && l as int == c as int + 32
    ensures !('A' <= c <= 'Z') ==> l == c
  {
    if 'A' <= c <= 'Z' then (c as int + 32) as char else c
  }

  /** `strings.ToUpper` restricted to ASCII letters. */
  function Upper(s: string): (r: string)
    ensures |r| == |s|
    ensures forall i :: 0 <= i < |s| ==> r[i] == UpperChar(s[i])
  {
    seq(|s|, i requires 0 <= i < |s| => UpperChar(s[i]))
  }

  /** `strings.ToLower` restricted to ASCII letters. */
  function Lower(s: string): (r: string)
    ensures |r| == |s|
    ensures forall i :: 0 <= i < |s| ==> r[i] == LowerChar(s[i])
  {
    seq(|s|, i requires 0 <= i < |s| => LowerChar(s[i]))
  }

  // ---------------------------------------------------------------------------
  // Trimming
  // ---------------------------------------------------------------------------

  /** Drops the leading white space of `s`. */
  function TrimLeftSpace(s: string): (r: string)
    ensures |r| <= |s| && r == s[|s| - |r|..]
    ensures forall i :: 0 <= i < |s| - |r| ==> IsSpace(s[i])
    ensures |r| > 0 ==> !IsSpace(r[0])
  {
    if |s| > 0 && IsSpace(s[0]) then TrimLeftSpace(s[1..]) else s
  }

  /** Drops the trailing white space of `s`. */
  function TrimRightSpace(s: string): (r: string)
    ensures |r| <= |s| && r == s[..|r|]
    ensures forall i :: |r| <= i < |s| ==> IsSpace(s[i])
    ensures |r| > 0 ==> !IsSpace(r[|r| - 1])
  {
    if |s| > 0 && IsSpace(s[|s| - 1]) then TrimRightSpace(s[..|s| - 1]) else s
  }

  /** `strings.TrimSpace`: the longest slice of `s` that starts and ends with a non-space. */
  function TrimSpace(s: string): string {
    TrimRightSpace(TrimLeftSpace(s))
  }

  /** A string that `strings.TrimSpace` leaves alone. */
  predicate IsTrimmed(s: string) {
    |s| > 0 ==> !IsSpace(s[0]) && !IsSpace(s[|s| - 1])
  }

  lemma TrimSpaceResult(s: string)
    ensures IsTrimmed(TrimSpace(s))
  {
    TrimRightOfLeft(TrimLeftSpace(s));
  }

  /** Trimming the right of a string that does not start with a space leaves it trimmed on both ends. */
  lemma TrimRightOfLeft(l: string)
    requires |l| > 0 ==> !IsSpace(l[0])
    ensures IsTrimmed(TrimRightSpace(l))
  {
    if |TrimRightSpace(l)| > 0 {
      assert TrimRightSpace(l)[0] == l[0];
    }
  }

  lemma {:induction false} TrimLeftOfTrimmed(s: string)
    requires IsTrimmed(s)
    ensures TrimLeftSpace(s) == s
  {
  }

  lemma TrimSpaceOfTrimmed(s: string)
    requires IsTrimmed(s)
    ensures TrimSpace(s) == s
  {
  }

  /** Leading spaces in front of a trimmed string go away. */
  lemma {:induction false} TrimLeftSpaces(pad: string, s: string)
    requires forall i :: 0 <= i < |pad| ==> IsSpace(pad[i])
    requires |s| > 0 ==> !IsSpace(s[0])
    ensures TrimLeftSpace(pad + s) == s
  {
    if |pad| > 0 {
      assert (pad + s)[1..] == pad[1..] + s;
      TrimLeftSpaces(pad[1..], s);
    } else {
      assert pad + s == s;
    }
  }

  /** Drops the leading occurrences of `c`. */
  function TrimLeftChar(s: string, c: char): (r: string)
    ensures |r| <= |s| && r == s[|s| - |r|..]
    ensures forall i :: 0 <= i < |s| - |r| ==> s[i] == c
    ensures |r| > 0 ==> r[0] != c
  {
    if |s| > 0 && s[0] == c then TrimLeftChar(s[1..], c) else s
  }

  /** Drops the trailing occurrences of `c`. */
  function TrimRightChar(s: string, c: char): (r: string)
    ensures |r| <= |s| && r == s[..|r|]
    ensures forall i :: |r| <= i < |s| ==> s[i] == c
    ensures |r| > 0 ==> r[|r| - 1] != c
  {
    if |s| > 0 && s[|s| - 1] == c then TrimRightChar(s[..|s| - 1], c) else s
  }

  /** `strings.Trim(s, cutset)` for a one-character cut set. */
  function TrimChar(s: string, c: char): string {
    TrimRightChar(TrimLeftChar(s, c), c)
  }

  /** The trimmed text neither starts nor ends with `c`, and is empty only when `s` is all `c`. */
  lemma TrimCharResult(s: string, c: char)
    ensures var r := TrimChar(s, c); |r| > 0 ==> r[0] != c && r[|r| - 1] != c
    ensures TrimChar(s, c) == "" <==> forall i :: 0 <= i < |s| ==> s[i] == c
  {
    var l := TrimLeftChar(s, c);
    var r := TrimRightChar(l, c);
    if |r| > 0 {
      assert r[0] == l[0];
    }
    if r == "" {
      assert l == "";
    }
  }

  /** Text that neither starts nor ends with `c` is left as it is. */
  lemma TrimCharUntouched(s: string, c: char)
    requires |s| > 0 && s[0] != c && s[|s| - 1] != c
    ensures TrimChar(s, c) == s
  {
    assert TrimLeftChar(s, c) == s;
  }

  // ---------------------------------------------------------------------------
  // Splitting and joining
  // ---------------------------------------------------------------------------

  /** `strings.Split(s, sep)` for a one-character separator. */
  function Split(s: string, sep: char): (parts: seq<string>)
    ensures |parts| >= 1
    ensures forall i :: 0 <= i < |parts| ==> sep !in parts[i]
    ensures sep !in s ==> parts == [s]
    decreases |s|
  {
    if |s| == 0 then [""]
    else
      var rest := Split(s[1..], sep);
      assert s == [s[0]] + s[1..];
      if s[0] == sep then [""] + rest
      else [[s[0]] + rest[0]] + rest[1..]
  }

  /** `strings.Join(parts, sep)` for a one-character separator. */
  function Join(parts: seq<string>, sep: char): string
    decreases |parts|
  {
    if |parts| == 0 then ""
    else if |parts| == 1 then parts[0]
    else parts[0] + [sep] + Join(parts[1..], sep)
  }

  lemma JoinCons(p: string, ps: seq<string>, sep: char)
    requires |ps| >= 1
    ensures Join([p] + ps, sep) == p + [sep] + Join(ps, sep)
  {
    assert ([p] + ps)[1..] == ps;
  }

  lemma JoinConsChar(c: char, p: string, ps: seq<string>, sep: char)
    ensures Join([[c] + p] + ps, sep) == [c] + Join([p] + ps, sep)
  {
    if |ps| == 0 {
    } else {
      JoinCons([c] + p, ps, sep);
      JoinCons(p, ps, sep);
    }
  }

  /** Text that does not end in the separator has a non-empty last part. */
  lemma {:induction false} SplitLastNonEmpty(s: string, sep: char)
    requires |s| > 0 && s[|s| - 1] != sep
    ensures var parts := Split(s, sep); parts[|parts| - 1] != ""
    decreases |s|
  {
    var rest := Split(s[1..], sep);
    if |s| > 1 {
      assert s[1..][|s| - 2] == s[|s| - 1];
      SplitLastNonEmpty(s[1..], sep);
    } else {
      assert s[1..] == "";
    }
  }

  /** The join is at least as long as its last part. */
  lemma {:induction false} JoinLastLength(parts: seq<string>, sep: char)
    requires |parts| >= 1
    ensures |Join(parts, sep)| >= |parts[|parts| - 1]|
    decreases |parts|
  {
    if |parts| > 1 {
      JoinLastLength(parts[1..], sep);
    }
  }

  /** Joining what was split gives the string back. */
  lemma {:induction false} JoinSplit(s: string, sep: char)
    ensures Join(Split(s, sep), sep) == s
    decreases |s|
  {
    if |s| > 0 {
      var rest := Split(s[1..], sep);
      JoinSplit(s[1..], sep);
      if s[0] == sep {
        JoinCons("", rest, sep);
      } else {
        JoinConsChar(s[0], rest[0], rest[1..], sep);
        assert [rest[0]] + rest[1..] == rest;
      }
    }
  }

  lemma {:induction false} SplitAppend(a: string, b: string, sep: char)
    requires sep !in a
    ensures Split(a + [sep] + b, sep) == [a] + Split(b, sep)
    decreases |a|
  {
    if |a| == 0 {
      assert (a + [sep] + b)[1..] == b;
    } else {
      assert (a + [sep] + b)[1..] == a[1..] + [sep] + b;
      SplitAppend(a[1..], b, sep);
      assert [a[0]] + a[1..] == a;
    }
  }

  /** Splitting what was joined gives the parts back, when no part holds the separator. */
  lemma {:induction false} SplitJoin(parts: seq<string>, sep: char)
    requires |parts| >= 1
    requires forall i :: 0 <= i < |parts| ==> sep !in parts[i]
    ensures Split(Join(parts, sep), sep) == parts
    decreases |parts|
  {
    if |parts| > 1 {
      SplitJoin(parts[1..], sep);
      SplitAppend(parts[0], Join(parts[1..], sep), sep);
      assert [parts[0]] + parts[1..] == parts;
    }
  }

  /** `strings.Cut(s, sep)` for a one-character separator: split at the first occurrence. */
  function Cut(s: string, sep: char): (r: Option<(string, string)>)
    ensures r.None? <==> sep !in s
    ensures r.Some? ==> s == r.value.0 + [sep] + r.value.1 && sep !in r.value.0
    decreases |s|
  {
    if |s| == 0 then None
    else if s[0] == sep then Some(("", s[1..]))
    else match Cut(s[1..], sep)
      case None => None
      case Some((a, b)) => Some(([s[0]] + a, b))
  }

  /** The cut of `a + [sep] + b` is `(a, b)` when `a` holds no `sep`. */
  lemma {:induction false} CutUnique(s: string, sep: char, a: string, b: string)
    requires s == a + [sep] + b && sep !in a
    ensures Cut(s, sep) == Some((a, b))
    decreases |a|
  {
    if |a| > 0 {
      assert s[1..] == a[1..] + [sep] + b;
      CutUnique(s[1..], sep, a[1..], b);
      assert [a[0]] + a[1..] == a;
    }
  }

  /** Every `a` is replaced by `b`: `strings.ReplaceAll` for single characters. */
  function ReplaceChar(s: string, a: char, b: char): (r: string)
    ensures |r| == |s|
    ensures forall i :: 0 <= i < |s| ==> r[i] == if s[i] == a then b else s[i]
  {
    seq(|s|, i requires 0 <= i < |s| => if s[i] == a then b else s[i])
  }

  // ---------------------------------------------------------------------------
  // Decimal numbers (`strconv.Itoa`)
  // ---------------------------------------------------------------------------

  predicate IsDigit(c: char) {
    '0' <= c <= '9'
  }

  function DigitChar(d: nat): char
    requires d < 10
  {
    ('0' as int + d) as char
  }

  /** The decimal digits of `n`, most significant first, with no leading zero. */
  function Digits(n: nat): (s: string)
    ensures |s| >= 1
    ensures forall i :: 0 <= i < |s| ==> IsDigit(s[i])
    ensures s[0] == '0' ==> n == 0
  {
    if n < 10 then [DigitChar(n)] else Digits(n / 10) + [DigitChar(n % 10)]
  }

  /** The value of a string of decimal digits. */
  function DecimalValue(s: string): nat
    requires forall i :: 0 <= i < |s| ==> IsDigit(s[i])
  {
    if |s| == 0 then 0
    else
      assert IsDigit(s[|s| - 1]);
      DecimalValue(s[..|s| - 1]) * 10 + (s[|s| - 1] as int - '0' as int)
  }

  lemma {:induction false} DigitsValue(n: nat)
    ensures DecimalValue(Digits(n)) == n
  {
    if n >= 10 {
      DigitsValue(n / 10);
      var s := Digits(n);
      assert s[..|s| - 1] == Digits(n / 10);
    }
  }

  /** `strconv.Itoa`. */
  function Itoa(n: int): string {
    if n < 0 then "-" + Digits(-n) else Digits(n)
  }

  /** `strconv.Itoa` of a natural number is the digit string of that number and nothing else. */
  lemma ItoaNat(n: nat)
    ensures |Itoa(n)| >= 1 && forall i :: 0 <= i < |Itoa(n)| ==> IsDigit(Itoa(n)[i])
    ensures DecimalValue(Itoa(n)) == n
    ensures Itoa(n)[0] == '0' ==> Itoa(n) == "0"
  {
    DigitsValue(n);
    if Itoa(n)[0] == '0' {
      assert n == 0;
    }
  }

  // ---------------------------------------------------------------------------
  // Maps filled by repeated assignment `m[k] = v`
  // ---------------------------------------------------------------------------

  /** The map left by assigning each pair of `ps` in order. */
  function FromPairs<K, V>(ps: seq<(K, V)>): (m: map<K, V>)
    ensures m.Keys == set p | p in ps :: p.0
    decreases |ps|
  {
    if |ps| == 0 then map[]
    else
      var init := ps[..|ps| - 1];
      var last := ps[|ps| - 1];
      var m := FromPairs(init);
      assert ps == init + [last];
      m[last.0 := last.1]
  }

  /** One more assignment updates the map. */
  lemma FromPairsSnoc<K, V>(ps: seq<(K, V)>, p: (K, V))
    ensures FromPairs(ps + [p]) == FromPairs(ps)[p.0 := p.1]
  {
    assert (ps + [p])[..|ps|] == ps;
  }

  /** A later assignment to the same key overwrites an earlier one. */
  lemma {:induction false} FromPairsLastWins<K, V>(ps: seq<(K, V)>, j: nat)
    requires j < |ps|
    requires forall m :: j < m < |ps| ==> ps[m].0 != ps[j].0
    ensures ps[j].0 in FromPairs(ps) && FromPairs(ps)[ps[j].0] == ps[j].1
    decreases |ps|
  {
    assert ps[j] in ps;
    if j < |ps| - 1 {
      FromPairsLastWins(ps[..|ps| - 1], j);
    }
  }

  /** The map of a list of distinct-keyed pairs holds exactly those pairs. */
  lemma FromPairsDistinct<K, V>(ps: seq<(K, V)>, j: nat)
    requires j < |ps|
    requires forall a, b :: 0 <= a < b < |ps| ==> ps[a].0 != ps[b].0
    ensures FromPairs(ps)[ps[j].0] == ps[j].1
  {
    FromPairsLastWins(ps, j);
  }

  /** Every entry of the map comes from one of the pairs. */
  lemma {:induction false} FromPairsValue<K, V>(ps: seq<(K, V)>, k: K)
    requires k in FromPairs(ps)
    ensures exists j :: 0 <= j < |ps| && ps[j] == (k, FromPairs(ps)[k])
    decreases |ps|
  {
    var last := ps[|ps| - 1];
    if last.0 != k {
      var init := ps[..|ps| - 1];
      FromPairsValue(init, k);
      var j :| 0 <= j < |init| && init[j] == (k, FromPairs(init)[k]);
      assert ps[j] == init[j];
    }
  }
}
