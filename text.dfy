/**
 * The parts of Python's `str` type that the session engine relies on:
 * `split()` on whitespace, `split(sep)` and `split(sep, 1)`, `sep.join`,
 * `strip()`, `upper()`, `lower()` and substring search.
 */
module Text {
  import opened Wrappers

  /** The characters for which Python's `str.isspace()` holds: the separators
      of `str.split()` and the characters `str.strip()` removes. */
  predicate IsSpace(c: char) {
    || c == ' '
    || ('\t' <= c <= '\r')
    || ('\U{1C}' <= c <= '\U{1F}')
    || c == '\U{85}' || c == '\U{A0}' || c == '\U{1680}'
    || ('\U{2000}' <= c <= '\U{200A}')
    || c == '\U{2028}' || c == '\U{2029}' || c == '\U{202F}' || c == '\U{205F}' || c == '\U{3000}'
  }

  ghost predicate AllSpace(s: string) {
    forall i :: 0 <= i < |s| ==> IsSpace(s[i])
  }

  lemma AllSpaceCons(c: char, s: string)
    requires IsSpace(c) && AllSpace(s)
    ensures AllSpace([c] + s)
  {
    forall i | 0 <= i < |[c] + s|
      ensures IsSpace(([c] + s)[i])
    {
      if i > 0 {
        assert ([c] + s)[i] == s[i - 1];
      }
    }
  }

  lemma AllSpaceSnoc(s: string, c: char)
    requires AllSpace(s) && IsSpace(c)
    ensures AllSpace(s + [c])
  {
    forall i | 0 <= i < |s + [c]|
      ensures IsSpace((s + [c])[i])
    {
      if i < |s| {
        assert (s + [c])[i] == s[i];
      }
    }
  }

  ghost predicate NoSpace(s: string) {
    forall i :: 0 <= i < |s| ==> !IsSpace(s[i])
  }

  /** A token that `str.split()` can produce: non-empty and free of whitespace. */
  ghost predicate IsWord(w: string) {
    w != [] && NoSpace(w)
  }

  /** The text with every whitespace character removed. */
  function Unspaced(s: string): string {
    if s == [] then []
    else if IsSpace(s[0]) then Unspaced(s[1..])
    else [s[0]] + Unspaced(s[1..])
  }

  /** The concatenation of all the strings in `ws`. */
  function Concat(ws: seq<string>): string {
    if ws == [] then [] else ws[0] + Concat(ws[1..])
  }

  /** Python's `sep.join(ws)`. */
  function Join(sep: string, ws: seq<string>): string {
    if ws == [] then []
    else if |ws| == 1 then ws[0]
    else ws[0] + sep + Join(sep, ws[1..])
  }

  // ---------------------------------------------------------------------------
  // str.split() with no argument

  /** The length of the leading run of non-whitespace characters. */
  function TokenEnd(s: string): (n: nat)
    ensures n <= |s|
    ensures forall i :: 0 <= i < n ==> !IsSpace(s[i])
    ensures n < |s| ==> IsSpace(s[n])
  {
    if s == [] || IsSpace(s[0]) then 0 else 1 + TokenEnd(s[1..])
  }

  /** Python's `s.split()`: the maximal runs of non-whitespace characters, in order. */
  function Words(s: string): (ws: seq<string>)
    ensures forall k :: 0 <= k < |ws| ==> IsWord(ws[k])
    decreases |s|
  {
    if s == [] then []
    else if IsSpace(s[0]) then Words(s[1..])
    else
      var n := TokenEnd(s);
      [s[..n]] + Words(s[n..])
  }

  lemma {:induction false} UnspacedAppend(a: string, b: string)
    ensures Unspaced(a + b) == Unspaced(a) + Unspaced(b)
    decreases |a|
  {
    if a != [] {
      assert (a + b)[0] == a[0] && (a + b)[1..] == a[1..] + b;
      UnspacedAppend(a[1..], b);
      if !IsSpace(a[0]) {
        calc {
          Unspaced(a + b);
          [a[0]] + Unspaced(a[1..] + b);
          [a[0]] + (Unspaced(a[1..]) + Unspaced(b));
          ([a[0]] + Unspaced(a[1..])) + Unspaced(b);
        }
      }
    } else {
      assert a + b == b;
    }
  }

  lemma {:induction false} UnspacedOfNoSpace(s: string)
    requires NoSpace(s)
    ensures Unspaced(s) == s
    decreases |s|
  {
    if s != [] {
      UnspacedOfNoSpace(s[1..]);
    }
  }

  /** Tokenising loses exactly the whitespace: the words, glued together, are
      the text without its whitespace characters. */
  lemma {:induction false} WordsKeepText(s: string)
    ensures Concat(Words(s)) == Unspaced(s)
    decreases |s|
  {
    if s == [] {
    } else if IsSpace(s[0]) {
      WordsKeepText(s[1..]);
    } else {
      var n := TokenEnd(s);
      assert s == s[..n] + s[n..];
      UnspacedAppend(s[..n], s[n..]);
      UnspacedOfNoSpace(s[..n]);
      WordsKeepText(s[n..]);
      assert Words(s) == [s[..n]] + Words(s[n..]);
    }
  }

  lemma {:induction false} TokenEndOfWord(w: string, t: string)
    requires NoSpace(w)
    requires t == [] || IsSpace(t[0])
    ensures TokenEnd(w + t) == |w|
    decreases |w|
  {
    if w != [] {
      assert (w + t)[1..] == w[1..] + t;
      TokenEndOfWord(w[1..], t);
    }
  }

  /** A text of whitespace alone has no tokens. */
  lemma {:induction false} WordsOfSpace(s: string)
    requires AllSpace(s)
    ensures Words(s) == []
    decreases |s|
  {
    if s != [] {
      assert IsSpace(s[0]);
      SkipFirstSpace(s);
      WordsOfSpace(s[1..]);
    }
  }

  lemma SkipFirstSpace(s: string)
    requires s != [] && AllSpace(s)
    ensures AllSpace(s[1..])
  {
    forall i | 0 <= i < |s[1..]|
      ensures IsSpace(s[1..][i])
    {
      assert s[1..][i] == s[i + 1];
    }
  }

  /** Leading whitespace does not change the tokens. */
  lemma {:induction false} WordsSkipSpace(p: string, t: string)
    requires AllSpace(p)
    ensures Words(p + t) == Words(t)
    decreases |p|
  {
    if p == [] {
      assert p + t == t;
    } else {
      assert IsSpace(p[0]);
      assert (p + t)[0] == p[0] && (p + t)[1..] == p[1..] + t;
      SkipFirstSpace(p);
      WordsSkipSpace(p[1..], t);
    }
  }

  /** Where `split()` cuts: after any whitespace, the first token is the whole
      run of non-whitespace characters up to the next whitespace character or
      the end, and the tokens of the rest follow. */
  lemma WordsOfWord(p: string, w: string, rest: string)
    requires AllSpace(p) && IsWord(w) && (rest == [] || IsSpace(rest[0]))
    ensures Words(p + w + rest) == [w] + Words(rest)
  {
    var t := w + rest;
    assert p + w + rest == p + t;
    WordsSkipSpace(p, t);
    assert t[0] == w[0] && !IsSpace(w[0]);
    TokenEndOfWord(w, rest);
    assert t[..|w|] == w && t[|w|..] == rest;
  }

  /** Joining words with single spaces and splitting again gives the words back. */
  lemma {:induction false} WordsOfJoin(ws: seq<string>)
    requires forall k :: 0 <= k < |ws| ==> IsWord(ws[k])
    ensures Words(Join(" ", ws)) == ws
    decreases |ws|
  {
    if ws == [] {
    } else if |ws| == 1 {
      var w := ws[0];
      TokenEndOfWord(w, []);
      assert w + [] == w;
      assert w[..|w|] == w && w[|w|..] == [];
    } else {
      var w, rest := ws[0], Join(" ", ws[1..]);
      var s := w + " " + rest;
      assert Join(" ", ws) == s;
      TokenEndOfWord(w, " " + rest);
      assert w + (" " + rest) == s;
      assert s[..|w|] == w;
      assert s[|w|..] == " " + rest;
      assert (" " + rest)[1..] == rest;
      WordsOfJoin(ws[1..]);
    }
  }

  // ---------------------------------------------------------------------------
  // upper() and lower()

  function UpperChar(c: char): char {
    if 'a' <= c <= 'z' then (c as int - 32) as char else c
  }

  function LowerChar(c: char): char {
    if 'A' <= c <= 'Z' then (c as int + 32) as char else c
  }

  /** Python's `s.upper()`, restricted to the ASCII letters. */
  function Upper(s: string): (r: string)
    ensures |r| == |s|
    ensures forall i :: 0 <= i < |s| ==> r[i] == UpperChar(s[i])
  {
    if s == [] then [] else [UpperChar(s[0])] + Upper(s[1..])
  }

  /** Python's `s.lower()`, restricted to the ASCII letters. */
  function Lower(s: string): (r: string)
    ensures |r| == |s|
    ensures forall i :: 0 <= i < |s| ==> r[i] == LowerChar(s[i])
  {
    if s == [] then [] else [LowerChar(s[0])] + Lower(s[1..])
  }

  ghost predicate IsUpperWord(t: string) {
    forall i :: 0 <= i < |t| ==> 'A' <= t[i] <= 'Z'
  }

  ghost predicate IsLowerWord(t: string) {
    forall i :: 0 <= i < |t| ==> 'a' <= t[i] <= 'z'
  }

  /** `s` spells `t` letter by letter, each letter either as in `t` or in the other case. */
  ghost predicate SameIgnoringCase(s: string, t: string) {
    |s| == |t| &&
    forall i :: 0 <= i < |s| ==> s[i] == t[i] || s[i] == UpperChar(t[i]) || s[i] == LowerChar(t[i])
  }

  /** Upper-casing yields an upper-case word exactly when the text spells it in any mix of cases. */
  lemma UpperIsWord(s: string, t: string)
    requires IsUpperWord(t)
    ensures Upper(s) == t <==> SameIgnoringCase(s, t)
  {
    if SameIgnoringCase(s, t) {
      forall i | 0 <= i < |s| ensures Upper(s)[i] == t[i] {
        assert LowerChar(t[i]) as int == t[i] as int + 32;
      }
    }
  }

  /** Lower-casing yields a lower-case word exactly when the text spells it in any mix of cases. */
  lemma LowerIsWord(s: string, t: string)
    requires IsLowerWord(t)
    ensures Lower(s) == t <==> SameIgnoringCase(s, t)
  {
    if SameIgnoringCase(s, t) {
      forall i | 0 <= i < |s| ensures Lower(s)[i] == t[i] {
        assert UpperChar(t[i]) as int == t[i] as int - 32;
      }
    }
  }

  // ---------------------------------------------------------------------------
  // strip()

  /** The text without its leading whitespace. */
  function TrimStart(s: string): (r: string)
    ensures |r| <= |s| && r == s[|s| - |r|..]
    ensures AllSpace(s[..|s| - |r|])
    ensures r == [] || !IsSpace(r[0])
  {
    if s != [] && IsSpace(s[0]) then
      var r := TrimStart(s[1..]);
      TrimStartCons(s, r);
      r
    else s
  }

  lemma TrimStartCons(s: string, r: string)
    requires s != [] && IsSpace(s[0])
    requires |r| <= |s| - 1 && r == s[1..][|s| - 1 - |r|..] && AllSpace(s[1..][..|s| - 1 - |r|])
    ensures r == s[|s| - |r|..] && AllSpace(s[..|s| - |r|])
  {
    var t, n := s[1..], |s| - 1 - |r|;
    AllSpaceCons(s[0], t[..n]);
    assert s[..n + 1] == [s[0]] + t[..n];
  }

  /** The text without its trailing whitespace. */
  function TrimEnd(s: string): (r: string)
    ensures |r| <= |s| && r == s[..|r|]
    ensures AllSpace(s[|r|..])
    ensures r == [] || !IsSpace(r[|r| - 1])
  {
    if s != [] && IsSpace(s[|s| - 1]) then
      var r := TrimEnd(s[..|s| - 1]);
      TrimEndSnoc(s, r);
      r
    else s
  }

  lemma TrimEndSnoc(s: string, r: string)
    requires s != [] && IsSpace(s[|s| - 1])
    requires |r| <= |s| - 1 && r == s[..|s| - 1][..|r|] && AllSpace(s[..|s| - 1][|r|..])
    ensures r == s[..|r|] && AllSpace(s[|r|..])
  {
    var t := s[..|s| - 1];
    AllSpaceSnoc(t[|r|..], s[|s| - 1]);
    assert s[|r|..] == t[|r|..] + [s[|s| - 1]];
  }

  /** Python's `s.strip()`. */
  function Strip(s: string): (r: string)
    ensures r == [] <==> AllSpace(s)
    ensures r != [] ==> !IsSpace(r[0]) && !IsSpace(r[|r| - 1])
  {
    var u := TrimStart(s);
    assert s == s[..|s| - |u|] + u;
    TrimEnd(u)
  }

  lemma {:induction false} TrimStartSkips(p: string, t: string)
    requires AllSpace(p)
    requires t == [] || !IsSpace(t[0])
    ensures TrimStart(p + t) == t
    decreases |p|
  {
    if p != [] {
      assert (p + t)[1..] == p[1..] + t;
      TrimStartSkips(p[1..], t);
    }
  }

  lemma {:induction false} TrimEndSkips(t: string, q: string)
    requires AllSpace(q)
    requires t == [] || !IsSpace(t[|t| - 1])
    ensures TrimEnd(t + q) == t
    decreases |q|
  {
    if q != [] {
      assert (t + q)[..|t + q| - 1] == t + q[..|q| - 1];
      TrimEndSkips(t, q[..|q| - 1]);
    }
  }

  /** `strip()` removes exactly the surrounding whitespace: any text made of
      whitespace, a middle part that neither starts nor ends with whitespace,
      and whitespace again, strips to that middle part. */
  lemma StripExact(p: string, m: string, q: string)
    requires AllSpace(p) && AllSpace(q)
    requires m == [] || (!IsSpace(m[0]) && !IsSpace(m[|m| - 1]))
    ensures Strip(p + m + q) == m
  {
    if m == [] {
      assert p + m + q == (p + q) + [];
      TrimStartSkips(p + q, []);
    } else {
      assert p + m + q == p + (m + q);
      TrimStartSkips(p, m + q);
      TrimEndSkips(m, q);
    }
  }

  // ---------------------------------------------------------------------------
  // Substring search, split(sep, 1) and split(sep)

  /** `pat` occurs in `s` starting at index `j`. */
  ghost predicate OccursAt(s: string, pat: string, j: int) {
    0 <= j && j + |pat| <= |s| && s[j..j + |pat|] == pat
  }

  /** Python's `pat in s`. */
  ghost predicate Occurs(s: string, pat: string) {
    exists j :: OccursAt(s, pat, j)
  }

  lemma OccursShift(s: string, pat: string, j: int)
    requires s != [] && 1 <= j
    ensures OccursAt(s, pat, j) <==> OccursAt(s[1..], pat, j - 1)
  {
    if j + |pat| <= |s| {
      assert s[1..][j - 1..j - 1 + |pat|] == s[j..j + |pat|];
    }
  }

  /** An occurrence that lies inside a prefix is an occurrence in the prefix. */
  lemma OccursInPrefix(a: string, b: string, pat: string, j: int)
    requires 0 <= j && j + |pat| <= |a|
    ensures OccursAt(a + b, pat, j) <==> OccursAt(a, pat, j)
  {
    assert (a + b)[j..j + |pat|] == a[j..j + |pat|];
  }

  /** The index of the first occurrence of `pat` in `s`, if there is one
      (Python's `s.find(pat)`, with `-1` as None). */
  function Find(s: string, pat: string): (r: Option<nat>)
    requires pat != []
    ensures r.Some? ==> OccursAt(s, pat, r.value)
    ensures forall j :: 0 <= j && (r.None? || j < r.value) ==> !OccursAt(s, pat, j)
    decreases |s|
  {
    if |s| < |pat| then None
    else if s[..|pat|] == pat then Some(0)
    else
      var r := Find(s[1..], pat);
      FindShift(s, pat, r);
      if r.None? then None else Some(r.value + 1)
  }

  /** The step of Find's proof: no occurrence of `pat` in `s[1..]` before
      `r` means none in `s` before `r + 1`, apart from index 0. */
  lemma FindShift(s: string, pat: string, r: Option<nat>)
    requires pat != [] && |pat| <= |s| && s[..|pat|] != pat
    requires forall j :: 0 <= j && (r.None? || j < r.value) ==> !OccursAt(s[1..], pat, j)
    ensures forall j :: 0 <= j && (r.None? || j < r.value + 1) ==> !OccursAt(s, pat, j)
  {
    forall j | 0 <= j && (r.None? || j < r.value + 1) ensures !OccursAt(s, pat, j) {
      if j >= 1 {
        OccursShift(s, pat, j);
      }
    }
  }

  /** The first occurrence is where Find points. */
  lemma FindFirst(s: string, pat: string, i: nat)
    requires pat != [] && OccursAt(s, pat, i)
    requires forall j :: 0 <= j < i ==> !OccursAt(s, pat, j)
    ensures Find(s, pat) == Some(i)
  {
    var r := Find(s, pat);
    assert r.Some?;
  }

  /** Python's `pat in s`, computed. */
  predicate Contains(s: string, pat: string)
    requires pat != []
  {
    Find(s, pat).Some?
  }

  lemma ContainsIff(s: string, pat: string)
    requires pat != []
    ensures Contains(s, pat) <==> Occurs(s, pat)
  {
    if Occurs(s, pat) {
      var j :| OccursAt(s, pat, j);
    }
  }

  /** Python's `s.split(sep, 1)`: the text up to the first separator and the
      text after it, or the whole text alone when the separator is absent. */
  function SplitOnce(s: string, sep: string): (parts: seq<string>)
    requires sep != []
    ensures Join(sep, parts) == s
    ensures |parts| == 1 <==> !Contains(s, sep)
    ensures |parts| == 1 || |parts| == 2
    ensures !Contains(parts[0], sep)
  {
    match Find(s, sep)
    case None => [s]
    case Some(i) =>
      var head := s[..i];
      assert s == head + sep + s[i + |sep|..];
      forall j | 0 <= j ensures !OccursAt(head, sep, j) {
        if OccursAt(head, sep, j) {
          assert s[j..j + |sep|] == head[j..j + |sep|];
          assert OccursAt(s, sep, j);
        }
      }
      [head, s[i + |sep|..]]
  }

  /** The index of the first `c` in `s`. */
  function IndexOf(s: string, c: char): (i: nat)
    requires c in s
    ensures i < |s| && s[i] == c && c !in s[..i]
  {
    if s[0] == c then 0 else 1 + IndexOf(s[1..], c)
  }

  /** Text appended after the first `c` does not move it. */
  lemma IndexOfExtends(s: string, more: string, c: char)
    requires c in s
    ensures IndexOf(s + more, c) == IndexOf(s, c)
  {
    var i := IndexOf(s, c);
    var t := s + more;
    assert t[..i] == s[..i] && t[i] == c;
    var j := IndexOf(t, c);
    assert j <= i;
    assert t[..j] == s[..j];
  }

  /** Python's `s.split(c)` for a one-character separator: the pieces between
      the separators, in order. */
  function SplitOn(s: string, c: char): (parts: seq<string>)
    ensures |parts| >= 1
    ensures forall k :: 0 <= k < |parts| ==> c !in parts[k]
    ensures Join([c], parts) == s
    decreases |s|
  {
    if c !in s then [s]
    else
      var i := IndexOf(s, c);
      assert s == s[..i] + [c] + s[i + 1..];
      [s[..i]] + SplitOn(s[i + 1..], c)
  }

  /** A text holding exactly one separator splits into exactly two pieces. */
  lemma SplitOnOne(a: string, c: char, b: string)
    requires c !in a && c !in b
    ensures SplitOn(a + [c] + b, c) == [a, b]
  {
    var s := a + [c] + b;
    var i := IndexOf(s, c);
    assert s[..i] == a && s[i + 1..] == b;
  }
}
