/** The parts of Python's `str` type that the scripts rely on: `startswith`,
    `endswith`, the `in` operator, `find`, `replace`, `strip`-emptiness and
    whitespace `split`. Strings are sequences of characters. */
module PyStr {

  /** Python's `str.isspace()` for one character (ASCII and Latin-1 range). */
  predicate IsSpace(c: char) {
    c == ' ' || c == '\t' || c == '\n' || c == '\r' || c == '\U{B}' || c == '\U{C}'
    || ('\U{1C}' <= c <= '\U{1F}') || c == '\U{85}' || c == '\U{A0}'
  }

  /** `not s.strip()`: the string is empty or all whitespace. */
  predicate IsBlank(s: string) {
    forall i :: 0 <= i < |s| ==> IsSpace(s[i])
  }

  predicate NoSpace(s: string) {
    forall i :: 0 <= i < |s| ==> !IsSpace(s[i])
  }

  predicate StartsWith(s: string, prefix: string) {
    |prefix| <= |s| && s[..|prefix|] == prefix
  }

  predicate EndsWith(s: string, suffix: string) {
    |suffix| <= |s| && s[|s| - |suffix|..] == suffix
  }

  /** `sub` occurs in `s` starting at index `i`. */
  predicate OccursAt(s: string, sub: string, i: int) {
    0 <= i && i + |sub| <= |s| && s[i..i + |sub|] == sub
  }

  /** Python's `sub in s`. */
  predicate Contains(s: string, sub: string) {
    exists i :: 0 <= i <= |s| - |sub| && OccursAt(s, sub, i)
  }

  /** Python's `s.find(sub, start)`: the lowest index at or after `start` where
      `sub` occurs, or -1. */
  function Find(s: string, sub: string, start: nat): (r: int)
    decreases |s| - start
    ensures r == -1 || (start <= r && OccursAt(s, sub, r))
    ensures r == -1 ==> forall i :: start <= i ==> !OccursAt(s, sub, i)
    ensures r >= 0 ==> forall i :: start <= i < r ==> !OccursAt(s, sub, i)
  {
    if start + |sub| > |s| then -1
    else if OccursAt(s, sub, start) then start
    else Find(s, sub, start + 1)
  }

  /** The empty string occurs first at the start. */
  lemma FindEmpty(s: string)
    ensures Find(s, "", 0) == 0
  {
    assert OccursAt(s, "", 0);
  }

  /** `find` from `start` returns the first occurrence at or after it. */
  lemma FindFirst(s: string, sub: string, start: nat, i: nat)
    requires start <= i && OccursAt(s, sub, i)
    requires forall j :: start <= j < i ==> !OccursAt(s, sub, j)
    ensures Find(s, sub, start) == i
  {
  }

  /** An occurrence inside a slice is an occurrence in the whole string,
      shifted by the start of the slice. */
  lemma OccursInSlice(s: string, sub: string, a: nat, b: nat, j: nat)
    requires a <= b <= |s|
    ensures OccursAt(s[a..b], sub, j) ==> OccursAt(s, sub, a + j)
  {
    if OccursAt(s[a..b], sub, j) {
      var u, v := s[a..b][j..j + |sub|], s[a + j..a + j + |sub|];
      assert forall k :: 0 <= k < |sub| ==> u[k] == v[k];
      assert u == v;
    }
  }

  /** A word with no proper prefix that is also a suffix: two of its
      occurrences can never overlap. */
  predicate Unbordered(w: string) {
    forall k :: 0 < k < |w| ==> w[..k] != w[|w| - k..]
  }

  /** Python's `s.replace(old, new)`: every non-overlapping occurrence of
      `old`, scanning left to right, becomes `new`; an empty `old` inserts
      `new` before every character and at the end. */
  function Replace(s: string, pat: string, rep: string): (r: string)
    decreases |s|
  {
    if |pat| == 0 then
      if s == [] then rep else rep + [s[0]] + Replace(s[1..], pat, rep)
    else if StartsWith(s, pat) then
      rep + Replace(s[|pat|..], pat, rep)
    else if s == [] then []
    else [s[0]] + Replace(s[1..], pat, rep)
  }

  /** `replace` leaves a string without an occurrence of `pat` unchanged. */
  lemma {:induction false} ReplaceAbsent(s: string, pat: string, rep: string)
    requires |pat| > 0 && !Contains(s, pat)
    ensures Replace(s, pat, rep) == s
  {
    if s != [] {
      assert !OccursAt(s, pat, 0);
      var t := s[1..];
      assert !Contains(t, pat) by {
        forall i | OccursAt(t, pat, i) ensures OccursAt(s, pat, i + 1) {
          assert s[i + 1..i + 1 + |pat|] == t[i..i + |pat|];
        }
      }
      ReplaceAbsent(s[1..], pat, rep);
    }
  }

  /** If the only occurrence of `pat` in `p + pat` is the final one, `replace`
      rewrites just that suffix. */
  lemma {:induction false} ReplaceOnlySuffix(p: string, pat: string, rep: string)
    requires |pat| > 0
    requires forall i :: 0 <= i < |p| ==> !OccursAt(p + pat, pat, i)
    ensures Replace(p + pat, pat, rep) == p + rep
  {
    var s := p + pat;
    if p == [] {
      assert s == pat && s[|pat|..] == [];
    } else {
      assert !StartsWith(s, pat) by { assert !OccursAt(s, pat, 0); }
      assert s[1..] == p[1..] + pat;
      forall i | 0 <= i < |p[1..]| ensures !OccursAt(p[1..] + pat, pat, i) {
        assert !OccursAt(s, pat, i + 1);
        assert s[i + 1..i + 1 + |pat|] == (p[1..] + pat)[i..i + |pat|];
      }
      ReplaceOnlySuffix(p[1..], pat, rep);
      assert [p[0]] + (p[1..] + rep) == p + rep;
    }
  }

  /** Two occurrences of `pat` at the two ends of a string shorter than
      twice `pat` overlap, and the overlap is a border of `pat`. */
  lemma OverlapIsBorder(s: string, pat: string)
    requires StartsWith(s, pat) && EndsWith(s, pat)
    requires |pat| < |s| < 2 * |pat|
    ensures !Unbordered(pat)
  {
    var n := |pat|;
    var k := 2 * n - |s|;
    assert pat[..k] == pat[n - k..] by {
      forall j | 0 <= j < k ensures pat[..k][j] == pat[n - k..][j] {
        assert pat[j] == s[|s| - n + j];
        assert s[|s| - n + j] == pat[n - k + j];
      }
    }
  }

  /** When `pat` is unbordered, a string that ends with `pat` still ends with
      `rep` after `replace`: the final occurrence cannot be swallowed by an
      earlier, overlapping one. */
  lemma {:induction false} ReplaceKeepsSuffix(s: string, pat: string, rep: string)
    requires |pat| > 0 && Unbordered(pat)
    requires EndsWith(s, pat)
    ensures EndsWith(Replace(s, pat, rep), rep)
    decreases |s|
  {
    var n := |pat|;
    if StartsWith(s, pat) {
      var rest := s[n..];
      if |s| == n {
        assert rest == [];
      } else {
        if |s| < 2 * n {
          OverlapIsBorder(s, pat);
          assert false;
        }
        assert EndsWith(rest, pat) by {
          assert rest[|rest| - n..] == s[|s| - n..];
        }
        ReplaceKeepsSuffix(rest, pat, rep);
        var tail := Replace(rest, pat, rep);
        assert Replace(s, pat, rep) == rep + tail;
        assert (rep + tail)[|rep + tail| - |rep|..] == tail[|tail| - |rep|..];
      }
    } else {
      var t := s[1..];
      assert EndsWith(t, pat) by {
        assert t[|t| - n..] == s[|s| - n..];
      }
      ReplaceKeepsSuffix(t, pat, rep);
      var tail := Replace(t, pat, rep);
      assert Replace(s, pat, rep) == [s[0]] + tail;
      assert ([s[0]] + tail)[|[s[0]] + tail| - |rep|..] == tail[|tail| - |rep|..];
    }
  }

  /** The whitespace characters at the front of `s` removed. */
  function DropSpaces(s: string): (t: string)
    ensures |t| <= |s| && t == s[|s| - |t|..]
    ensures IsBlank(s[..|s| - |t|])
    ensures t == [] || !IsSpace(t[0])
  {
    if s != [] && IsSpace(s[0]) then DropSpaces(s[1..]) else s
  }

  /** The longest prefix of `s` with no whitespace. */
  function TakeWord(s: string): (w: string)
    ensures |w| <= |s| && w == s[..|w|]
    ensures NoSpace(w)
    ensures |w| == |s| || IsSpace(s[|w|])
  {
    if s != [] && !IsSpace(s[0]) then [s[0]] + TakeWord(s[1..]) else []
  }

  /** The characters of `s` that are not whitespace, in order. */
  function RemoveSpaces(s: string): string {
    if s == [] then [] else (if IsSpace(s[0]) then [] else [s[0]]) + RemoveSpaces(s[1..])
  }

  function Concat(ws: seq<string>): string {
    if ws == [] then [] else ws[0] + Concat(ws[1..])
  }

  lemma {:induction false} RemoveSpacesAppend(a: string, b: string)
    ensures RemoveSpaces(a + b) == RemoveSpaces(a) + RemoveSpaces(b)
  {
    if a != [] {
      assert (a + b)[1..] == a[1..] + b;
      RemoveSpacesAppend(a[1..], b);
    } else {
      assert a + b == b;
    }
  }

  lemma {:induction false} RemoveSpacesBlank(s: string)
    requires IsBlank(s)
    ensures RemoveSpaces(s) == []
  {
    if s != [] { RemoveSpacesBlank(s[1..]); }
  }

  lemma {:induction false} RemoveSpacesWord(s: string)
    requires NoSpace(s)
    ensures RemoveSpaces(s) == s
  {
    if s != [] { RemoveSpacesWord(s[1..]); }
  }

  /** Python's `s.split()` with no argument: the maximal runs of
      non-whitespace characters, in order. */
  function Split(s: string): (ws: seq<string>)
    decreases |s|
    ensures |ws| <= |s|
  {
    var t := DropSpaces(s);
    if t == [] then []
    else
      var w := TakeWord(t);
      assert |w| == |t| || IsSpace(t[|w|]);
      [w] + Split(t[|w|..])
  }

  /** Every token of `split()` is a non-empty run without whitespace. */
  lemma {:induction false} SplitTokens(s: string)
    ensures forall i :: 0 <= i < |Split(s)| ==> Split(s)[i] != [] && NoSpace(Split(s)[i])
    decreases |s|
  {
    var t := DropSpaces(s);
    if t != [] {
      var w := TakeWord(t);
      assert w != [] by { assert |w| == |t| || IsSpace(t[|w|]); }
      var rest := Split(t[|w|..]);
      SplitTokens(t[|w|..]);
      var ws := Split(s);
      assert ws == [w] + rest;
      forall i | 0 <= i < |ws| ensures ws[i] != [] && NoSpace(ws[i]) {
        if i > 0 { assert ws[i] == rest[i - 1]; }
      }
    }
  }

  lemma SplitAt(s: string, k: nat)
    requires k <= |s|
    ensures s == s[..k] + s[k..]
  {
  }

  /** `split()` returns no token exactly when `s` is blank. */
  lemma SplitEmpty(s: string)
    ensures Split(s) == [] <==> IsBlank(s)
  {
    var t := DropSpaces(s);
    if t != [] {
      assert !IsSpace(s[|s| - |t|]);
    }
  }

  /** The tokens of `split()` spell `s` with its whitespace removed, and there
      are none exactly when `s` is blank. */
  lemma {:induction false} SplitSpells(s: string)
    ensures Concat(Split(s)) == RemoveSpaces(s)
    ensures Split(s) == [] <==> IsBlank(s)
    decreases |s|
  {
    SplitEmpty(s);
    var t := DropSpaces(s);
    var lead := s[..|s| - |t|];
    RemoveSpacesBlank(lead);
    SplitAt(s, |s| - |t|);
    if t == [] {
      assert s == lead;
    } else {
      var w := TakeWord(t);
      var rest := t[|w|..];
      SplitAt(t, |w|);
      RemoveSpacesAppend(lead, w + rest);
      RemoveSpacesAppend(w, rest);
      RemoveSpacesWord(w);
      SplitSpells(rest);
      var ws := Split(s);
      assert ws == [w] + Split(rest);
      assert ws[0] == w && ws[1..] == Split(rest);
    }
  }

  /** Python's `sep.join(ws)`. */
  function JoinWith(ws: seq<string>, sep: string): string {
    if ws == [] then [] else if |ws| == 1 then ws[0] else ws[0] + sep + JoinWith(ws[1..], sep)
  }
}
