/** The JavaScript string operations the pages rely on: `indexOf`, `includes`,
    `split`, `join`, `trim`, `startsWith`, `substring(0, n)` and `toLowerCase`. */
module Text {

  /** The code points `String.prototype.trim` removes: ECMAScript's WhiteSpace
      (tab, vertical tab, form feed, space, no-break space, byte order mark and the
      Unicode space separators) and LineTerminator (LF, CR, LS, PS). */
  predicate IsSpace(c: char) {
    c == ' ' || c == '\t' || c == '\n' || c == '\r' || c == '\U{000B}' || c == '\U{000C}'
    || c == '\U{00A0}' || c == '\U{1680}' || ('\U{2000}' <= c <= '\U{200A}')
    || c == '\U{2028}' || c == '\U{2029}' || c == '\U{202F}' || c == '\U{205F}'
    || c == '\U{3000}' || c == '\U{FEFF}'
  }

  /** A string that `trim` turns into "" (falsy after trimming). */
  predicate IsBlank(s: string) {
    forall i :: 0 <= i < |s| ==> IsSpace(s[i])
  }

  /** `pat` occurs in `s` starting at index `j`. */
  predicate OccursAt(s: string, pat: string, j: int) {
    0 <= j && j + |pat| <= |s| && s[j..j + |pat|] == pat
  }

  /** `s.indexOf(pat)`: the first index where `pat` occurs, or -1. */
  function IndexOf(s: string, pat: string): (k: int)
    ensures k == -1 || OccursAt(s, pat, k)
    ensures forall j :: 0 <= j && (k == -1 || j < k) ==> !OccursAt(s, pat, j)
    decreases |s|
  {
    if |s| < |pat| then -1
    else if s[..|pat|] == pat then 0
    else
      var k := IndexOf(s[1..], pat);
      forall j | 1 <= j ensures OccursAt(s, pat, j) <==> OccursAt(s[1..], pat, j - 1) {
        if j + |pat| <= |s| { SliceOfTail(s, j, j + |pat|); }
      }
      if k < 0 then -1 else k + 1
  }

  /** A slice of the tail is the slice shifted by one. */
  lemma SliceOfTail(s: string, i: int, j: int)
    requires 1 <= i <= j <= |s|
    ensures s[1..][i - 1..j - 1] == s[i..j]
  {
    forall t | 0 <= t < j - i ensures s[1..][i - 1..j - 1][t] == s[i..j][t] {
      assert s[1..][i - 1 + t] == s[i + t];
    }
  }

  /** `hay.includes(needle)`. */
  predicate Contains(hay: string, needle: string) {
    IndexOf(hay, needle) >= 0
  }

  /** `includes` holds exactly when the needle occurs somewhere. */
  lemma ContainsIff(hay: string, needle: string)
    ensures Contains(hay, needle) <==> exists j :: OccursAt(hay, needle, j)
  {
    if exists j :: OccursAt(hay, needle, j) {
      var j :| OccursAt(hay, needle, j);
      assert IndexOf(hay, needle) != -1;
    }
  }

  /** The empty string occurs in every string. */
  lemma ContainsEmpty(hay: string)
    ensures Contains(hay, "")
  {
    assert OccursAt(hay, "", 0);
    ContainsIff(hay, "");
  }

  /** `s.startsWith(p)`. */
  predicate StartsWith(s: string, p: string) {
    |p| <= |s| && s[..|p|] == p
  }

  /** `s.substring(0, n)` for n >= 0: at most the first `n` characters. */
  function Truncate(s: string, n: nat): (r: string)
    ensures |r| <= n && StartsWith(s, r)
    ensures |s| <= n ==> r == s
    ensures |s| > n ==> |r| == n
  {
    if |s| <= n then s else s[..n]
  }

  /** `s.split(sep)` for a non-empty separator: the pieces between
      non-overlapping occurrences, scanned from the left. */
  function Split(s: string, sep: string): (parts: seq<string>)
    requires sep != []
    ensures |parts| >= 1
    decreases |s|
  {
    var k := IndexOf(s, sep);
    if k < 0 then [s] else [s[..k]] + Split(s[k + |sep|..], sep)
  }

  /** `parts.join(sep)`. */
  function Join(parts: seq<string>, sep: string): string {
    if |parts| == 0 then ""
    else if |parts| == 1 then parts[0]
    else parts[0] + sep + Join(parts[1..], sep)
  }

  /** Splitting loses nothing: joining the pieces with the separator gives the string back. */
  lemma {:induction false} JoinSplit(s: string, sep: string)
    requires sep != []
    ensures Join(Split(s, sep), sep) == s
    decreases |s|
  {
    var k := IndexOf(s, sep);
    if k < 0 {
      assert Split(s, sep) == [s];
    } else {
      var tail := s[k + |sep|..];
      SplitAt(s, sep, k);
      JoinSplit(tail, sep);
      JoinCons(s[..k], Split(tail, sep), sep);
      Reassemble(s, k, |sep|);
    }
  }

  /** One step of a split: the text before the first separator, then the
      split of what follows it. */
  lemma SplitAt(s: string, sep: string, k: int)
    requires sep != [] && k == IndexOf(s, sep) && k >= 0
    ensures s[k..k + |sep|] == sep
    ensures Split(s, sep) == [s[..k]] + Split(s[k + |sep|..], sep)
  {
    SeparatorAt(s, sep, k);
    SplitStep(s, sep, k);
  }

  lemma SeparatorAt(s: string, sep: string, k: int)
    requires sep != [] && k == IndexOf(s, sep) && k >= 0
    ensures k + |sep| <= |s| && s[k..k + |sep|] == sep
  {
    assert OccursAt(s, sep, k);
  }

  lemma SplitStep(s: string, sep: string, k: int)
    requires sep != [] && k == IndexOf(s, sep) && k >= 0 && k + |sep| <= |s|
    ensures Split(s, sep) == [s[..k]] + Split(s[k + |sep|..], sep)
  {
  }

  lemma Reassemble(s: string, k: nat, n: nat)
    requires k + n <= |s|
    ensures s == s[..k] + s[k..k + n] + s[k + n..]
  {
  }

  lemma JoinCons(head: string, rest: seq<string>, sep: string)
    requires rest != []
    ensures Join([head] + rest, sep) == head + sep + Join(rest, sep)
  {
    assert ([head] + rest)[1..] == rest;
  }

  /** No piece of a split contains the separator. */
  lemma {:induction false} SplitPiecesAreSeparatorFree(s: string, sep: string)
    requires sep != []
    ensures forall i :: 0 <= i < |Split(s, sep)| ==> !Contains(Split(s, sep)[i], sep)
    decreases |s|
  {
    var k := IndexOf(s, sep);
    if k < 0 {
      ContainsIff(s, sep);
    } else {
      var head := s[..k];
      forall j ensures !OccursAt(head, sep, j) {
        if OccursAt(head, sep, j) {
          assert head[j..j + |sep|] == s[j..j + |sep|];
          assert OccursAt(s, sep, j);
        }
      }
      ContainsIff(head, sep);
      SplitPiecesAreSeparatorFree(s[k + |sep|..], sep);
    }
  }

  /** The first piece of a split is a prefix that ends at the first occurrence
      of the separator, or the whole string when the separator does not occur. */
  lemma SplitHead(s: string, sep: string)
    requires sep != []
    ensures StartsWith(s, Split(s, sep)[0])
    ensures !Contains(Split(s, sep)[0], sep)
    ensures |Split(s, sep)[0]| == |s| || OccursAt(s, sep, |Split(s, sep)[0]|)
    ensures forall j :: 0 <= j < |Split(s, sep)[0]| ==> !OccursAt(s, sep, j)
  {
    SplitPiecesAreSeparatorFree(s, sep);
    var k := IndexOf(s, sep);
    if k >= 0 {
      SplitAt(s, sep, k);
    } else {
      assert Split(s, sep) == [s];
    }
  }

  /** A one-character pattern occurs at `j` exactly when that character is there. */
  lemma OccursAtChar(s: string, c: char, j: int)
    ensures OccursAt(s, [c], j) <==> 0 <= j < |s| && s[j] == c
  {
    if 0 <= j < |s| { assert s[j..j + 1] == [s[j]]; }
  }

  /** A string that does not contain the one-character pattern `[c]` has no `c`. */
  lemma NoCharInside(s: string, c: char)
    requires !Contains(s, [c])
    ensures forall i :: 0 <= i < |s| ==> s[i] != c
  {
    ContainsIff(s, [c]);
    forall i | 0 <= i < |s| ensures s[i] != c {
      OccursAtChar(s, c, i);
    }
  }

  /** When `c` first occurs at `n`, the first piece of a split on `c` is the
      text before it. */
  lemma FirstPieceBefore(s: string, c: char, n: nat)
    requires n < |s| && s[n] == c
    requires forall i :: 0 <= i < n ==> s[i] != c
    ensures IndexOf(s, [c]) == n
    ensures Split(s, [c]) == [s[..n]] + Split(s[n + 1..], [c])
  {
    forall j | 0 <= j < n ensures !OccursAt(s, [c], j) { OccursAtChar(s, c, j); }
    OccursAtChar(s, c, n);
  }

  /** A string without `c` splits on `c` into itself alone. */
  lemma SplitWithout(s: string, c: char)
    requires forall i :: 0 <= i < |s| ==> s[i] != c
    ensures Split(s, [c]) == [s]
  {
    forall j ensures !OccursAt(s, [c], j) { OccursAtChar(s, c, j); }
    ContainsIff(s, [c]);
  }

  /** Leading whitespace removed (`trimStart`). */
  function TrimStart(s: string): (r: string)
    ensures |r| <= |s| && r == s[|s| - |r|..]
    ensures r == [] || !IsSpace(r[0])
    ensures IsBlank(s[..|s| - |r|])
  {
    if s != [] && IsSpace(s[0]) then
      var r := TrimStart(s[1..]);
      assert s[1..][|s| - 1 - |r|..] == s[|s| - |r|..];
      BlankPrepend(s, |s| - |r|);
      r
    else s
  }

  /** A blank prefix grows by a leading space. */
  lemma BlankPrepend(s: string, n: nat)
    requires 1 <= n <= |s| && IsSpace(s[0]) && IsBlank(s[1..][..n - 1])
    ensures IsBlank(s[..n])
  {
    forall i | 1 <= i < n ensures IsSpace(s[..n][i]) {
      assert s[..n][i] == s[1..][..n - 1][i - 1];
    }
  }

  /** Trailing whitespace removed (`trimEnd`). */
  function TrimEnd(s: string): (r: string)
    ensures |r| <= |s| && r == s[..|r|]
    ensures r == [] || !IsSpace(r[|r| - 1])
    ensures IsBlank(s[|r|..])
  {
    if s != [] && IsSpace(s[|s| - 1]) then
      var r := TrimEnd(s[..|s| - 1]);
      assert s[..|s| - 1][..|r|] == s[..|r|];
      BlankAppend(s, |r|);
      r
    else s
  }

  /** A blank suffix grows by a trailing space. */
  lemma BlankAppend(s: string, n: nat)
    requires n < |s| && IsSpace(s[|s| - 1]) && IsBlank(s[..|s| - 1][n..])
    ensures IsBlank(s[n..])
  {
    forall i | 0 <= i < |s| - n - 1 ensures IsSpace(s[n..][i]) {
      assert s[n..][i] == s[..|s| - 1][n..][i];
    }
  }

  /** `s.trim()`. */
  function Trim(s: string): string {
    TrimEnd(TrimStart(s))
  }

  /** The trimmed string has no whitespace at either of its ends. */
  lemma TrimEnds(s: string)
    ensures Trim(s) == [] || (!IsSpace(Trim(s)[0]) && !IsSpace(Trim(s)[|Trim(s)| - 1]))
  {
    var t := TrimStart(s);
    var r := TrimEnd(t);
    assert Trim(s) == r;
    if r != [] {
      assert r == t[..|r|];
      assert r[0] == t[0];
      assert !IsSpace(t[0]);
      assert !IsSpace(r[|r| - 1]);
    }
  }

  /** `trim` cuts only whitespace, and only at the two ends: the result is a
      slice of the input. */
  lemma TrimSlice(s: string)
    ensures exists a, b :: 0 <= a <= b <= |s| && Trim(s) == s[a..b] && IsBlank(s[..a]) && IsBlank(s[b..])
  {
    var t := TrimStart(s);
    var r := TrimEnd(t);
    var a := |s| - |t|;
    var b := a + |r|;
    assert t == s[a..];
    assert r == t[..|r|];
    assert r == s[a..b];
    assert s[b..] == t[|r|..];
    assert Trim(s) == r;
  }

  /** A blank string followed by a blank string is blank. */
  lemma BlankConcat(x: string, y: string)
    requires IsBlank(x) && IsBlank(y)
    ensures IsBlank(x + y)
  {
    forall i | 0 <= i < |x + y| ensures IsSpace((x + y)[i]) {
      if i < |x| { assert (x + y)[i] == x[i]; } else { assert (x + y)[i] == y[i - |x|]; }
    }
  }

  /** Trimming adds no character: a character absent from the input is
      absent from the trimmed string. */
  lemma TrimKeepsAbsent(s: string, c: char)
    requires forall i :: 0 <= i < |s| ==> s[i] != c
    ensures forall i :: 0 <= i < |Trim(s)| ==> Trim(s)[i] != c
  {
    var t := TrimStart(s);
    var a := |s| - |t|;
    assert t == s[a..];
    forall i | 0 <= i < |t| ensures t[i] != c {
      assert t[i] == s[a + i];
    }
    var r := TrimEnd(t);
    assert r == t[..|r|];
    forall i | 0 <= i < |r| ensures r[i] != c {
      assert r[i] == t[i];
    }
    assert Trim(s) == r;
  }

  /** A string trims to "" exactly when it is blank. */
  lemma TrimEmptyIffBlank(s: string)
    ensures Trim(s) == [] <==> IsBlank(s)
  {
    var t := TrimStart(s);
    if IsBlank(s) {
      BlankTrimsToEmpty(s);
    }
    if Trim(s) == [] {
      assert IsBlank(t[0..]);
      assert t == [];
      assert s[..|s|] == s;
    }
  }

  lemma {:induction false} BlankTrimsToEmpty(s: string)
    requires IsBlank(s)
    ensures TrimStart(s) == []
  {
    if s != [] {
      BlankTrimsToEmpty(s[1..]);
    }
  }

  /** A string that starts with a non-space character keeps that character
      first after trimming. */
  lemma TrimKeepsFirst(s: string)
    requires s != [] && !IsSpace(s[0])
    ensures Trim(s) != [] && Trim(s)[0] == s[0]
  {
    assert TrimStart(s) == s;
    TrimEmptyIffBlank(s);
  }

  /** Trimming twice is trimming once. */
  lemma TrimIdempotent(s: string)
    ensures Trim(Trim(s)) == Trim(s)
  {
    var r := Trim(s);
    TrimEnds(s);
    assert TrimStart(r) == r;
    assert TrimEnd(r) == r;
  }

  /** `toLowerCase` on one character, for the ASCII letters. */
  function LowerChar(c: char): char {
    if 'A' <= c <= 'Z' then (c as int + 32) as char else c
  }

  /** `s.toLowerCase()` restricted to ASCII letters. */
  function ToLower(s: string): string {
    seq(|s|, i requires 0 <= i < |s| => LowerChar(s[i]))
  }

  /** Lower-casing keeps the length and is idempotent, so matching against an
      already lower-cased query gives the same answer. */
  lemma ToLowerIdempotent(s: string)
    ensures |ToLower(s)| == |s|
    ensures ToLower(ToLower(s)) == ToLower(s)
  {
  }
}
