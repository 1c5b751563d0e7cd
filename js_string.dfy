/**
  The JavaScript string built-ins the application relies on. A `string` is a
  sequence of Unicode scalar values, one `char` each; JavaScript counts and
  slices UTF-16 code units instead, and the two agree on text without
  characters outside the Basic Multilingual Plane.
*/
module JsString {

  /** The characters that `String.prototype.trim` removes and that the
      regular-expression class `\s` matches. */
  predicate IsSpace(c: char) {
    || c == ' ' || c == '\t' || c == '\n' || c == '\r'
    || c == '\U{000B}' || c == '\U{000C}' || c == '\U{00A0}' || c == '\U{1680}'
    || ('\U{2000}' <= c <= '\U{200A}')
    || c == '\U{2028}' || c == '\U{2029}' || c == '\U{202F}' || c == '\U{205F}'
    || c == '\U{3000}' || c == '\U{FEFF}'
  }

  predicate AllSpace(s: string) {
    forall i :: 0 <= i < |s| ==> IsSpace(s[i])
  }

  /** `s.startsWith(prefix)` */
  predicate StartsWith(s: string, prefix: string) {
    |prefix| <= |s| && s[..|prefix|] == prefix
  }

  /** `s.endsWith(suffix)` */
  predicate EndsWith(s: string, suffix: string) {
    |suffix| <= |s| && s[|s| - |suffix|..] == suffix
  }

  /** `p` occurs in `s` starting at index `i`. */
  predicate OccursAt(s: string, p: string, i: int) {
    0 <= i <= |s| - |p| && s[i..i + |p|] == p
  }

  /** `s.includes(p)` */
  predicate Contains(s: string, p: string) {
    exists i | 0 <= i <= |s| - |p| :: OccursAt(s, p, i)
  }

  /** A concatenation starts with its first part, ends with its last, and
      contains the one in the middle. */
  lemma ConcatParts(a: string, b: string, c: string)
    ensures var s := a + b + c;
      StartsWith(s, a) && OccursAt(s, b, |a|) && Contains(s, b) && EndsWith(s, c)
  {
    var s := a + b + c;
    assert s[..|a|] == a;
    assert s[|a|..|a| + |b|] == b;
    assert OccursAt(s, b, |a|);
    assert s[|s| - |c|..] == c;
  }

  /** Appending to a text keeps its prefixes and what it contains. */
  lemma AppendKeeps(u: string, t: string, p: string)
    ensures StartsWith(u, p) ==> StartsWith(u + t, p)
    ensures Contains(u, p) ==> Contains(u + t, p)
  {
    if StartsWith(u, p) {
      assert (u + t)[..|p|] == u[..|p|];
    }
    if Contains(u, p) {
      var i :| 0 <= i <= |u| - |p| && OccursAt(u, p, i);
      assert (u + t)[i..i + |p|] == u[i..i + |p|];
      assert OccursAt(u + t, p, i);
    }
  }

  // ---------------------------------------------------------------------------
  // trim, and the white space around the trimmed text

  /** `s.trimStart()` */
  function TrimStart(s: string): string {
    if s != [] && IsSpace(s[0]) then TrimStart(s[1..]) else s
  }

  /** What `trimStart` removes is white space, and what it keeps is a suffix
      that does not start with white space. */
  lemma {:induction false} TrimStartSpec(s: string)
    ensures var r := TrimStart(s);
      && |r| <= |s| && r == s[|s| - |r|..]
      && AllSpace(s[..|s| - |r|])
      && (r == [] || !IsSpace(r[0]))
  {
    if s != [] && IsSpace(s[0]) {
      TrimStartSpec(s[1..]);
      var r := TrimStart(s);
      assert s[1..][..|s| - 1 - |r|] == s[1..|s| - |r|];
    }
  }

  /** `s.trimEnd()` */
  function TrimEnd(s: string): string {
    if s != [] && IsSpace(s[|s| - 1]) then TrimEnd(s[..|s| - 1]) else s
  }

  /** What `trimEnd` removes is white space, and what it keeps is a prefix
      that does not end with white space. */
  lemma {:induction false} TrimEndSpec(s: string)
    ensures var r := TrimEnd(s);
      && |r| <= |s| && r == s[..|r|]
      && AllSpace(s[|r|..])
      && (r == [] || !IsSpace(r[|r| - 1]))
  {
    if s != [] && IsSpace(s[|s| - 1]) {
      TrimEndSpec(s[..|s| - 1]);
      var r := TrimEnd(s);
      assert s[..|s| - 1][..|r|] == s[..|r|];
      assert s[|r|..] == s[..|s| - 1][|r|..] + [s[|s| - 1]];
    }
  }

  /** `s.trim()` */
  function Trim(s: string): string {
    TrimEnd(TrimStart(s))
  }

  /** `s.match(/^\s*\/)[0]`: the longest all-white-space prefix. */
  function LeadingSpace(s: string): string {
    TrimStartSpec(s);
    s[..|s| - |TrimStart(s)|]
  }

  /** `s.match(/\s*$/)[0]`: the longest all-white-space suffix. */
  function TrailingSpace(s: string): string {
    TrimEndSpec(s);
    s[|TrimEnd(s)|..]
  }

  lemma TrimStartUnique(s: string, k: nat)
    requires k <= |s| && AllSpace(s[..k]) && (k == |s| || !IsSpace(s[k]))
    ensures TrimStart(s) == s[k..]
  {
    if k > 0 {
      assert IsSpace(s[..k][0]);
      assert s[1..][..k - 1] == s[..k][1..];
      TrimStartUnique(s[1..], k - 1);
      assert s[1..][k - 1..] == s[k..];
    }
  }

  lemma TrimEndUnique(s: string, k: nat)
    requires k <= |s| && AllSpace(s[k..]) && (k == 0 || !IsSpace(s[k - 1]))
    ensures TrimEnd(s) == s[..k]
  {
    if k < |s| {
      assert IsSpace(s[k..][|s| - 1 - k]);
      var t := s[..|s| - 1];
      assert t[k..] == s[k..][..|s| - 1 - k];
      TrimEndUnique(t, k);
      assert t[..k] == s[..k];
    }
  }

  /** A text with some non-space content is its leading white space, its
      trimmed text and its trailing white space, in that order. */
  lemma TrimmedBounds(s: string) returns (a: nat, k: nat)
    requires Trim(s) != []
    ensures a <= k <= |s|
    ensures LeadingSpace(s) == s[..a] && Trim(s) == s[a..k] && TrailingSpace(s) == s[k..]
  {
    var t := TrimStart(s);
    TrimStartSpec(s);
    a := |s| - |t|;
    var u := TrimEnd(t);
    TrimEndSpec(t);
    k := a + |u|;
    assert t == s[a..];
    assert s[k..] == t[|u|..];
    assert s[k - 1] == u[|u| - 1];
    TrimEndUnique(s, k);
  }

  lemma TrimSplitsText(s: string)
    requires Trim(s) != []
    ensures LeadingSpace(s) + Trim(s) + TrailingSpace(s) == s
  {
    var a, k := TrimmedBounds(s);
    assert s == s[..a] + s[a..k] + s[k..];
  }

  /** Padding a text that has no white space at either end, and trimming it
      again, gives back the text and the padding. */
  lemma TrimOfPadded(lead: string, r: string, trail: string)
    requires AllSpace(lead) && AllSpace(trail)
    requires r != [] && !IsSpace(r[0]) && !IsSpace(r[|r| - 1])
    ensures Trim(lead + r + trail) == r
    ensures LeadingSpace(lead + r + trail) == lead
    ensures TrailingSpace(lead + r + trail) == trail
  {
    var s := lead + r + trail;
    assert s[..|lead|] == lead;
    assert s[|lead|] == r[0];
    TrimStartUnique(s, |lead|);
    var t := s[|lead|..];
    assert t == r + trail;
    assert t[|r|..] == trail;
    assert t[|r| - 1] == r[|r| - 1];
    TrimEndUnique(t, |r|);
    assert t[..|r|] == r;
    assert s[|lead| + |r|..] == trail;
    assert s[|lead| + |r| - 1] == r[|r| - 1];
    TrimEndUnique(s, |lead| + |r|);
  }

  // ---------------------------------------------------------------------------
  // lower case

  function LowerChar(c: char): char {
    if IsUpper(c) then (c as int + 32) as char else c
  }

  predicate IsUpper(c: char) {
    'A' <= c <= 'Z'
  }

  /** `s.toLowerCase()`, restricted to the ASCII letters: no upper-case
      letter is left, each one becomes its lower-case partner, and every
      other character is kept in place. */
  function ToLower(s: string): (r: string)
    ensures |r| == |s|
    ensures forall i :: 0 <= i < |r| ==> !IsUpper(r[i])
    ensures forall i :: 0 <= i < |s| && IsUpper(s[i]) ==> r[i] as int == s[i] as int + 32
    ensures forall i :: 0 <= i < |s| && !IsUpper(s[i]) ==> r[i] == s[i]
  {
    seq(|s|, i requires 0 <= i < |s| => LowerChar(s[i]))
  }

  /** Lower-casing twice is lower-casing once. */
  lemma ToLowerIdempotent(s: string)
    ensures ToLower(ToLower(s)) == ToLower(s)
  {
  }

  /** Lower-casing keeps a suffix a suffix, so a name ending in `.PSD` ends in
      `.psd` once lower-cased. */
  lemma ToLowerEndsWith(s: string, t: string)
    requires EndsWith(s, t)
    ensures EndsWith(ToLower(s), ToLower(t))
  {
    var k := |s| - |t|;
    assert forall i :: 0 <= i < |t| ==> s[k + i] == t[i];
  }

  // ---------------------------------------------------------------------------
  // split, join, replace-all and match-count over a literal pattern

  /** `s.split(sep)` for a non-empty separator: the pieces between the
      left-to-right, non-overlapping occurrences of `sep`. */
  function Split(s: string, sep: string): (parts: seq<string>)
    requires sep != []
    ensures |parts| >= 1
    ensures StartsWith(s, parts[0])
    decreases |s|
  {
    if StartsWith(s, sep) then [""] + Split(s[|sep|..], sep)
    else if s == [] then [""]
    else
      var rest := Split(s[1..], sep);
      [[s[0]] + rest[0]] + rest[1..]
  }

  /** `parts.join(sep)` */
  function Join(parts: seq<string>, sep: string): string
    decreases |parts|
  {
    if |parts| == 0 then ""
    else if |parts| == 1 then parts[0]
    else parts[0] + sep + Join(parts[1..], sep)
  }

  lemma JoinConsChar(c: char, parts: seq<string>, sep: string)
    requires |parts| >= 1
    ensures Join([[c] + parts[0]] + parts[1..], sep) == [c] + Join(parts, sep)
  {
    var q := [[c] + parts[0]] + parts[1..];
    if |parts| > 1 {
      assert q[1..] == parts[1..];
    }
  }

  /** `s.replace(new RegExp(escaped(pat), 'g'), rep)` with a replacement that
      holds no `$` pattern: every left-to-right, non-overlapping occurrence of
      `pat` becomes `rep`. The empty pattern matches before every character
      and at the end. */
  function ReplaceAll(s: string, pat: string, rep: string): string
    decreases |s|
  {
    if pat == [] then
      (if s == [] then rep else rep + [s[0]] + ReplaceAll(s[1..], pat, rep))
    else if StartsWith(s, pat) then rep + ReplaceAll(s[|pat|..], pat, rep)
    else if s == [] then ""
    else [s[0]] + ReplaceAll(s[1..], pat, rep)
  }

  /** `(s.match(new RegExp(escaped(p), 'g'))?.length || 0)`: the number of
      left-to-right, non-overlapping occurrences of `p`. */
  function Count(s: string, p: string): nat
    requires p != []
    decreases |s|
  {
    if StartsWith(s, p) then 1 + Count(s[|p|..], p)
    else if s == [] then 0
    else Count(s[1..], p)
  }

  /** Splitting and joining with the same separator gives the text back. */
  lemma {:induction false} JoinSplit(s: string, sep: string)
    requires sep != []
    ensures Join(Split(s, sep), sep) == s
    decreases |s|
  {
    if StartsWith(s, sep) {
      var rest := Split(s[|sep|..], sep);
      JoinSplit(s[|sep|..], sep);
      assert ([""] + rest)[1..] == rest;
      assert s == sep + s[|sep|..];
    } else if s != [] {
      var rest := Split(s[1..], sep);
      JoinSplit(s[1..], sep);
      JoinConsChar(s[0], rest, sep);
    }
  }

  /** No piece of a split holds the separator. */
  lemma {:induction false} SplitPiecesAreFree(s: string, sep: string, i: nat)
    requires sep != [] && i < |Split(s, sep)|
    ensures !Contains(Split(s, sep)[i], sep)
    decreases |s|
  {
    if StartsWith(s, sep) {
      if i > 0 {
        SplitPiecesAreFree(s[|sep|..], sep, i - 1);
      }
    } else if s != [] {
      var rest := Split(s[1..], sep);
      if i == 0 {
        SplitPiecesAreFree(s[1..], sep, 0);
        var piece := [s[0]] + rest[0];
        forall j | OccursAt(piece, sep, j) ensures false {
          if j > 0 {
            assert rest[0][j - 1..j - 1 + |sep|] == piece[j..j + |sep|];
            assert OccursAt(rest[0], sep, j - 1);
          }
        }
      } else {
        SplitPiecesAreFree(s[1..], sep, i);
      }
    }
  }

  /** Replacing every occurrence is splitting at the pattern and joining with
      the replacement. */
  lemma {:induction false} ReplaceAllIsJoinOfSplit(s: string, pat: string, rep: string)
    requires pat != []
    ensures ReplaceAll(s, pat, rep) == Join(Split(s, pat), rep)
    decreases |s|
  {
    if StartsWith(s, pat) {
      var rest := Split(s[|pat|..], pat);
      ReplaceAllIsJoinOfSplit(s[|pat|..], pat, rep);
      assert ([""] + rest)[1..] == rest;
      assert Join([""] + rest, rep) == "" + rep + Join(rest, rep);
      assert "" + rep + Join(rest, rep) == rep + Join(rest, rep);
    } else if s != [] {
      ReplaceAllIsJoinOfSplit(s[1..], pat, rep);
      JoinConsChar(s[0], Split(s[1..], pat), rep);
    }
  }

  /** The match count is the number of separators a split finds. */
  lemma {:induction false} CountIsSeparators(s: string, p: string)
    requires p != []
    ensures Count(s, p) == |Split(s, p)| - 1
    decreases |s|
  {
    if StartsWith(s, p) {
      CountIsSeparators(s[|p|..], p);
    } else if s != [] {
      CountIsSeparators(s[1..], p);
    }
  }

  /** The match count is zero exactly when the pattern does not occur. */
  lemma {:induction false} CountZeroIffAbsent(s: string, p: string)
    requires p != []
    ensures Count(s, p) == 0 <==> !Contains(s, p)
    decreases |s|
  {
    if StartsWith(s, p) {
      assert OccursAt(s, p, 0);
    } else if s != [] {
      CountZeroIffAbsent(s[1..], p);
      if Contains(s, p) {
        var j :| 0 <= j <= |s| - |p| && OccursAt(s, p, j);
        assert j != 0;
        assert s[1..][j - 1..j - 1 + |p|] == s[j..j + |p|];
        assert OccursAt(s[1..], p, j - 1);
      }
      if Contains(s[1..], p) {
        var j :| 0 <= j <= |s| - 1 - |p| && OccursAt(s[1..], p, j);
        assert s[j + 1..j + 1 + |p|] == s[1..][j..j + |p|];
        assert OccursAt(s, p, j + 1);
      }
    } else {
      assert !Contains(s, p) by {
        forall j | OccursAt(s, p, j) ensures false { }
      }
    }
  }

  /** A text without the separator splits into itself alone. */
  lemma SplitWithoutSeparator(s: string, sep: string)
    requires sep != [] && !Contains(s, sep)
    ensures Split(s, sep) == [s]
  {
    CountZeroIffAbsent(s, sep);
    CountIsSeparators(s, sep);
    JoinSplit(s, sep);
  }

  /** Text without the pattern is left as it is by a replace-all. */
  lemma ReplaceAllWithoutPattern(s: string, pat: string, rep: string)
    requires pat != [] && !Contains(s, pat)
    ensures ReplaceAll(s, pat, rep) == s
  {
    SplitWithoutSeparator(s, pat);
    ReplaceAllIsJoinOfSplit(s, pat, rep);
  }

  lemma SplitUnfoldOne(s: string, c: char)
    ensures s != [] && s[0] == c ==> Split(s, [c]) == [""] + Split(s[1..], [c])
    ensures s != [] && s[0] != c ==>
      var rest := Split(s[1..], [c]); Split(s, [c]) == [[s[0]] + rest[0]] + rest[1..]
  {
    assert s != [] ==> (StartsWith(s, [c]) <==> s[0] == c);
  }

  /** Splitting at a one-character separator distributes over a join at it. */
  lemma {:induction false} SplitAtJoint(a: string, c: char, b: string)
    ensures Split(a + [c] + b, [c]) == Split(a, [c]) + Split(b, [c])
    decreases |a|
  {
    var s := a + [c] + b;
    SplitUnfoldOne(s, c);
    if a == [] {
      assert s[1..] == b;
    } else {
      SplitUnfoldOne(a, c);
      assert s[0] == a[0] && s[1..] == a[1..] + [c] + b;
      SplitAtJoint(a[1..], c, b);
      if a[0] != c {
        ConsFirstPiece(a[0], Split(a[1..], [c]), Split(b, [c]));
      }
    }
  }

  lemma ConsFirstPiece(c: char, ra: seq<string>, rb: seq<string>)
    requires |ra| >= 1
    ensures var r := ra + rb; [[c] + r[0]] + r[1..] == ([[c] + ra[0]] + ra[1..]) + rb
  {
    assert (ra + rb)[0] == ra[0];
    assert (ra + rb)[1..] == ra[1..] + rb;
  }

  // ---------------------------------------------------------------------------
  // decimal digits

  predicate IsDigit(c: char) {
    '0' <= c <= '9'
  }

  function DigitChar(d: nat): (c: char)
    requires d < 10
    ensures IsDigit(c) && (c as int) - ('0' as int) == d
  {
    (('0' as int) + d) as char
  }

  /** `n.toString()` for a non-negative integer number. */
  function NatToString(n: nat): (r: string)
    ensures r != [] && forall i :: 0 <= i < |r| ==> IsDigit(r[i])
    decreases n
  {
    if n < 10 then [DigitChar(n)] else NatToString(n / 10) + [DigitChar(n % 10)]
  }

  function DigitValue(c: char): nat
    requires IsDigit(c)
  {
    (c as int) - ('0' as int)
  }

  /** The number a string of decimal digits denotes. */
  function DecimalValue(s: string): nat
    requires forall i :: 0 <= i < |s| ==> IsDigit(s[i])
  {
    if s == [] then 0
    else DecimalValue(s[..|s| - 1]) * 10 + DigitValue(s[|s| - 1])
  }

  /** Reading back the decimal text of a number gives the number. */
  lemma {:induction false} NatToStringRoundTrip(n: nat)
    ensures DecimalValue(NatToString(n)) == n
    decreases n
  {
    if n >= 10 {
      var r := NatToString(n);
      NatToStringRoundTrip(n / 10);
      assert r[..|r| - 1] == NatToString(n / 10);
    }
  }
}
