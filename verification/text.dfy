/** The string primitives the manager relies on: .NET's `Trim`, `ToLower`,
    `Contains`, `StartsWith` and `Split(char)`, restricted to ASCII. */
module Text {

  /** White space as `Trim` and number parsing see it: tab, line feed,
      vertical tab, form feed, carriage return (U+0009..U+000D) and space. */
  predicate IsWhiteSpace(c: char) {
    c == ' ' || ('\t' <= c <= '\r')
  }

  predicate AllWhiteSpace(s: string) {
    forall i :: 0 <= i < |s| ==> IsWhiteSpace(s[i])
  }

  /** Neither starts nor ends with white space. */
  predicate IsTrimmed(s: string) {
    |s| == 0 || (!IsWhiteSpace(s[0]) && !IsWhiteSpace(s[|s| - 1]))
  }

  /** `s` with its leading white space removed. */
  function TrimStart(s: string): (r: string)
    ensures |r| <= |s|
    ensures |r| == 0 || !IsWhiteSpace(r[0])
    decreases |s|
  {
    if |s| > 0 && IsWhiteSpace(s[0]) then TrimStart(s[1..]) else s
  }

  /** `s` with its trailing white space removed. */
  function TrimEnd(s: string): (r: string)
    ensures |r| <= |s|
    ensures |r| == 0 || !IsWhiteSpace(r[|r| - 1])
    ensures |r| > 0 ==> r[0] == s[0]
    decreases |s|
  {
    if |s| > 0 && IsWhiteSpace(s[|s| - 1]) then TrimEnd(s[..|s| - 1]) else s
  }

  /** `TrimStart` drops a white-space prefix and keeps the rest. */
  lemma {:induction false} TrimStartDropsPrefix(s: string)
    ensures TrimStart(s) == s[|s| - |TrimStart(s)|..]
    ensures AllWhiteSpace(s[..|s| - |TrimStart(s)|])
    decreases |s|
  {
    if |s| > 0 && IsWhiteSpace(s[0]) {
      TrimStartDropsPrefix(s[1..]);
      var k := |s| - |TrimStart(s)|;
      assert s[1..][k - 1..] == s[k..];
      assert s[..k] == [s[0]] + s[1..][..k - 1];
    }
  }

  /** `TrimEnd` drops a white-space suffix and keeps the rest. */
  lemma {:induction false} TrimEndDropsSuffix(s: string)
    ensures TrimEnd(s) == s[..|TrimEnd(s)|]
    ensures AllWhiteSpace(s[|TrimEnd(s)|..])
    decreases |s|
  {
    if |s| > 0 && IsWhiteSpace(s[|s| - 1]) {
      var front := s[..|s| - 1];
      TrimEndDropsSuffix(front);
      var k := |TrimEnd(s)|;
      assert front[..k] == s[..k];
      assert s[k..] == front[k..] + [s[|s| - 1]];
    }
  }

  /** `s` is `r` with only white space at position `k` before it and after it. */
  predicate PaddedAt(s: string, r: string, k: nat) {
    k + |r| <= |s| && s[k..k + |r|] == r && AllWhiteSpace(s[..k]) && AllWhiteSpace(s[k + |r|..])
  }

  /** String.Trim(): `s` with the white space around it dropped. */
  function Trim(s: string): (r: string)
    ensures IsTrimmed(r)
    ensures |r| <= |s|
  {
    TrimEnd(TrimStart(s))
  }

  /** What `Trim` drops is white space on either side of its result. */
  lemma TrimDropsOnlyWhiteSpace(s: string)
    ensures exists k :: PaddedAt(s, Trim(s), k)
  {
    var front := TrimStart(s);
    var r := TrimEnd(front);
    assert r == Trim(s);
    TrimStartDropsPrefix(s);
    TrimEndDropsSuffix(front);
    var k := |s| - |front|;
    assert front == s[k..];
    assert s[k..k + |r|] == r;
    assert s[k + |r|..] == front[|r|..];
    assert PaddedAt(s, r, k);
  }

  /** Padding a trimmed string with white space on either side is undone by `Trim`. */
  lemma {:induction false} TrimOfPadded(w1: string, x: string, w2: string)
    requires AllWhiteSpace(w1) && AllWhiteSpace(w2) && IsTrimmed(x)
    ensures Trim(w1 + x + w2) == x
  {
    var s := w1 + x + w2;
    if |x| == 0 {
      assert s == (w1 + w2) + "";
      TrimStartOfPadded(w1 + w2, "");
      assert TrimStart(s) == "";
    } else {
      assert s == w1 + (x + w2);
      TrimStartOfPadded(w1, x + w2);
      TrimEndOfPadded(x, w2);
    }
  }

  lemma {:induction false} TrimStartOfPadded(w: string, y: string)
    requires AllWhiteSpace(w)
    requires |y| == 0 || !IsWhiteSpace(y[0])
    ensures TrimStart(w + y) == y
    decreases |w|
  {
    if |w| > 0 {
      assert (w + y)[1..] == w[1..] + y;
      TrimStartOfPadded(w[1..], y);
    } else {
      assert w + y == y;
    }
  }

  lemma {:induction false} TrimEndOfPadded(y: string, w: string)
    requires AllWhiteSpace(w)
    requires |y| == 0 || !IsWhiteSpace(y[|y| - 1])
    ensures TrimEnd(y + w) == y
    decreases |w|
  {
    if |w| > 0 {
      assert (y + w)[..|y + w| - 1] == y + w[..|w| - 1];
      TrimEndOfPadded(y, w[..|w| - 1]);
    } else {
      assert y + w == y;
    }
  }

  /** A trimmed string is its own trim; in particular `Trim` is idempotent. */
  lemma TrimOfTrimmed(s: string)
    requires IsTrimmed(s)
    ensures Trim(s) == s
  {
    TrimOfPadded("", s, "");
    assert "" + s + "" == s;
  }

  /** A string trims to nothing exactly when it is all white space. */
  lemma BlankIffAllWhiteSpace(s: string)
    ensures |Trim(s)| == 0 <==> AllWhiteSpace(s)
  {
    if AllWhiteSpace(s) {
      TrimOfPadded(s, "", "");
      assert s + "" + "" == s;
    } else {
      var r := Trim(s);
      TrimDropsOnlyWhiteSpace(s);
      var k :| PaddedAt(s, r, k);
      if |r| == 0 {
        WhiteSpaceHalves(s, k);
      }
    }
  }

  lemma WhiteSpaceHalves(s: string, k: nat)
    requires k <= |s| && AllWhiteSpace(s[..k]) && AllWhiteSpace(s[k..])
    ensures AllWhiteSpace(s)
  {
    assert s == s[..k] + s[k..];
  }

  /** ASCII case folding, as `ToLower` does for the markers searched for. */
  function LowerChar(c: char): (r: char)
    ensures !('A' <= r <= 'Z')
    ensures !('A' <= c <= 'Z') ==> r == c
  {
    if 'A' <= c <= 'Z' then (c as int + 32) as char else c
  }

  function ToLower(s: string): (r: string)
    ensures |r| == |s|
    ensures forall i :: 0 <= i < |s| ==> r[i] == LowerChar(s[i])
  {
    seq(|s|, i requires 0 <= i < |s| => LowerChar(s[i]))
  }

  /** Ordinal substring search (`String.Contains`). */
  predicate Contains(s: string, sub: string) {
    exists i | 0 <= i <= |s| - |sub| :: OccursAt(s, sub, i)
  }

  predicate OccursAt(s: string, sub: string, i: int) {
    0 <= i <= |s| - |sub| && s[i..i + |sub|] == sub
  }

  /** `s.ToLower().Contains(marker)` for a lower-case marker. */
  predicate ContainsIgnoringCase(s: string, marker: string) {
    Contains(ToLower(s), marker)
  }

  /** `String.StartsWith(string)`, compared character by character. The
      .NET call is culture-sensitive and skips characters the culture
      ignores; this comparison does not. */
  predicate StartsWith(s: string, prefix: string) {
    |prefix| <= |s| && s[..|prefix|] == prefix
  }

  /** Inserting `sep` between consecutive parts; the inverse of `Split`. */
  function Join(parts: seq<string>, sep: char): string
    requires |parts| >= 1
    decreases |parts|
  {
    if |parts| == 1 then parts[0] else parts[0] + [sep] + Join(parts[1..], sep)
  }

  /** Position of the first `c` in `s`. */
  function IndexOf(s: string, c: char): (i: nat)
    requires c in s
    ensures i < |s| && s[i] == c && c !in s[..i]
  {
    if s[0] == c then 0
    else
      var j := IndexOf(s[1..], c);
      assert s[..j + 1] == [s[0]] + s[1..][..j];
      j + 1
  }

  /** `String.Split(char)`: the pieces between occurrences of `sep`, empty
      pieces included, so there is always at least one piece. */
  function Split(s: string, sep: char): (r: seq<string>)
    ensures |r| >= 1
    ensures forall k :: 0 <= k < |r| ==> sep !in r[k]
    ensures Join(r, sep) == s
    decreases |s|
  {
    if sep !in s then [s]
    else
      var i := IndexOf(s, sep);
      var rest := Split(s[i + 1..], sep);
      var r := [s[..i]] + rest;
      assert r[1..] == rest;
      assert s == s[..i] + [sep] + s[i + 1..];
      r
  }

  /** Splitting a join of separator-free parts gives the parts back. */
  lemma {:induction false} SplitOfJoin(parts: seq<string>, sep: char)
    requires |parts| >= 1
    requires forall k :: 0 <= k < |parts| ==> sep !in parts[k]
    ensures Split(Join(parts, sep), sep) == parts
    decreases |parts|
  {
    var s := Join(parts, sep);
    if |parts| == 1 {
    } else {
      var p := parts[0];
      var rest := Join(parts[1..], sep);
      assert s == p + [sep] + rest;
      assert s[|p|] == sep;
      assert s[..|p|] == p;
      assert IndexOf(s, sep) == |p|;
      assert s[|p| + 1..] == rest;
      SplitOfJoin(parts[1..], sep);
      assert [p] + parts[1..] == parts;
    }
  }

  /** `Split` yields one more piece than there are separators. */
  lemma {:induction false} SplitCountsSeparators(s: string, sep: char)
    ensures |Split(s, sep)| == multiset(s)[sep] + 1
    decreases |s|
  {
    if sep in s {
      var i := IndexOf(s, sep);
      assert s == s[..i] + [sep] + s[i + 1..];
      assert multiset(s) == multiset(s[..i]) + multiset{sep} + multiset(s[i + 1..]);
      assert multiset(s[..i])[sep] == 0;
      SplitCountsSeparators(s[i + 1..], sep);
    } else {
      assert multiset(s)[sep] == 0;
    }
  }

  /** Joining one more part appends the separator and that part. */
  lemma {:induction false} JoinAppend(parts: seq<string>, last: string, sep: char)
    requires |parts| >= 1
    ensures Join(parts + [last], sep) == Join(parts, sep) + [sep] + last
    decreases |parts|
  {
    if |parts| > 1 {
      JoinAppend(parts[1..], last, sep);
      assert (parts + [last])[1..] == parts[1..] + [last];
    } else {
      assert (parts + [last])[1..] == [last];
    }
  }
}
