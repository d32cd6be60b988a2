/** The few Python string operations the site generator relies on: str.strip(),
    str.split(sep), str.splitlines()[0] and "".join(...), on strings seen as
    sequences of characters. Whitespace and line boundaries are Python's,
    restricted to the ASCII range. */
module PyStrings {

  /** str.isspace() and the regex class \s, restricted to ASCII. */
  predicate IsSpace(c: char) {
    c == ' ' || c == '\t' || c == '\n' || c == '\r' || c == '\U{0B}' || c == '\U{0C}'
    || c == '\U{1C}' || c == '\U{1D}' || c == '\U{1E}' || c == '\U{1F}'
  }

  /** The line boundaries of str.splitlines(), restricted to ASCII. */
  predicate IsLineBreak(c: char) {
    c == '\n' || c == '\r' || c == '\U{0B}' || c == '\U{0C}'
    || c == '\U{1C}' || c == '\U{1D}' || c == '\U{1E}'
  }

  predicate AllSpace(s: string) {
    forall i :: 0 <= i < |s| ==> IsSpace(s[i])
  }

  /** No whitespace at either end. */
  predicate IsStripped(s: string) {
    s == [] || (!IsSpace(s[0]) && !IsSpace(s[|s| - 1]))
  }

  /** `pat` occurs in `s` starting at index `i`. */
  predicate OccursAt(s: string, pat: string, i: int) {
    0 <= i <= |s| && pat <= s[i..]
  }

  ghost predicate Contains(s: string, pat: string) {
    exists i :: OccursAt(s, pat, i)
  }

  // ---------------------------------------------------------------------------
  // strip

  function TrimStart(s: string): (r: string)
    ensures |r| <= |s| && r == s[|s| - |r|..]
    ensures AllSpace(s[..|s| - |r|])
    ensures r == [] || !IsSpace(r[0])
  {
    if |s| > 0 && IsSpace(s[0]) then
      var r := TrimStart(s[1..]);
      assert s[..|s| - |r|] == [s[0]] + s[1..][..|s| - 1 - |r|];
      r
    else s
  }

  function TrimEnd(s: string): (r: string)
    ensures |r| <= |s| && r == s[..|r|]
    ensures AllSpace(s[|r|..])
    ensures r == [] || !IsSpace(r[|r| - 1])
  {
    if |s| > 0 && IsSpace(s[|s| - 1]) then
      var r := TrimEnd(s[..|s| - 1]);
      assert s[|r|..] == s[..|s| - 1][|r|..] + [s[|s| - 1]];
      r
    else s
  }

  /** str.strip() without argument: what is left once the whitespace at both
      ends is removed. */
  function Strip(s: string): (r: string)
    ensures |r| <= |s|
    ensures IsStripped(r)
    ensures r == [] <==> AllSpace(s)
  {
    var t := TrimStart(s);
    var r := TrimEnd(t);
    assert r != [] ==> r[0] == t[0];
    assert r == [] ==> t[|r|..] == t;
    r
  }

  /** What strip removes is whitespace and what it keeps is one contiguous
      piece of the input. */
  lemma StripBounds(s: string) returns (i: nat, j: nat)
    ensures i <= j <= |s| && Strip(s) == s[i..j]
    ensures AllSpace(s[..i]) && AllSpace(s[j..])
  {
    var t := TrimStart(s);
    var r := TrimEnd(t);
    i, j := |s| - |t|, |s| - |t| + |r|;
    assert s[j..] == t[|r|..];
  }

  /** The same, as the whitespace before, the kept piece and the whitespace
      after. */
  lemma StripShape(s: string) returns (a: string, e: string)
    ensures s == a + Strip(s) + e
    ensures AllSpace(a) && AllSpace(e)
  {
    var i, j := StripBounds(s);
    a, e := s[..i], s[j..];
    SliceThree(s, i, j);
  }

  // Sequence facts kept apart from the definitions above, which make the
  // solver's search much wider wherever they are in scope.

  lemma SliceThree(s: string, i: int, j: int)
    requires 0 <= i <= j <= |s|
    ensures s == s[..i] + s[i..j] + s[j..]
  {
  }

  lemma HeadTail(s: string)
    requires s != []
    ensures s == [s[0]] + s[1..]
  {
  }

  lemma PrefixRest(s: string, p: string)
    requires p <= s
    ensures s == p + s[|p|..]
  {
  }

  lemma AllSpaceConcat(x: string, y: string)
    requires AllSpace(x) && AllSpace(y)
    ensures AllSpace(x + y)
  {
    forall i | 0 <= i < |x + y| ensures IsSpace((x + y)[i]) {
      if i >= |x| {
        assert (x + y)[i] == y[i - |x|];
      }
    }
  }

  lemma {:induction false} TrimStartPadded(a: string, t: string)
    requires AllSpace(a)
    requires t == [] || !IsSpace(t[0])
    ensures TrimStart(a + t) == t
    decreases |a|
  {
    if a != [] {
      assert (a + t)[1..] == a[1..] + t;
      TrimStartPadded(a[1..], t);
    } else {
      assert a + t == t;
    }
  }

  lemma {:induction false} TrimEndPadded(t: string, c: string)
    requires AllSpace(c)
    requires t == [] || !IsSpace(t[|t| - 1])
    ensures TrimEnd(t + c) == t
    decreases |c|
  {
    if c != [] {
      assert (t + c)[..|t + c| - 1] == t + c[..|c| - 1];
      TrimEndPadded(t, c[..|c| - 1]);
    } else {
      assert t + c == t;
    }
  }

  /** strip() gives back a stripped string whatever whitespace surrounds it. */
  lemma StripPadded(a: string, b: string, c: string)
    requires AllSpace(a) && AllSpace(c) && IsStripped(b)
    ensures Strip(a + b + c) == b
  {
    if b == [] {
      assert a + b + c == a + c;
      assert AllSpace(a + c);
    } else {
      assert a + b + c == a + (b + c);
      TrimStartPadded(a, b + c);
      TrimEndPadded(b, c);
    }
  }

  lemma {:induction false} TrimStartSpacePrefix(w: string, b: string)
    requires AllSpace(w)
    ensures TrimStart(w + b) == TrimStart(b)
    decreases |w|
  {
    if w != [] {
      assert (w + b)[0] == w[0] && (w + b)[1..] == w[1..] + b;
      TrimStartSpacePrefix(w[1..], b);
    } else {
      assert w + b == b;
    }
  }

  /** Whitespace in front of a string does not change what strip() keeps. */
  lemma StripSpacePrefix(w: string, b: string)
    requires AllSpace(w)
    ensures Strip(w + b) == Strip(b)
  {
    TrimStartSpacePrefix(w, b);
  }

  /** strip() leaves a stripped string as it is. */
  lemma StripStripped(s: string)
    requires IsStripped(s)
    ensures Strip(s) == s
  {
    assert TrimStart(s) == s;
    assert TrimEnd(s) == s;
  }

  // ---------------------------------------------------------------------------
  // split and join

  /** str.split(sep) for a non-empty `sep`: the pieces between the leftmost
      non-overlapping occurrences of `sep`, read left to right. */
  function Split(s: string, sep: string): (r: seq<string>)
    requires sep != []
    ensures |r| >= 1
  {
    SplitFrom(s, sep, [])
  }

  /** The split of `s`, where `piece` is the part of the current piece already
      read. */
  function SplitFrom(s: string, sep: string, piece: string): (r: seq<string>)
    requires sep != []
    ensures |r| >= 1
    decreases |s|
  {
    if s == [] then [piece]
    else if sep <= s then [piece] + SplitFrom(s[|sep|..], sep, [])
    else SplitFrom(s[1..], sep, piece + [s[0]])
  }

  /** sep.join(parts). */
  function Join(parts: seq<string>, sep: string): string {
    if parts == [] then []
    else if |parts| == 1 then parts[0]
    else parts[0] + sep + Join(parts[1..], sep)
  }

  /** "".join(parts). */
  function Concat(parts: seq<string>): string {
    if parts == [] then [] else parts[0] + Concat(parts[1..])
  }

  /** `s` with every occurrence of `sep` deleted, scanning left to right. */
  function RemoveAll(s: string, sep: string): (r: string)
    requires sep != []
    ensures |r| <= |s|
    decreases |s|
  {
    if s == [] then []
    else if sep <= s then RemoveAll(s[|sep|..], sep)
    else [s[0]] + RemoveAll(s[1..], sep)
  }

  /** The number of leftmost non-overlapping occurrences of `sep` in `s`. */
  function Occurrences(s: string, sep: string): nat
    requires sep != []
    decreases |s|
  {
    if s == [] then 0
    else if sep <= s then 1 + Occurrences(s[|sep|..], sep)
    else Occurrences(s[1..], sep)
  }

  lemma ConcatAppend(parts: seq<string>, p: string)
    ensures Concat(parts + [p]) == Concat(parts) + p
  {
    if parts != [] {
      assert (parts + [p])[1..] == parts[1..] + [p];
    }
  }

  lemma {:induction false} JoinSplitFrom(s: string, sep: string, piece: string)
    requires sep != []
    ensures Join(SplitFrom(s, sep, piece), sep) == piece + s
    decreases |s|
  {
    if s == [] {
    } else if sep <= s {
      JoinSplitFrom(s[|sep|..], sep, []);
      assert s == sep + s[|sep|..];
    } else {
      JoinSplitFrom(s[1..], sep, piece + [s[0]]);
      assert s == [s[0]] + s[1..];
    }
  }

  /** Joining the pieces back with the separator gives the original string. */
  lemma JoinSplit(s: string, sep: string)
    requires sep != []
    ensures Join(Split(s, sep), sep) == s
  {
    JoinSplitFrom(s, sep, []);
  }

  lemma {:induction false} ConcatSplitFrom(s: string, sep: string, piece: string)
    requires sep != []
    ensures Concat(SplitFrom(s, sep, piece)) == piece + RemoveAll(s, sep)
    decreases |s|
  {
    if s == [] {
    } else if sep <= s {
      ConcatSplitFrom(s[|sep|..], sep, []);
    } else {
      ConcatSplitFrom(s[1..], sep, piece + [s[0]]);
    }
  }

  /** Gluing the pieces together without separator deletes every separator. */
  lemma ConcatSplit(s: string, sep: string)
    requires sep != []
    ensures Concat(Split(s, sep)) == RemoveAll(s, sep)
  {
    ConcatSplitFrom(s, sep, []);
  }

  lemma {:induction false} SplitFromCount(s: string, sep: string, piece: string)
    requires sep != []
    ensures |SplitFrom(s, sep, piece)| == Occurrences(s, sep) + 1
    decreases |s|
  {
    if s == [] {
    } else if sep <= s {
      SplitFromCount(s[|sep|..], sep, []);
    } else {
      SplitFromCount(s[1..], sep, piece + [s[0]]);
    }
  }

  /** There is one more piece than there are separators. */
  lemma SplitCount(s: string, sep: string)
    requires sep != []
    ensures |Split(s, sep)| == Occurrences(s, sep) + 1
  {
    SplitFromCount(s, sep, []);
  }

  lemma {:induction false} SplitFromWithout(s: string, sep: string, piece: string)
    requires sep != []
    requires !Contains(s, sep)
    ensures SplitFrom(s, sep, piece) == [piece + s]
    decreases |s|
  {
    if s == [] {
      assert piece + s == piece;
    } else {
      assert !OccursAt(s, sep, 0);
      assert !Contains(s[1..], sep) by {
        forall i | OccursAt(s[1..], sep, i) ensures OccursAt(s, sep, i + 1) {
          assert s[1..][i..] == s[i + 1..];
        }
      }
      SplitFromWithout(s[1..], sep, piece + [s[0]]);
      assert piece + [s[0]] + s[1..] == piece + s;
    }
  }

  /** A string that does not contain the separator splits into itself. */
  lemma SplitWithout(s: string, sep: string)
    requires sep != []
    requires !Contains(s, sep)
    ensures Split(s, sep) == [s]
  {
    SplitFromWithout(s, sep, []);
    assert [] + s == s;
  }

  lemma {:induction false} SplitFromAt(a: string, sep: string, rest: string, piece: string)
    requires sep != []
    requires forall i :: 0 <= i < |a| ==> !OccursAt(a + sep + rest, sep, i)
    ensures SplitFrom(a + sep + rest, sep, piece) == [piece + a] + SplitFrom(rest, sep, [])
    decreases |a|
  {
    var s := a + sep + rest;
    if a == [] {
      assert s == sep + rest && piece + a == piece;
      assert s[|sep|..] == rest;
    } else {
      assert !OccursAt(s, sep, 0);
      assert s[1..] == a[1..] + sep + rest;
      forall i | 0 <= i < |a| - 1 ensures !OccursAt(a[1..] + sep + rest, sep, i) {
        assert !OccursAt(s, sep, i + 1);
        assert s[i + 1..] == s[1..][i..];
      }
      SplitFromAt(a[1..], sep, rest, piece + [a[0]]);
      assert piece + [a[0]] + a[1..] == piece + a;
    }
  }

  /** When the first separator of `a + sep + rest` is the one after `a`, the
      first piece is `a` and the others are the pieces of `rest`. */
  lemma SplitAt(a: string, sep: string, rest: string)
    requires sep != []
    requires forall i :: 0 <= i < |a| ==> !OccursAt(a + sep + rest, sep, i)
    ensures Split(a + sep + rest, sep) == [a] + Split(rest, sep)
  {
    SplitFromAt(a, sep, rest, []);
    assert [] + a == a;
  }

  // ---------------------------------------------------------------------------
  // splitlines

  /** str.splitlines()[0] for a non-empty string: everything before the first
      line boundary. */
  function FirstLine(s: string): (r: string)
    ensures r <= s
    ensures forall i :: 0 <= i < |r| ==> !IsLineBreak(r[i])
    ensures |r| < |s| ==> IsLineBreak(s[|r|])
  {
    if s == [] || IsLineBreak(s[0]) then [] else [s[0]] + FirstLine(s[1..])
  }

  /** A string without line boundaries, followed by nothing or by a line
      boundary, is the first line of what it starts. */
  lemma {:induction false} FirstLineOf(x: string, rest: string)
    requires forall i :: 0 <= i < |x| ==> !IsLineBreak(x[i])
    requires rest == [] || IsLineBreak(rest[0])
    ensures FirstLine(x + rest) == x
    decreases |x|
  {
    if x == [] {
      assert x + rest == rest;
    } else {
      assert (x + rest)[0] == x[0] && (x + rest)[1..] == x[1..] + rest;
      FirstLineOf(x[1..], rest);
    }
  }
}
