/** The two extractors of src/extract_markdown.py. Each is `re.findall` with one
    fixed pattern:
      images  \!\[(.*?)\]\((htt.*?)\)
      links   (?<!\!)\[(.*?)\]\((https?:\/\/[^\s)]+)\)
    Both are modelled by one left-to-right scanner that reproduces what the
    regex engine does with these two patterns: try every start position in
    turn, let the lazy text group grow one character at a time (never across
    a newline, since `.` excludes it) until the rest of the pattern matches
    there, and after a match resume the scan right behind it. */
module ExtractMarkdown {
  import opened Prelude
  import opened PyStrings

  datatype Pattern = Images | Links

  /** One match: it starts at `start`, its text group ends at `textEnd`
      (where `](` begins) and `close` is the index of the closing `)`. */
  datatype Match = Match(start: nat, textEnd: nat, close: nat)

  // ---------------------------------------------------------------------------
  // what the patterns mean

  /** `s[i..j]` is a range of `s` without a newline. */
  predicate NoNewline(s: string, i: int, j: int) {
    0 <= i <= j <= |s| && forall k :: i <= k < j ==> s[k] != '\n'
  }

  /** A character of the class [^\s)]. */
  predicate IsUrlChar(c: char) {
    !IsSpace(c) && c != ')'
  }

  /** https?:\/\/[^\s)]+ matches the whole of `u`. */
  predicate IsHttpUrl(u: string) {
    && ((OccursAt(u, "http://", 0) && |u| > 7) || (OccursAt(u, "https://", 0) && |u| > 8))
    && forall k :: 0 <= k < |u| ==> IsUrlChar(u[k])
  }

  /** Where the text group starts: after `![` or after `[`. */
  function TextStart(pat: Pattern, p: nat): nat {
    match pat
    case Images => p + 2
    case Links => p + 1
  }

  /** The pattern's opening at `p`: `![`, or a `[` not preceded by `!`. */
  predicate Opens(pat: Pattern, s: string, p: nat) {
    match pat
    case Images => OccursAt(s, "![", p)
    case Links => OccursAt(s, "[", p) && (p == 0 || s[p - 1] != '!')
  }

  /** The part of the pattern after the text group, `](`, URL group and `)`,
      matches from `a` with its `)` at `e`. For images the URL group is lazy,
      so `e` is the first `)` after `](htt`; for links the URL class excludes
      `)`, so `e` is determined as well. */
  predicate TailAt(pat: Pattern, s: string, a: int, e: int) {
    && 0 <= a && e < |s|
    && match pat
       case Images =>
         && OccursAt(s, "](htt", a) && NoNewline(s, a + 5, e) && s[e] == ')'
         && forall k :: a + 5 <= k < e ==> s[k] != ')'
       case Links =>
         && OccursAt(s, "](", a) && a + 2 <= e && s[e] == ')' && IsHttpUrl(s[a + 2..e])
  }

  /** The whole pattern matches at `p` with text group `s[TextStart..a]` and
      its `)` at `e`. */
  predicate MatchShape(pat: Pattern, s: string, p: nat, a: int, e: int) {
    Opens(pat, s, p) && NoNewline(s, TextStart(pat, p), a) && TailAt(pat, s, a, e)
  }

  // ---------------------------------------------------------------------------
  // the scanner

  /** The first `)` from `i` on, provided no newline comes before it: what
      `.*?\)` finds from `i`. */
  function FirstClose(s: string, i: nat): (r: Option<nat>)
    requires i <= |s|
    ensures r.Some? ==>
      && i <= r.value < |s| && s[r.value] == ')' && NoNewline(s, i, r.value)
      && forall k :: i <= k < r.value ==> s[k] != ')'
    ensures r.None? ==> forall e :: i <= e < |s| && s[e] == ')' ==> !NoNewline(s, i, e)
    decreases |s| - i
  {
    if i == |s| then None
    else if s[i] == ')' then Some(i)
    else if s[i] == '\n' then None
    else FirstClose(s, i + 1)
  }

  /** The end of the run of URL characters that starts at `i`. */
  function UrlEnd(s: string, i: nat): (k: nat)
    requires i <= |s|
    ensures i <= k <= |s|
    ensures forall j :: i <= j < k ==> IsUrlChar(s[j])
    ensures k == |s| || !IsUrlChar(s[k])
    decreases |s| - i
  {
    if i == |s| || !IsUrlChar(s[i]) then i else UrlEnd(s, i + 1)
  }

  lemma {:induction false} UrlEndAt(s: string, i: nat, e: nat)
    requires i <= e < |s| && !IsUrlChar(s[e])
    requires forall j :: i <= j < e ==> IsUrlChar(s[j])
    ensures UrlEnd(s, i) == e
    decreases e - i
  {
    if i < e {
      UrlEndAt(s, i + 1, e);
    }
  }

  /** The length of the `https?://` at `u`, or 0 when there is none. */
  function SchemeLength(s: string, u: nat): nat {
    if OccursAt(s, "https://", u) then 8
    else if OccursAt(s, "http://", u) then 7
    else 0
  }

  /** Where the rest of the pattern, tried at `a`, puts its `)`, if it
      matches there at all. */
  function Tail(pat: Pattern, s: string, a: nat): (r: Option<nat>)
    requires a <= |s|
    ensures r.Some? ==> TailAt(pat, s, a, r.value)
    ensures r.None? ==> forall e :: !TailAt(pat, s, a, e)
  {
    match pat
    case Images =>
      if OccursAt(s, "](htt", a) then FirstClose(s, a + 5) else None
    case Links =>
      if !OccursAt(s, "](", a) then None
      else
        var n := SchemeLength(s, a + 2);
        if n == 0 || a + 2 + n > |s| then None
        else
          var k := UrlEnd(s, a + 2 + n);
          if k > a + 2 + n && k < |s| && s[k] == ')' then
            SchemeThenUrlChars(s, a + 2, n, k);
            Some(k)
          else
            assert forall e :: !TailAt(pat, s, a, e) by {
              forall e | TailAt(pat, s, a, e) ensures false {
                LinkTailUnique(s, a, e);
              }
            }
            None
  }

  /** An http or https scheme followed by at least one URL character makes
      an http URL. */
  lemma SchemeThenUrlChars(s: string, u: nat, n: nat, k: nat)
    requires n == SchemeLength(s, u) && n > 0 && u + n < k <= |s|
    requires forall j :: u + n <= j < k ==> IsUrlChar(s[j])
    ensures IsHttpUrl(s[u..k])
  {
    var url := s[u..k];
    assert url[..n] == s[u..][..n];
    forall j | 0 <= j < |url| ensures IsUrlChar(url[j]) {
      assert url[j] == s[u + j];
      if j < n {
        assert s[u + j] == s[u..][..n][j];
      }
    }
  }

  /** A link tail at `a` is found by reading the scheme and then the run of
      URL characters. */
  lemma LinkTailUnique(s: string, a: nat, e: int)
    requires TailAt(Links, s, a, e)
    ensures var n := SchemeLength(s, a + 2);
      n > 0 && a + 2 + n < e && UrlEnd(s, a + 2 + n) == e
  {
    var u := s[a + 2..e];
    var n := SchemeLength(s, a + 2);
    if OccursAt(u, "https://", 0) {
      assert u[..8] == "https://" && s[a + 2..][..8] == u[..8];
      assert OccursAt(s, "https://", a + 2);
      assert u[4] == 's' && !OccursAt(u, "http://", 0);
      assert n == 8 && |u| > 8;
    } else {
      assert u[..7] == "http://" && s[a + 2..][..7] == u[..7];
      assert OccursAt(s, "http://", a + 2);
      assert s[a + 2 + 4] == u[4] == ':';
      assert !OccursAt(s, "https://", a + 2);
      assert n == 7 && |u| > 7;
    }
    forall j | a + 2 + n <= j < e ensures IsUrlChar(s[j]) {
      assert s[j] == u[j - (a + 2)];
    }
    UrlEndAt(s, a + 2 + n, e);
  }

  /** The lazy text group: starting with the text ending at `a`, the first
      end at which the rest of the pattern matches, as long as the text has
      not met a newline. What it finds is stated by
      TextScanFound, TextScanShortest and TextScanMissing. */
  function TextScan(pat: Pattern, s: string, p: nat, a: nat): (r: Option<Match>)
    requires Opens(pat, s, p) && NoNewline(s, TextStart(pat, p), a)
    ensures r.Some? ==>
      && r.value.start == p && a <= r.value.textEnd
      && r.value.textEnd + 2 <= r.value.close < |s|
    decreases |s| - a
  {
    match Tail(pat, s, a)
    case Some(e) => Some(Match(p, a, e))
    case None =>
      if a < |s| && s[a] != '\n' then TextScan(pat, s, p, a + 1)
      else None
  }

  /** The text group found is one after which the rest of the pattern
      matches. */
  lemma {:induction false} TextScanFound(pat: Pattern, s: string, p: nat, a: nat)
    requires Opens(pat, s, p) && NoNewline(s, TextStart(pat, p), a)
    requires TextScan(pat, s, p, a).Some?
    ensures var m := TextScan(pat, s, p, a).value;
      MatchShape(pat, s, p, m.textEnd, m.close)
    decreases |s| - a
  {
    var t := Tail(pat, s, a);
    if t.Some? {
      assert TextScan(pat, s, p, a) == Some(Match(p, a, t.value));
      assert TailAt(pat, s, a, t.value);
    } else {
      assert a < |s| && s[a] != '\n';
      assert TextScan(pat, s, p, a) == TextScan(pat, s, p, a + 1);
      TextScanFound(pat, s, p, a + 1);
    }
  }

  /** The text group found is the shortest one from `a` on after which the
      rest of the pattern matches. */
  lemma {:induction false} TextScanShortest(pat: Pattern, s: string, p: nat, a: nat)
    requires Opens(pat, s, p) && NoNewline(s, TextStart(pat, p), a)
    requires TextScan(pat, s, p, a).Some?
    ensures forall a', e :: a <= a' < TextScan(pat, s, p, a).value.textEnd ==> !TailAt(pat, s, a', e)
    decreases |s| - a
  {
    if Tail(pat, s, a).None? {
      assert a < |s| && s[a] != '\n';
      assert TextScan(pat, s, p, a) == TextScan(pat, s, p, a + 1);
      TextScanShortest(pat, s, p, a + 1);
    }
  }

  /** When no text group is found, the rest of the pattern matches after no
      text from `a` on that avoids newlines. */
  lemma {:induction false} TextScanMissing(pat: Pattern, s: string, p: nat, a: nat)
    requires Opens(pat, s, p) && NoNewline(s, TextStart(pat, p), a)
    requires TextScan(pat, s, p, a).None?
    ensures forall a', e :: a <= a' && NoNewline(s, TextStart(pat, p), a') ==> !TailAt(pat, s, a', e)
    decreases |s| - a
  {
    assert Tail(pat, s, a).None?;
    if a < |s| && s[a] != '\n' {
      assert TextScan(pat, s, p, a) == TextScan(pat, s, p, a + 1);
      TextScanMissing(pat, s, p, a + 1);
    } else {
      assert forall a' :: a < a' ==> !NoNewline(s, TextStart(pat, p), a');
    }
  }

  /** re.match of the pattern at `p`. What it finds is stated by
      MatchAtSpec. */
  function MatchAt(pat: Pattern, s: string, p: nat): (r: Option<Match>)
    requires p <= |s|
    ensures r.Some? ==> r.value.start == p < r.value.close < |s|
  {
    if !Opens(pat, s, p) then None
    else
      assert NoNewline(s, TextStart(pat, p), TextStart(pat, p));
      TextScan(pat, s, p, TextStart(pat, p))
  }

  /** The pattern matches at `p` exactly when MatchAt finds a match there,
      and the match found has the shortest text group. */
  lemma MatchAtSpec(pat: Pattern, s: string, p: nat)
    requires p <= |s|
    ensures MatchAt(pat, s, p).Some? ==>
      var m := MatchAt(pat, s, p).value;
      && MatchShape(pat, s, p, m.textEnd, m.close)
      && forall a, e :: TextStart(pat, p) <= a < m.textEnd ==> !TailAt(pat, s, a, e)
    ensures MatchAt(pat, s, p).None? ==> forall a, e :: !MatchShape(pat, s, p, a, e)
  {
    if Opens(pat, s, p) {
      assert NoNewline(s, TextStart(pat, p), TextStart(pat, p));
      if MatchAt(pat, s, p).Some? {
        TextScanFound(pat, s, p, TextStart(pat, p));
        TextScanShortest(pat, s, p, TextStart(pat, p));
      } else {
        TextScanMissing(pat, s, p, TextStart(pat, p));
      }
    }
  }

  // ---------------------------------------------------------------------------
  // findall

  /** The outcome of re.match at every position of the text, 0 to |s|. */
  function MatchTable(pat: Pattern, s: string): (t: seq<Option<Match>>)
    ensures |t| == |s| + 1 && ValidTable(t)
    ensures forall q :: 0 <= q <= |s| ==> t[q] == MatchAt(pat, s, q)
  {
    seq(|s| + 1, q requires 0 <= q <= |s| => MatchAt(pat, s, q))
  }

  /** A table of match outcomes: a match found at `q` starts at `q` and ends
      inside the text, which is one shorter than the table. */
  predicate ValidTable(t: seq<Option<Match>>) {
    && |t| > 0
    && forall q :: 0 <= q < |t| && t[q].Some? ==> t[q].value.start == q < t[q].value.close < |t| - 1
  }

  /** re.findall from position `p`, given what re.match finds at each
      position: a match is taken at the first position where there is one,
      and the search resumes right after its `)`. What it reports is stated
      by the lemmas that follow. */
  function FindAll(t: seq<Option<Match>>, p: nat): seq<Match>
    requires ValidTable(t)
    decreases |t| - p
  {
    if p >= |t| then []
    else
      match t[p]
      case Some(m) => [m] + FindAll(t, m.close + 1)
      case None => FindAll(t, p + 1)
  }

  /** The first match reported is the first one found from `p` on. */
  lemma {:induction false} FindAllHead(t: seq<Option<Match>>, p: nat)
    requires ValidTable(t)
    ensures var r := FindAll(t, p);
      r != [] ==> p <= r[0].start < |t| && t[r[0].start] == Some(r[0])
    decreases |t| - p
  {
    if p < |t| && t[p].None? {
      FindAllHead(t, p + 1);
    }
  }

  /** After a match the search goes on as a fresh search right behind its
      `)`. */
  lemma {:induction false} FindAllSuffix(t: seq<Option<Match>>, p: nat, i: nat)
    requires ValidTable(t) && i < |FindAll(t, p)|
    ensures var r := FindAll(t, p);
      r[i + 1..] == FindAll(t, r[i].close + 1)
    decreases |t| - p
  {
    var r := FindAll(t, p);
    match t[p]
    case Some(m) =>
      var rest := FindAll(t, m.close + 1);
      assert r == [m] + rest;
      if i > 0 {
        FindAllSuffix(t, m.close + 1, i - 1);
        assert r[i] == rest[i - 1] && r[i + 1..] == rest[i..];
      } else {
        assert r[0] == m && r[1..] == rest;
      }
    case None =>
      assert r == FindAll(t, p + 1);
      FindAllSuffix(t, p + 1, i);
  }

  /** Each match reported is the one found at its start, from `p` on. */
  lemma FindAllAt(t: seq<Option<Match>>, p: nat, i: nat)
    requires ValidTable(t) && i < |FindAll(t, p)|
    ensures var m := FindAll(t, p)[i];
      p <= m.start < |t| && t[m.start] == Some(m)
  {
    var r := FindAll(t, p);
    if i == 0 {
      FindAllHead(t, p);
    } else {
      FindAllSuffix(t, p, i - 1);
      var rest := FindAll(t, r[i - 1].close + 1);
      assert r[i..] == rest;
      FindAllHead(t, r[i - 1].close + 1);
      assert r[i] == rest[0];
      FindAllAt(t, p, i - 1);
    }
  }

  /** Where the gap before the first match ends. */
  function FirstStart(r: seq<Match>, n: nat): nat {
    if r == [] then n else r[0].start
  }

  /** Where the gap after the `i`-th match ends: at the next match, or at
      the end `n` of the text. */
  function GapEnd(r: seq<Match>, i: nat, n: nat): nat {
    if i + 1 < |r| then r[i + 1].start else n
  }

  /** Nothing is found before the first match reported. */
  lemma {:induction false} FindAllFirstGap(t: seq<Option<Match>>, p: nat, q: nat)
    requires ValidTable(t) && p <= q < FirstStart(FindAll(t, p), |t| - 1)
    ensures q < |t| && t[q].None?
    decreases |t| - p
  {
    FindAllHead(t, p);
    if q > p {
      FindAllFirstGap(t, p + 1, q);
    }
  }

  /** Each match reported ends before the next one starts (or before the
      end of the text). */
  lemma FindAllOrdered(t: seq<Option<Match>>, p: nat, i: nat)
    requires ValidTable(t) && i < |FindAll(t, p)|
    ensures FindAll(t, p)[i].close < GapEnd(FindAll(t, p), i, |t| - 1)
  {
    var r := FindAll(t, p);
    FindAllAt(t, p, i);
    FindAllSuffix(t, p, i);
    var rest := FindAll(t, r[i].close + 1);
    assert r[i + 1..] == rest;
    if i + 1 < |r| {
      FindAllHead(t, r[i].close + 1);
      assert r[i + 1] == rest[0];
    }
  }

  /** Nothing is found between the `)` of a match and the start of the next
      one (or the end of the text). */
  lemma FindAllGap(t: seq<Option<Match>>, p: nat, i: nat, q: nat)
    requires ValidTable(t) && i < |FindAll(t, p)|
    requires FindAll(t, p)[i].close < q < GapEnd(FindAll(t, p), i, |t| - 1)
    ensures q < |t| && t[q].None?
  {
    var r := FindAll(t, p);
    FindAllAt(t, p, i);
    FindAllSuffix(t, p, i);
    var rest := FindAll(t, r[i].close + 1);
    assert r[i + 1..] == rest;
    assert q < FirstStart(rest, |t| - 1) by {
      if i + 1 < |r| {
        assert r[i + 1] == rest[0];
      } else {
        assert rest == [];
      }
    }
    FindAllFirstGap(t, r[i].close + 1, q);
  }

  /** When nothing is found from `p` on, nothing is reported. */
  lemma {:induction false} FindAllNone(t: seq<Option<Match>>, p: nat)
    requires ValidTable(t)
    requires forall q :: p <= q < |t| ==> t[q].None?
    ensures FindAll(t, p) == []
    decreases |t| - p
  {
    if p < |t| {
      FindAllNone(t, p + 1);
    }
  }

  /** re.findall of the pattern over the whole text. */
  function Matches(pat: Pattern, s: string): seq<Match> {
    FindAll(MatchTable(pat, s), 0)
  }

  /** Each match reported is what the pattern matches at its start, and it
      lies inside the text. */
  lemma MatchesAt(pat: Pattern, s: string, i: nat)
    requires i < |Matches(pat, s)|
    ensures var m := Matches(pat, s)[i];
      && m.start < m.close < |s|
      && MatchAt(pat, s, m.start) == Some(m)
      && MatchShape(pat, s, m.start, m.textEnd, m.close)
  {
    var t := MatchTable(pat, s);
    FindAllAt(t, 0, i);
    MatchAtSpec(pat, s, Matches(pat, s)[i].start);
  }

  /** The pattern matches nowhere before the first match reported. */
  lemma MatchesFirstGap(pat: Pattern, s: string, q: nat)
    requires q < FirstStart(Matches(pat, s), |s|)
    ensures forall a, e :: !MatchShape(pat, s, q, a, e)
  {
    FindAllFirstGap(MatchTable(pat, s), 0, q);
    MatchAtSpec(pat, s, q);
  }

  /** The matches come in text order without overlap. */
  lemma MatchesOrdered(pat: Pattern, s: string, i: nat)
    requires i < |Matches(pat, s)|
    ensures Matches(pat, s)[i].close < GapEnd(Matches(pat, s), i, |s|)
  {
    FindAllOrdered(MatchTable(pat, s), 0, i);
  }

  /** The pattern matches nowhere between the `)` of a match and the start
      of the next one or the end of the text: the search resumes right after
      each match and misses nothing. */
  lemma MatchesGap(pat: Pattern, s: string, i: nat, q: nat)
    requires i < |Matches(pat, s)|
    requires Matches(pat, s)[i].close < q < GapEnd(Matches(pat, s), i, |s|)
    ensures forall a, e :: !MatchShape(pat, s, q, a, e)
  {
    FindAllGap(MatchTable(pat, s), 0, i, q);
    MatchAtSpec(pat, s, q);
  }

  /** The two groups of a match: the text and the URL. */
  predicate GroupsFit(pat: Pattern, s: string, m: Match) {
    TextStart(pat, m.start) <= m.textEnd && m.textEnd + 2 <= m.close < |s|
  }

  function Groups(pat: Pattern, s: string, m: Match): (string, string)
    requires GroupsFit(pat, s, m)
  {
    (s[TextStart(pat, m.start)..m.textEnd], s[m.textEnd + 2..m.close])
  }

  /** What the groups of a match look like: the text holds no newline; an
      image URL starts with `htt` and holds neither a newline nor `)`; a link
      URL is an http or https URL. */
  predicate GoodGroups(pat: Pattern, g: (string, string)) {
    && NoNewline(g.0, 0, |g.0|)
    && match pat
       case Images => OccursAt(g.1, "htt", 0) && NoNewline(g.1, 0, |g.1|) && forall k :: 0 <= k < |g.1| ==> g.1[k] != ')'
       case Links => IsHttpUrl(g.1)
  }

  lemma GroupsOfMatch(pat: Pattern, s: string, m: Match)
    requires MatchShape(pat, s, m.start, m.textEnd, m.close)
    ensures GroupsFit(pat, s, m)
    ensures GoodGroups(pat, Groups(pat, s, m))
  {
    var g := Groups(pat, s, m);
    forall k | 0 <= k < |g.0| ensures g.0[k] != '\n' {
      assert g.0[k] == s[TextStart(pat, m.start) + k];
    }
    if pat == Images {
      var a := m.textEnd;
      assert s[a..][..5] == "](htt";
      assert g.1[..3] == s[a + 2..a + 5] == s[a..][..5][2..];
      forall k | 0 <= k < |g.1| ensures g.1[k] != '\n' && g.1[k] != ')' {
        assert g.1[k] == s[a + 2 + k];
      }
    }
  }

  /** The text as `re.findall` reports it for a pattern with two groups: the
      pair of groups of every match, in order. */
  function Extract(pat: Pattern, text: string): (r: seq<(string, string)>)
    ensures |r| == |Matches(pat, text)|
    ensures forall i :: 0 <= i < |r| ==> GoodGroups(pat, r[i])
    ensures forall i :: 0 <= i < |r| ==>
      var m := Matches(pat, text)[i];
      GroupsFit(pat, text, m) && r[i] == Groups(pat, text, m)
  {
    var ms := Matches(pat, text);
    forall i | 0 <= i < |ms| ensures MatchShape(pat, text, ms[i].start, ms[i].textEnd, ms[i].close) {
      MatchesAt(pat, text, i);
    }
    forall i | 0 <= i < |ms| ensures GroupsFit(pat, text, ms[i]) {
      GroupsOfMatch(pat, text, ms[i]);
    }
    var r := seq(|ms|, i requires 0 <= i < |ms| => Groups(pat, text, ms[i]));
    assert forall i :: 0 <= i < |r| ==> GoodGroups(pat, r[i]) by {
      forall i | 0 <= i < |r| ensures GoodGroups(pat, r[i]) {
        GroupsOfMatch(pat, text, ms[i]);
      }
    }
    r
  }

  /** extract_markdown_images: (alt text, URL) for every image, in order. */
  function ExtractMarkdownImages(text: string): (r: seq<(string, string)>)
    ensures |r| == |Matches(Images, text)|
    ensures forall i :: 0 <= i < |r| ==>
      && OccursAt(r[i].1, "htt", 0)
      && NoNewline(r[i].0, 0, |r[i].0|) && NoNewline(r[i].1, 0, |r[i].1|)
      && forall k :: 0 <= k < |r[i].1| ==> r[i].1[k] != ')'
  {
    var r := Extract(Images, text);
    assert forall i :: 0 <= i < |r| ==> GoodGroups(Images, r[i]);
    r
  }

  /** extract_markdown_links: (anchor text, URL) for every link, in order. */
  function ExtractMarkdownLinks(text: string): (r: seq<(string, string)>)
    ensures |r| == |Matches(Links, text)|
    ensures forall i :: 0 <= i < |r| ==> NoNewline(r[i].0, 0, |r[i].0|) && IsHttpUrl(r[i].1)
  {
    var r := Extract(Links, text);
    assert forall i :: 0 <= i < |r| ==> GoodGroups(Links, r[i]);
    r
  }

  // ---------------------------------------------------------------------------
  // properties

  /** The opening of the markup: `![` for an image, `[` for a link. */
  function Opening(pat: Pattern): string {
    match pat
    case Images => "!["
    case Links => "["
  }

  /** The markup of a match, rebuilt from its groups, is the text of the
      match. */
  lemma MarkupAt(pat: Pattern, s: string, m: Match)
    requires MatchShape(pat, s, m.start, m.textEnd, m.close)
    ensures GroupsFit(pat, s, m)
    ensures var g := Groups(pat, s, m);
      OccursAt(s, Opening(pat) + g.0 + "](" + g.1 + ")", m.start)
  {
    GroupsOfMatch(pat, s, m);
    var g := Groups(pat, s, m);
    var p, t, a, e := m.start, TextStart(pat, m.start), m.textEnd, m.close;
    var o := Opening(pat);
    var w := o + g.0 + "](" + g.1 + ")";
    assert |o| == t - p;
    assert |w| == e + 1 - p;
    forall k | 0 <= k < |w| ensures w[k] == s[p + k] {
      if k < |o| {
        assert w[k] == o[k] && s[p..][..|o|] == o;
      } else if k < a - p {
        assert w[k] == g.0[k - |o|];
      } else if k < a - p + 2 {
        assert w[k] == "]("[k - (a - p)] && s[a..][..2] == "](";
      } else if k < e - p {
        assert w[k] == g.1[k - (a - p + 2)];
      } else {
        assert w[k] == ')';
      }
    }
    assert s[p..][..|w|] == w;
  }

  /** Every reported pair is literally in the text at its match: the opening,
      the text group, `](`, the URL group and `)`. Nothing is unescaped or
      interpreted, so `**` in an anchor text comes back as it is. */
  lemma ExtractedMarkup(pat: Pattern, text: string, i: nat)
    requires i < |Matches(pat, text)|
    ensures var m := Matches(pat, text)[i];
      var g := Extract(pat, text)[i];
      OccursAt(text, Opening(pat) + g.0 + "](" + g.1 + ")", m.start)
  {
    var m := Matches(pat, text)[i];
    MatchesAt(pat, text, i);
    MarkupAt(pat, text, m);
  }

  /** Text without `![` has no images. */
  lemma NoImageMarkup(text: string)
    requires forall q :: !OccursAt(text, "![", q)
    ensures ExtractMarkdownImages(text) == []
  {
    FindAllNone(MatchTable(Images, text), 0);
  }

  /** Markup whose `)` is missing gives no image and no link. */
  lemma NoClosingParenthesis(text: string)
    requires forall k :: 0 <= k < |text| ==> text[k] != ')'
    ensures ExtractMarkdownImages(text) == [] && ExtractMarkdownLinks(text) == []
  {
    forall q | 0 <= q <= |text| ensures MatchAt(Images, text, q).None? && MatchAt(Links, text, q).None? {
      MatchAtSpec(Images, text, q);
      MatchAtSpec(Links, text, q);
    }
    FindAllNone(MatchTable(Images, text), 0);
    FindAllNone(MatchTable(Links, text), 0);
  }

  /** A `[` right after `!` never starts a link, so an image is never also
      reported as a link. */
  lemma LinksAreNotImages(text: string, i: nat)
    requires i < |Matches(Links, text)|
    ensures var m := Matches(Links, text)[i];
      m.start < |text| && text[m.start] == '[' && (m.start == 0 || text[m.start - 1] != '!')
  {
    MatchesAt(Links, text, i);
  }
}
