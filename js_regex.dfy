/**
 * The four regular expressions the scraper applies with `String.prototype.match`
 * (no flags), each written out as an explicit scan.  `MatchesAt` says, per
 * pattern, what it means for the expression to match at an index with given
 * capture groups; `Exec` is the scan, and its contract is the semantics of
 * `match` without the `g` flag: the leftmost index at which the expression
 * matches, with the groups the backtracking engine picks there.
 */
module JsRegex {
  import opened Wrappers
  import opened JsString

  datatype Pattern =
    | Digits         // /(\d+)/
    | DetailLine     // /<b>([^:]+): <\/b>(.*)/
    | MailtoLink     // /<a href="mailto:([^"]+)">/
    | CodeWithTitle  // /(\w+) \(([^)]+)\)/

  /** A capture group: the text `s[start..end]`. */
  datatype Span = Span(start: nat, end: nat)

  /** The index at which a pattern matched, and its capture groups 1, 2, ... */
  datatype Match = Match(index: nat, groups: seq<Span>)

  /** The character classes that a greedy `+` or `*` runs over. */
  datatype CharClass = DigitClass | WordClass | NotLineTerminator

  predicate InClass(cls: CharClass, c: char) {
    match cls
    case DigitClass => IsDigit(c)
    case WordClass => IsWordChar(c)
    case NotLineTerminator => !IsLineTerminator(c)
  }

  const BoldOpen := "<b>"
  const BoldClose := ": </b>"
  const MailtoOpen := "<a href=\"mailto:"
  const MailtoClose := "\">"
  const TitleOpen := " ("
  const TitleClose := ")"

  function GroupCount(p: Pattern): nat {
    match p
    case Digits => 1
    case DetailLine => 2
    case MailtoLink => 1
    case CodeWithTitle => 2
  }

  /** `s[i..j]` is a run of `cls` that cannot be extended to the right. */
  ghost predicate MaximalRun(s: string, cls: CharClass, i: int, j: int) {
    0 <= i <= j <= |s| && (forall k :: i <= k < j ==> InClass(cls, s[k]))
    && (j == |s| || !InClass(cls, s[j]))
  }

  /** `open([^stop]+)close` matches at `i`, its group ending at `c`. */
  ghost predicate DelimitedAt(s: string, open: string, stop: char, close: string, i: int, c: int) {
    OccursAt(s, open, i) && i + |open| < c && OccursAt(s, close, c)
    && forall k :: i + |open| <= k < c ==> s[k] != stop
  }

  /** The pattern matches at index `i` with capture groups `g`. */
  ghost predicate MatchesAt(p: Pattern, s: string, i: int, g: seq<Span>) {
    |g| == GroupCount(p) &&
    match p
    case Digits =>
      g[0].start == i && i < g[0].end && MaximalRun(s, DigitClass, i, g[0].end)
    case DetailLine =>
      g[0].start == i + |BoldOpen| && DelimitedAt(s, BoldOpen, ':', BoldClose, i, g[0].end)
      && g[1].start == g[0].end + |BoldClose| && MaximalRun(s, NotLineTerminator, g[1].start, g[1].end)
    case MailtoLink =>
      g[0].start == i + |MailtoOpen| && DelimitedAt(s, MailtoOpen, '"', MailtoClose, i, g[0].end)
    case CodeWithTitle =>
      g[0].start == i && i < g[0].end && DelimitedAt(s, TitleOpen, ')', TitleClose, g[0].end, g[1].end)
      && (forall k :: i <= k < g[0].end ==> IsWordChar(s[k])) && g[1].start == g[0].end + |TitleOpen|
  }

  /** Every group of `m` lies inside `s` and there are as many as the pattern has. */
  predicate WellFormed(p: Pattern, s: string, m: Match) {
    |m.groups| == GroupCount(p) && forall n :: 0 <= n < |m.groups| ==> m.groups[n].start <= m.groups[n].end <= |s|
  }

  /** The text of group `n + 1` of `m` (JavaScript's `match[n + 1]`). */
  function Capture(p: Pattern, s: string, m: Match, n: nat): string
    requires WellFormed(p, s, m) && n < GroupCount(p)
  {
    s[m.groups[n].start..m.groups[n].end]
  }

  /** Where the run of `cls` that starts at `i` ends: what a greedy `+` or `*` takes. */
  function RunEnd(s: string, cls: CharClass, i: nat): (j: nat)
    requires i <= |s|
    ensures MaximalRun(s, cls, i, j)
    decreases |s| - i
  {
    if i < |s| && InClass(cls, s[i]) then RunEnd(s, cls, i + 1) else i
  }

  /** A maximal run from `i` is unique. */
  lemma MaximalRunUnique(s: string, cls: CharClass, i: int, j: int, j': int)
    requires MaximalRun(s, cls, i, j) && MaximalRun(s, cls, i, j')
    ensures j == j'
  {
  }

  /** Where the group of `open([^stop]+)close` ends when it matches at `i`. */
  function DelimitedEnd(s: string, open: string, stop: char, close: string, i: nat): (r: Option<nat>)
    requires i <= |s|
    requires close != [] && close[0] == stop
    ensures forall c :: DelimitedAt(s, open, stop, close, i, c) <==> r == Some(c)
  {
    if !OccursAt(s, open, i) then None
    else
      SingleCharOccurs(s, stop);
      assert forall c :: OccursAt(s, close, c) ==> s[c] == stop by {
        forall c | OccursAt(s, close, c) ensures s[c] == stop {
          assert s[c..c + |close|][0] == s[c];
        }
      }
      match IndexOf(s, [stop], i + |open|)
      case None => None
      case Some(c) => if i + |open| < c && OccursAt(s, close, c) then Some(c) else None
  }

  /** The groups with which `p` matches at `i`, if it does; they are the only ones. */
  function MatchAt(p: Pattern, s: string, i: nat): (r: Option<seq<Span>>)
    requires i <= |s|
    ensures forall g :: MatchesAt(p, s, i, g) <==> r == Some(g)
  {
    match p
    case Digits => MatchDigitsAt(s, i)
    case DetailLine => MatchDetailLineAt(s, i)
    case MailtoLink => MatchMailtoLinkAt(s, i)
    case CodeWithTitle => MatchCodeWithTitleAt(s, i)
  }

  /** `(\d+)` at `i`: the maximal run of digits there, if it is not empty. */
  function MatchDigitsAt(s: string, i: nat): (r: Option<seq<Span>>)
    requires i <= |s|
    ensures forall g :: MatchesAt(Digits, s, i, g) <==> r == Some(g)
  {
    var j := RunEnd(s, DigitClass, i);
    assert forall g: seq<Span> :: MatchesAt(Digits, s, i, g) ==> g == [Span(i, j)] by {
      forall g: seq<Span> | MatchesAt(Digits, s, i, g) ensures g == [Span(i, j)] {
        MaximalRunUnique(s, DigitClass, i, j, g[0].end);
      }
    }
    if i < j then Some([Span(i, j)]) else None
  }

  /** `<b>([^:]+): <\/b>(.*)` at `i`. */
  function MatchDetailLineAt(s: string, i: nat): (r: Option<seq<Span>>)
    requires i <= |s|
    ensures forall g :: MatchesAt(DetailLine, s, i, g) <==> r == Some(g)
  {
    match DelimitedEnd(s, BoldOpen, ':', BoldClose, i)
    case None => None
    case Some(c) =>
      var e := RunEnd(s, NotLineTerminator, c + |BoldClose|);
      var g0, g1 := Span(i + |BoldOpen|, c), Span(c + |BoldClose|, e);
      assert forall g: seq<Span> :: MatchesAt(DetailLine, s, i, g) ==> g == [g0, g1] by {
        forall g: seq<Span> | MatchesAt(DetailLine, s, i, g) ensures g == [g0, g1] {
          MaximalRunUnique(s, NotLineTerminator, c + |BoldClose|, e, g[1].end);
        }
      }
      Some([g0, g1])
  }

  /** `<a href="mailto:([^"]+)">` at `i`. */
  function MatchMailtoLinkAt(s: string, i: nat): (r: Option<seq<Span>>)
    requires i <= |s|
    ensures forall g :: MatchesAt(MailtoLink, s, i, g) <==> r == Some(g)
  {
    match DelimitedEnd(s, MailtoOpen, '"', MailtoClose, i)
    case None => None
    case Some(q) =>
      assert forall g: seq<Span> :: MatchesAt(MailtoLink, s, i, g) ==> g == [Span(i + |MailtoOpen|, q)] by {
        forall g: seq<Span> | MatchesAt(MailtoLink, s, i, g) ensures g == [Span(i + |MailtoOpen|, q)] {
          assert g[0] == Span(i + |MailtoOpen|, q);
        }
      }
      Some([Span(i + |MailtoOpen|, q)])
  }

  /** `(\w+) \(([^)]+)\)` at `i`: the word must run up to the ` (`. */
  function MatchCodeWithTitleAt(s: string, i: nat): (r: Option<seq<Span>>)
    requires i <= |s|
    ensures forall g :: MatchesAt(CodeWithTitle, s, i, g) <==> r == Some(g)
  {
    if i < |s| && IsWordChar(s[i]) then
      var j := RunEnd(s, WordClass, i);
      assert forall g: seq<Span> :: MatchesAt(CodeWithTitle, s, i, g) ==> g[0].end == j by {
        forall g: seq<Span> | MatchesAt(CodeWithTitle, s, i, g) ensures g[0].end == j {
          var j' := g[0].end;
          assert s[j'..j' + |TitleOpen|][0] == s[j'] == ' ';
          MaximalRunUnique(s, WordClass, i, j, j');
        }
      }
      if j + |TitleOpen| <= |s| then
        match DelimitedEnd(s, TitleOpen, ')', TitleClose, j)
        case None => None
        case Some(q) =>
          assert forall g: seq<Span> :: MatchesAt(CodeWithTitle, s, i, g) ==> g == [Span(i, j), Span(j + |TitleOpen|, q)] by {
            forall g: seq<Span> | MatchesAt(CodeWithTitle, s, i, g) ensures g == [Span(i, j), Span(j + |TitleOpen|, q)] {
              assert g[0] == Span(i, j);
              assert g[1] == Span(j + |TitleOpen|, q);
            }
          }
          Some([Span(i, j), Span(j + |TitleOpen|, q)])
      else None
    else None
  }

  /** The leftmost match of `p` in `s` at or after `from`. */
  function ExecFrom(p: Pattern, s: string, from: nat): (r: Option<Match>)
    requires from <= |s|
    ensures r.Some? ==> from <= r.value.index && MatchesAt(p, s, r.value.index, r.value.groups)
    ensures forall i, g :: from <= i && MatchesAt(p, s, i, g) ==> r.Some? && r.value.index <= i
    decreases |s| - from
  {
    match MatchAt(p, s, from)
    case Some(g) => Some(Match(from, g))
    case None => if from == |s| then None else ExecFrom(p, s, from + 1)
  }

  /**
   * `s.match(p)`: `None` exactly when `p` matches nowhere in `s`; otherwise
   * the leftmost index where it matches, with the groups it matches there.
   */
  function Exec(p: Pattern, s: string): (r: Option<Match>)
    ensures r.Some? ==> MatchesAt(p, s, r.value.index, r.value.groups) && WellFormed(p, s, r.value)
    ensures forall i, g :: MatchesAt(p, s, i, g) ==> r.Some? && r.value.index <= i
  {
    ExecFrom(p, s, 0)
  }

  /** A match lies inside the string. */
  lemma MatchesAtInBounds(p: Pattern, s: string, i: int, g: seq<Span>)
    requires MatchesAt(p, s, i, g)
    ensures 0 <= i <= |s|
  {
  }

  /** When `p` matches at `i` and nowhere to the left of it, `match` reports exactly that match. */
  lemma ExecFinds(p: Pattern, s: string, i: nat, g: seq<Span>)
    requires MatchesAt(p, s, i, g)
    requires forall i', g' :: 0 <= i' < i ==> !MatchesAt(p, s, i', g')
    ensures Exec(p, s) == Some(Match(i, g))
  {
    var m := Exec(p, s).value;
    MatchesAtInBounds(p, s, i, g);
    assert m.index == i;
    assert MatchAt(p, s, i) == Some(g);
    assert MatchAt(p, s, i) == Some(m.groups);
  }

  /** `/(\d+)/` matches exactly the strings that hold a digit. */
  lemma ExecDigitsWhenDigit(s: string)
    ensures Exec(Digits, s).Some? <==> exists k :: 0 <= k < |s| && IsDigit(s[k])
  {
    if k :| 0 <= k < |s| && IsDigit(s[k]) {
      assert MatchesAt(Digits, s, k, [Span(k, RunEnd(s, DigitClass, k))]);
    }
    if Exec(Digits, s).Some? {
      var m := Exec(Digits, s).value;
      assert IsDigit(s[m.index]);
    }
  }

  /** A match of `/(\d+)/` starts at a digit. */
  lemma DigitsMatchStartsAtDigit(s: string, i: int, g: seq<Span>)
    requires MatchesAt(Digits, s, i, g)
    ensures 0 <= i < |s| && IsDigit(s[i])
  {
  }

  /**
   * `<b>KEY: </b>` starts at `i`: KEY = `s[i + |BoldOpen|..c]` is non-empty
   * and holds no colon, and `: </b>` follows it at `c`.
   */
  ghost predicate BoldKeyAt(s: string, i: int, c: int) {
    DelimitedAt(s, BoldOpen, ':', BoldClose, i, c)
  }

  /**
   * `s` holds `<b>KEY: </b>VALUE` with the `<b>` at `i` and no such
   * `<b>KEY: </b>` starting before it, and VALUE = `s[c + |BoldClose|..e]`
   * running to the end of the line.
   */
  ghost predicate FirstBoldLine(s: string, i: int, c: int, e: int) {
    BoldKeyAt(s, i, c) && (forall k, c' :: 0 <= k < i ==> !BoldKeyAt(s, k, c'))
    && MaximalRun(s, NotLineTerminator, c + |BoldClose|, e)
  }

  lemma DetailLineFound(s: string, i: nat, c: nat, e: nat)
    requires FirstBoldLine(s, i, c, e)
    ensures Exec(DetailLine, s) == Some(Match(i, [Span(i + |BoldOpen|, c), Span(c + |BoldClose|, e)]))
  {
    var g := [Span(i + |BoldOpen|, c), Span(c + |BoldClose|, e)];
    assert MatchesAt(DetailLine, s, i, g);
    forall i': int, g': seq<Span> | 0 <= i' < i
      ensures !MatchesAt(DetailLine, s, i', g')
    {
      DetailMatchIsBoldKey(s, i', g');
    }
    ExecFinds(DetailLine, s, i, g);
  }

  /** A match of the detail pattern starts with `<b>KEY: </b>`. */
  lemma DetailMatchIsBoldKey(s: string, i: int, g: seq<Span>)
    ensures MatchesAt(DetailLine, s, i, g) ==> BoldKeyAt(s, i, g[0].end)
  {
  }

  /**
   * `<a href="mailto:ADDR">` occurs at `j`: ADDR = `v[j + |MailtoOpen|..q]` is
   * non-empty and holds no double quote.
   */
  ghost predicate MailtoLinkAt(v: string, j: int, q: int) {
    DelimitedAt(v, MailtoOpen, '"', MailtoClose, j, q)
  }

  /** `v` holds a link `<a href="mailto:ADDR">` at `j`, and no such link starts before it. */
  ghost predicate FirstMailtoLink(v: string, j: int, q: int) {
    MailtoLinkAt(v, j, q) && forall k, q' :: 0 <= k < j ==> !MailtoLinkAt(v, k, q')
  }

  /** What the link pattern matches is the first link. */
  lemma MailtoLinkOfMatch(v: string)
    ensures Exec(MailtoLink, v).Some? ==>
              FirstMailtoLink(v, Exec(MailtoLink, v).value.index, Exec(MailtoLink, v).value.groups[0].end)
  {
    if Exec(MailtoLink, v).Some? {
      var j := Exec(MailtoLink, v).value.index;
      forall k, q' | 0 <= k < j
        ensures !MailtoLinkAt(v, k, q')
      {
        MailtoLinkIsMatch(v, k, q');
      }
    }
  }

  lemma MailtoLinkFound(v: string, j: nat, q: nat)
    requires FirstMailtoLink(v, j, q)
    ensures Exec(MailtoLink, v) == Some(Match(j, [Span(j + |MailtoOpen|, q)]))
  {
    var g := [Span(j + |MailtoOpen|, q)];
    assert MatchesAt(MailtoLink, v, j, g);
    forall i': int, g': seq<Span> | 0 <= i' < j
      ensures !MatchesAt(MailtoLink, v, i', g')
    {
      MailtoMatchIsLink(v, i', g');
    }
    ExecFinds(MailtoLink, v, j, g);
  }

  /** A link is a match of the link pattern. */
  lemma MailtoLinkIsMatch(v: string, j: int, q: int)
    ensures MailtoLinkAt(v, j, q) ==> MatchesAt(MailtoLink, v, j, [Span(j + |MailtoOpen|, q)])
  {
  }

  /** A match of the link pattern is a link. */
  lemma MailtoMatchIsLink(v: string, i: int, g: seq<Span>)
    ensures MatchesAt(MailtoLink, v, i, g) ==> MailtoLinkAt(v, i, g[0].end)
  {
  }

  /**
   * `CODE (TITLE)` occurs with CODE = `s[i..j]`, a non-empty run of word
   * characters, and TITLE = `s[j + |TitleOpen|..q]`, non-empty and without `)`.
   */
  ghost predicate CodeTitleAt(s: string, i: int, j: int, q: int) {
    0 <= i < j && DelimitedAt(s, TitleOpen, ')', TitleClose, j, q)
    && forall k :: i <= k < j ==> IsWordChar(s[k])
  }

  /** `s` holds `CODE (TITLE)` with CODE starting at `i`, and no such text starts before `i`. */
  ghost predicate FirstCodeTitle(s: string, i: int, j: int, q: int) {
    CodeTitleAt(s, i, j, q) && forall k, j', q' :: 0 <= k < i ==> !CodeTitleAt(s, k, j', q')
  }

  lemma CodeTitleFound(s: string, i: nat, j: nat, q: nat)
    requires FirstCodeTitle(s, i, j, q)
    ensures Exec(CodeWithTitle, s) == Some(Match(i, [Span(i, j), Span(j + |TitleOpen|, q)]))
  {
    var g := [Span(i, j), Span(j + |TitleOpen|, q)];
    assert MatchesAt(CodeWithTitle, s, i, g);
    forall i': int, g': seq<Span> | 0 <= i' < i
      ensures !MatchesAt(CodeWithTitle, s, i', g')
    {
      CodeMatchIsCodeTitle(s, i', g');
    }
    ExecFinds(CodeWithTitle, s, i, g);
  }

  /** A match of `(\w+) \(([^)]+)\)` is `CODE (TITLE)`. */
  lemma CodeMatchIsCodeTitle(s: string, i: int, g: seq<Span>)
    ensures MatchesAt(CodeWithTitle, s, i, g) ==> CodeTitleAt(s, i, g[0].end, g[1].end)
  {
  }

  /** Four adjacent slices make up the slice that spans them. */
  lemma SlicesJoin(s: string, a: nat, b: nat, c: nat, d: nat, e: nat)
    requires a <= b <= c <= d <= e <= |s|
    ensures s[a..e] == s[a..b] + s[b..c] + s[c..d] + s[d..e]
  {
    assert s[a..e] == s[a..b] + s[b..e];
    assert s[b..e] == s[b..c] + s[c..e];
    assert s[c..e] == s[c..d] + s[d..e];
  }

  /** What `/(\w+) \(([^)]+)\)/` captures: a run of word characters, and a non-empty title without `)`, as `CODE (TITLE)` in `s`. */
  lemma CodeWithTitleShape(s: string)
    requires Exec(CodeWithTitle, s).Some?
    ensures var m := Exec(CodeWithTitle, s).value;
            var code, title := Capture(CodeWithTitle, s, m, 0), Capture(CodeWithTitle, s, m, 1);
            code != [] && (forall k :: 0 <= k < |code| ==> IsWordChar(code[k]))
            && title != [] && (forall k :: 0 <= k < |title| ==> title[k] != ')')
            && OccursAt(s, code + TitleOpen + title + TitleClose, m.index)
  {
    var m := Exec(CodeWithTitle, s).value;
    CodeTitleShapeAt(s, m.index, m.groups);
  }

  /** The same, for a match at `i` with groups `g`. */
  lemma CodeTitleShapeAt(s: string, i: int, g: seq<Span>)
    requires MatchesAt(CodeWithTitle, s, i, g)
    ensures var code, title := s[i..g[0].end], s[g[0].end + |TitleOpen|..g[1].end];
            code != [] && (forall k :: 0 <= k < |code| ==> IsWordChar(code[k]))
            && title != [] && (forall k :: 0 <= k < |title| ==> title[k] != ')')
            && OccursAt(s, code + TitleOpen + title + TitleClose, i)
  {
    var j, q := g[0].end, g[1].end;
    var t := j + |TitleOpen|;
    var code, title := s[i..j], s[t..q];
    assert forall k :: 0 <= k < |code| ==> code[k] == s[i + k];
    assert forall k :: 0 <= k < |title| ==> title[k] == s[t + k];
    assert OccursAt(s, code + TitleOpen + title + TitleClose, i) by {
      assert s[j..t] == TitleOpen && s[q..q + |TitleClose|] == TitleClose;
      SlicesJoin(s, i, j, t, q, q + |TitleClose|);
    }
  }
}
