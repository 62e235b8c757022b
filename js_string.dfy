/**
 * The part of JavaScript's String and Array API that the scraper relies on:
 * character classes, `indexOf`/`includes`, `trim`, `split` with a string
 * separator and `join`.  Strings are sequences of characters.
 */
module JsString {
  import opened Wrappers

  /** An ECMAScript LineTerminator: the characters `.` in a regular expression does not match. */
  predicate IsLineTerminator(c: char) {
    c == '\n' || c == '\r' || c == '\U{2028}' || c == '\U{2029}'
  }

  /** ECMAScript WhiteSpace or LineTerminator: the characters `String.prototype.trim` removes. */
  predicate IsWhitespace(c: char) {
    c == '\t' || c == '\U{B}' || c == '\U{C}' || c == ' ' || c == '\U{A0}' || c == '\U{FEFF}'
    || c == '\U{1680}' || ('\U{2000}' <= c <= '\U{200A}') || c == '\U{202F}' || c == '\U{205F}'
    || c == '\U{3000}' || IsLineTerminator(c)
  }

  /** `\d` of a regular expression without the `u` flag. */
  predicate IsDigit(c: char) {
    '0' <= c <= '9'
  }

  /** `\w` of a regular expression without the `u` flag. */
  predicate IsWordChar(c: char) {
    ('a' <= c <= 'z') || ('A' <= c <= 'Z') || IsDigit(c) || c == '_'
  }

  /** `pat` occurs in `s` starting at index `k`. */
  predicate OccursAt(s: string, pat: string, k: int) {
    0 <= k && k + |pat| <= |s| && s[k..k + |pat|] == pat
  }

  lemma SingleCharOccurs(s: string, x: char)
    ensures forall k :: OccursAt(s, [x], k) <==> 0 <= k < |s| && s[k] == x
  {
    forall k | 0 <= k < |s|
      ensures OccursAt(s, [x], k) <==> s[k] == x
    {
      assert s[k..k + 1] == [s[k]];
    }
  }

  /** `s.indexOf(pat, from)`: the first occurrence at or after `from`, if any. */
  function IndexOf(s: string, pat: string, from: nat): (r: Option<nat>)
    requires from <= |s|
    ensures r.Some? ==> from <= r.value && OccursAt(s, pat, r.value)
    ensures forall k :: from <= k && OccursAt(s, pat, k) ==> r.Some? && r.value <= k
    decreases |s| - from
  {
    if OccursAt(s, pat, from) then Some(from)
    else if from == |s| then None
    else IndexOf(s, pat, from + 1)
  }

  /** `s.includes(pat)`. */
  function Includes(s: string, pat: string): (b: bool)
    ensures b <==> exists k :: OccursAt(s, pat, k)
  {
    IndexOf(s, pat, 0).Some?
  }

  predicate AllWhitespace(s: string) {
    forall k :: 0 <= k < |s| ==> IsWhitespace(s[k])
  }

  /** Neither end of `s` is white space. */
  predicate IsTrimmed(s: string) {
    s == [] || (!IsWhitespace(s[0]) && !IsWhitespace(s[|s| - 1]))
  }

  /** `s` without its leading white space. */
  function TrimStart(s: string): string
    decreases |s|
  {
    if s != [] && IsWhitespace(s[0]) then TrimStart(s[1..]) else s
  }

  /** `s` without its trailing white space. */
  function TrimEnd(s: string): string
    decreases |s|
  {
    if s != [] && IsWhitespace(s[|s| - 1]) then TrimEnd(s[..|s| - 1]) else s
  }

  /** `s.trim()`. */
  function Trim(s: string): string {
    TrimEnd(TrimStart(s))
  }

  /** `TrimStart` cuts off a prefix of white space and leaves a suffix that does not start with any. */
  lemma {:induction false} TrimStartMeaning(s: string)
    ensures var r := TrimStart(s);
            |r| <= |s| && r == s[|s| - |r|..] && AllWhitespace(s[..|s| - |r|])
            && (r == [] || !IsWhitespace(r[0]))
    decreases |s|
  {
    if s != [] && IsWhitespace(s[0]) {
      var tail := s[1..];
      TrimStartMeaning(tail);
      var r := TrimStart(tail);
      assert s[|s| - |r|..] == tail[|tail| - |r|..];
      assert forall k :: 1 <= k < |s| - |r| ==> s[k] == tail[k - 1];
    } else {
      assert s[0..] == s;
    }
  }

  /** `TrimEnd` cuts off a suffix of white space and leaves a prefix that does not end with any. */
  lemma {:induction false} TrimEndMeaning(s: string)
    ensures var r := TrimEnd(s);
            |r| <= |s| && r == s[..|r|] && AllWhitespace(s[|r|..])
            && (r == [] || !IsWhitespace(r[|r| - 1]))
    decreases |s|
  {
    if s != [] && IsWhitespace(s[|s| - 1]) {
      var init := s[..|s| - 1];
      TrimEndMeaning(init);
      var r := TrimEnd(init);
      assert s[..|r|] == init[..|r|];
      assert forall k :: |r| <= k < |s| - 1 ==> s[k] == init[k];
    } else {
      assert s[..|s|] == s;
    }
  }

  /**
   * `s.trim()` is the slice `s[i..i + |Trim(s)|]` left when the white space at
   * both ends is cut off: the parts cut off are white space and what is left
   * starts and ends with something else.
   */
  lemma TrimMeaning(s: string)
    ensures var i, r := |s| - |TrimStart(s)|, Trim(s);
            IsTrimmed(r) && 0 <= i && i + |r| <= |s| && r == s[i..i + |r|]
            && AllWhitespace(s[..i]) && AllWhitespace(s[i + |r|..])
  {
    var t := TrimStart(s);
    var r := TrimEnd(t);
    TrimStartMeaning(s);
    TrimEndMeaning(t);
    var i := |s| - |t|;
    assert s[i..i + |r|] == r;
    assert s[i + |r|..] == t[|r|..];
    assert r == [] ==> IsTrimmed(r);
    if r != [] {
      assert r[0] == t[0];
    }
  }

  /** Trimming cannot bring in a character that was not there. */
  lemma TrimAvoids(s: string, c: char)
    requires c !in s
    ensures c !in Trim(s)
  {
    TrimMeaning(s);
    var i := |s| - |TrimStart(s)|;
    var r := Trim(s);
    forall k | 0 <= k < |r| ensures r[k] != c {
      assert r[k] == s[i + k];
    }
  }

  /** `parts.join(sep)` for an array of strings. */
  function Join(parts: seq<string>, sep: string): string {
    if |parts| == 0 then ""
    else if |parts| == 1 then parts[0]
    else parts[0] + sep + Join(parts[1..], sep)
  }

  /**
   * `s.split(sep)` for a non-empty separator: the pieces between the
   * occurrences of `sep` found from left to right.  There is always at least
   * one piece, and joining the pieces with `sep` gives `s` back.
   */
  function Split(s: string, sep: string): (r: seq<string>)
    requires sep != []
    ensures |r| >= 1
    ensures Join(r, sep) == s
    decreases |s|
  {
    match IndexOf(s, sep, 0)
    case None => [s]
    case Some(i) =>
      var rest := Split(s[i + |sep|..], sep);
      assert ([s[..i]] + rest)[1..] == rest;
      assert s[..i] + sep + s[i + |sep|..] == s by {
        assert s[i..i + |sep|] == sep;
        assert s == s[..i] + s[i..i + |sep|] + s[i + |sep|..];
      }
      [s[..i]] + rest
  }

  /** No piece that `Split` returns contains the separator. */
  lemma {:induction false} SplitPiecesAvoidSeparator(s: string, sep: string)
    requires sep != []
    ensures forall n :: 0 <= n < |Split(s, sep)| ==> !Includes(Split(s, sep)[n], sep)
    decreases |s|
  {
    match IndexOf(s, sep, 0)
    case None =>
      assert Split(s, sep) == [s];
    case Some(i) =>
      var rest := s[i + |sep|..];
      SplitPiecesAvoidSeparator(rest, sep);
      assert Split(s, sep) == [s[..i]] + Split(rest, sep);
      forall k | OccursAt(s[..i], sep, k)
        ensures false
      {
        assert s[..i][k..k + |sep|] == s[k..k + |sep|];
        assert OccursAt(s, sep, k);
      }
  }

  /** `IndexOf` on a one-character pattern finds the first position holding that character. */
  lemma IndexOfChar(s: string, c: char, from: nat)
    requires from <= |s|
    ensures IndexOf(s, [c], from).None? ==> forall k :: from <= k < |s| ==> s[k] != c
    ensures IndexOf(s, [c], from).Some? ==>
              var i := IndexOf(s, [c], from).value;
              i < |s| && s[i] == c && forall k :: from <= k < i ==> s[k] != c
  {
    SingleCharOccurs(s, c);
  }

  /** Splitting on a single character gives one piece more than the character occurs. */
  lemma {:induction false} SplitCharCount(s: string, c: char)
    ensures |Split(s, [c])| == multiset(s)[c] + 1
    decreases |s|
  {
    IndexOfChar(s, c, 0);
    match IndexOf(s, [c], 0)
    case None =>
      assert Split(s, [c]) == [s];
      assert c !in s;
    case Some(i) =>
      var rest := s[i + 1..];
      SplitCharCount(rest, c);
      assert Split(s, [c]) == [s[..i]] + Split(rest, [c]);
      assert c !in s[..i];
      assert s == s[..i] + [c] + rest;
      assert multiset(s) == multiset(s[..i]) + multiset([c]) + multiset(rest);
  }

  /** Splitting `a + b` on `c`, where `a` holds no `c` and `b` is empty or starts with `c`. */
  lemma SplitAtFirstChar(a: string, b: string, c: char)
    requires c !in a
    requires b == [] || b[0] == c
    ensures b == [] ==> Split(a + b, [c]) == [a]
    ensures b != [] ==> Split(a + b, [c]) == [a] + Split(b[1..], [c])
  {
    var s := a + b;
    IndexOfChar(s, c, 0);
    if b == [] {
      assert s == a;
      assert IndexOf(s, [c], 0).None?;
    } else {
      assert s[|a|] == c;
      assert forall k :: 0 <= k < |a| ==> s[k] == a[k];
      assert IndexOf(s, [c], 0) == Some(|a|);
      assert s[..|a|] == a;
      assert s[|a| + 1..] == b[1..];
    }
  }

  /** The first two pieces of `a + [c] + b + rest`, where neither `a` nor `b` holds `c` and `rest` is empty or starts with `c`. */
  lemma SplitFirstTwoPieces(a: string, b: string, rest: string, c: char)
    requires c !in a && c !in b
    requires rest == [] || rest[0] == c
    ensures |Split(a + [c] + b + rest, [c])| > 1
    ensures Split(a + [c] + b + rest, [c])[0] == a
    ensures Split(a + [c] + b + rest, [c])[1] == b
  {
    var tail := [c] + b + rest;
    var second := Split(b + rest, [c]);
    assert Split(a + [c] + b + rest, [c]) == [a] + second by {
      assert a + [c] + b + rest == a + tail;
      assert tail[1..] == b + rest;
      SplitAtFirstChar(a, tail, c);
    }
    assert second[0] == b by {
      SplitAtFirstChar(b, rest, c);
    }
  }
}
