/**
 The attribute pattern of the asset validator,
     (?:src|href)=["'](/[^"'#?]+)
 and the leftmost-first, non-overlapping scan that Python's `findall`
 performs with it. A scan works on suffixes of the text: `MatchAt(s)` tries
 the pattern at the first character of `s`; `FindAll` retries one character
 later after a failure and resumes right after the whole match after a
 success, keeping only the captured group.
 */
module AssetPattern {

  /** The characters excluded by the class [^"'#?]; they end a captured path. */
  predicate IsTerminator(c: char) {
    c == '"' || c == '\'' || c == '#' || c == '?'
  }

  /** The opening quote may be either kind. */
  predicate IsQuote(c: char) {
    c == '"' || c == '\''
  }

  /** A value the capture group can produce: a slash and at least one more
      character, none of them a terminator. */
  predicate IsCandidate(v: string) {
    |v| >= 2 && v[0] == '/' && forall i :: 0 <= i < |v| ==> !IsTerminator(v[i])
  }

  /** The result of trying the pattern at the start of a string: how many
      characters the whole match consumed and what group 1 captured. */
  datatype Scan = NoMatch | Matched(length: nat, group: string)

  /** Length of the greedy run [^"'#?]* at the start of `s`. */
  function RunLength(s: string): (n: nat)
    ensures n <= |s|
    ensures forall i :: 0 <= i < n ==> !IsTerminator(s[i])
    ensures n == |s| || IsTerminator(s[n])
  {
    if s == [] || IsTerminator(s[0]) then 0 else 1 + RunLength(s[1..])
  }

  /** Length of the alternative (?:src|href) that matches at the start of
      `s`, or 0 when neither does (the pattern is case-sensitive). */
  function KeywordLength(s: string): nat {
    if |s| >= 3 && s[..3] == "src" then 3
    else if |s| >= 4 && s[..4] == "href" then 4
    else 0
  }

  /** One attempt of the pattern at position 0 of `s`. */
  function MatchAt(s: string): (r: Scan)
    ensures r.Matched? ==> IsCandidate(r.group) && |r.group| < r.length <= |s|
    ensures r.Matched? ==> s[r.length - |r.group| .. r.length] == r.group
  {
    var k := KeywordLength(s);
    if k == 0 || |s| < k + 3 || s[k] != '=' || !IsQuote(s[k + 1]) || s[k + 2] != '/' then
      NoMatch
    else
      var n := RunLength(s[k + 3..]);
      if n == 0 then NoMatch
      else
        var g := s[k + 2 .. k + 3 + n];
        assert forall i :: 1 <= i < |g| ==> g[i] == s[k + 3..][i - 1];
        Matched(k + 3 + n, g)
  }

  /** `s` opens with the keyword `kw`, an equals sign and a quote, with no
      whitespace in between. */
  predicate OpensWith(s: string, kw: string) {
    |s| >= |kw| + 2 && s[..|kw|] == kw && s[|kw|] == '=' && IsQuote(s[|kw| + 1])
  }

  /** The candidate `v` stands at offset `p` of `s` and extends as far as the
      first terminator or the end of `s`. */
  predicate CapturedAt(s: string, p: nat, v: string) {
    && IsCandidate(v)
    && p + |v| <= |s|
    && s[p .. p + |v|] == v
    && (p + |v| == |s| || IsTerminator(s[p + |v|]))
  }

  /** Declarative reading of the pattern: it matches at the start of `s`
      with group 1 equal to `v`. */
  predicate AttributeAt(s: string, v: string) {
    || (OpensWith(s, "src") && CapturedAt(s, 5, v))
    || (OpensWith(s, "href") && CapturedAt(s, 6, v))
  }

  /** The leftmost-first, non-overlapping scan of `findall`; returns group 1
      of every match, in text order. */
  function FindAll(s: string): (r: seq<string>)
    ensures forall v :: v in r ==> IsCandidate(v)
    decreases |s|
  {
    if s == [] then []
    else
      match MatchAt(s)
      case NoMatch => FindAll(s[1..])
      case Matched(n, g) => [g] + FindAll(s[n..])
  }

  /** The operational attempt and the declarative reading agree, both ways. */
  lemma MatchAtMeansAttribute(s: string, v: string)
    ensures (MatchAt(s).Matched? && MatchAt(s).group == v) <==> AttributeAt(s, v)
  {
    if MatchAt(s).Matched? {
      MatchedIsAttribute(s);
    }
    if AttributeAt(s, v) {
      AttributeIsMatched(s, v);
    }
  }

  /** Whatever the attempt matches fits the declarative reading. */
  lemma MatchedIsAttribute(s: string)
    requires MatchAt(s).Matched?
    ensures AttributeAt(s, MatchAt(s).group)
  {
    var k := KeywordLength(s);
    var v := MatchAt(s).group;
    if k == 3 {
      assert OpensWith(s, "src");
      assert CapturedAt(s, 5, v);
    } else {
      assert OpensWith(s, "href");
      assert CapturedAt(s, 6, v);
    }
  }

  /** Whatever fits the declarative reading is matched, consuming the
      keyword, the equals sign, the quote and the value. */
  lemma AttributeIsMatched(s: string, v: string)
    requires AttributeAt(s, v)
    ensures MatchAt(s) == Matched(KeywordLength(s) + 2 + |v|, v)
    ensures KeywordLength(s) == 3 || KeywordLength(s) == 4
  {
    var k := KeywordLength(s);
    if OpensWith(s, "src") && CapturedAt(s, 5, v) {
      assert s[..3] == "src";
      assert k == 3;
    } else {
      assert s[..4] == "href";
      assert s[..3] != "src" by { assert s[..3][0] == s[0] == 'h'; }
      assert k == 4;
    }
    assert CapturedAt(s, k + 2, v);
    RunOfCapture(s, k + 2, v);
    assert s[k + 2] == v[0];
  }

  /** The greedy run after the slash of a captured value covers exactly the
      rest of that value. */
  lemma RunOfCapture(s: string, p: nat, v: string)
    requires CapturedAt(s, p, v)
    ensures RunLength(s[p + 1..]) == |v| - 1
  {
    var tail := s[p + 1..];
    var n := RunLength(tail);
    forall i | 0 <= i < |v| - 1 ensures !IsTerminator(tail[i]) {
      assert tail[i] == s[p .. p + |v|][i + 1] == v[i + 1];
    }
    if |v| - 1 < |tail| {
      assert tail[|v| - 1] == s[p + |v|];
    }
  }

  /** Every extracted value starts with a single leading slash followed by at
      least one character, and carries neither a quote nor the start of a
      query string or fragment. */
  lemma FindAllShape(s: string, v: string)
    requires v in FindAll(s)
    ensures |v| >= 2 && v[0] == '/' && v != "/"
    ensures '"' !in v && '\'' !in v && '?' !in v && '#' !in v
  {
    assert IsCandidate(v);
    forall c | c in v ensures !IsTerminator(c) {
      var i :| 0 <= i < |v| && v[i] == c;
    }
  }

  /** Every extracted value was captured by a match of the pattern somewhere
      in the text. */
  lemma {:induction false} FindAllSound(s: string, v: string)
    requires v in FindAll(s)
    ensures exists k :: 0 <= k < |s| && AttributeAt(s[k..], v)
    decreases |s|
  {
    match MatchAt(s)
    case NoMatch =>
      FindAllSound(s[1..], v);
      var k :| 0 <= k < |s[1..]| && AttributeAt(s[1..][k..], v);
      AttributeFurtherIn(s, 1, k, v);
    case Matched(n, g) =>
      if v == g {
        MatchAtMeansAttribute(s, v);
        assert s[0..] == s;
      } else {
        FindAllSound(s[n..], v);
        var k :| 0 <= k < |s[n..]| && AttributeAt(s[n..][k..], v);
        AttributeFurtherIn(s, n, k, v);
      }
  }

  /** An attribute found in a suffix of a suffix is found in the text. */
  lemma AttributeFurtherIn(s: string, d: nat, k: nat, v: string)
    requires d <= |s| && k < |s| - d && AttributeAt(s[d..][k..], v)
    ensures 0 <= d + k < |s| && AttributeAt(s[d + k..], v)
  {
    assert s[d..][k..] == s[d + k..];
  }

  /** The scan finds nothing exactly when the pattern matches at no position. */
  lemma {:induction false} FindAllEmptyIff(s: string)
    ensures FindAll(s) == [] <==> forall k, v :: 0 <= k < |s| ==> !AttributeAt(s[k..], v)
    decreases |s|
  {
    if FindAll(s) == [] {
      forall k, v | 0 <= k < |s| ensures !AttributeAt(s[k..], v) {
        NothingFoundMeansNoMatch(s, k, v);
      }
    } else {
      var v := FindAll(s)[0];
      FindAllSound(s, v);
    }
  }

  /** Helper for FindAllEmptyIff: an empty scan passed every position. */
  lemma {:induction false} NothingFoundMeansNoMatch(s: string, k: nat, v: string)
    requires FindAll(s) == [] && k < |s|
    ensures !AttributeAt(s[k..], v)
    decreases |s|
  {
    MatchAtMeansAttribute(s, v);
    assert MatchAt(s).NoMatch?;
    if k > 0 {
      NothingFoundMeansNoMatch(s[1..], k - 1, v);
      assert s[1..][k - 1..] == s[k..];
    }
  }

  /** Leftmost-first and non-overlapping: the first value extracted is the
      group of the match at the earliest position where the pattern matches,
      and the scan resumes right after that whole match. */
  lemma FindAllLeftmost(s: string, k: nat, v: string)
    requires k < |s| && AttributeAt(s[k..], v)
    requires forall j, w :: 0 <= j < k ==> !AttributeAt(s[j..], w)
    ensures FindAll(s) != [] && FindAll(s)[0] == v
    ensures k + KeywordLength(s[k..]) + 2 + |v| <= |s|
    ensures FindAll(s) == [v] + FindAll(s[k + KeywordLength(s[k..]) + 2 + |v|..])
  {
    FindAllSkipsTo(s, k);
    AttributeFirst(s[k..], v);
    var n := KeywordLength(s[k..]) + 2 + |v|;
    assert s[k..][n..] == s[k + n..];
  }

  /** Positions where the pattern does not match are skipped one by one. */
  lemma {:induction false} FindAllSkipsTo(s: string, k: nat)
    requires k <= |s|
    requires forall j, w :: 0 <= j < k ==> !AttributeAt(s[j..], w)
    ensures FindAll(s) == FindAll(s[k..])
    decreases k
  {
    if k == 0 {
      assert s[0..] == s;
    } else {
      assert s[0..] == s;
      NoAttributeFirst(s);
      forall j, w | 0 <= j < k - 1 ensures !AttributeAt(s[1..][j..], w) {
        assert s[1..][j..] == s[j + 1..];
      }
      FindAllSkipsTo(s[1..], k - 1);
      assert s[1..][k - 1..] == s[k..];
    }
  }

  /** A text that does not open with an attribute yields what the text after
      its first character yields. */
  lemma NoAttributeFirst(s: string)
    requires s != [] && forall w :: !AttributeAt(s, w)
    ensures FindAll(s) == FindAll(s[1..])
  {
    if MatchAt(s).Matched? {
      MatchAtMeansAttribute(s, MatchAt(s).group);
    }
  }

  /** A text that opens with an attribute yields its path first, and the scan
      resumes right after the whole match. */
  lemma AttributeFirst(s: string, v: string)
    requires AttributeAt(s, v)
    ensures KeywordLength(s) + 2 + |v| <= |s|
    ensures FindAll(s) == [v] + FindAll(s[KeywordLength(s) + 2 + |v|..])
  {
    AttributeIsMatched(s, v);
    var m := MatchAt(s);
    assert m.Matched? && m.length <= |s|;
    assert s != [];
  }

  /** A text without an equals sign, or without any `s` and `h`, yields nothing. */
  lemma {:induction false} FindAllQuiet(s: string)
    requires '=' !in s || ('s' !in s && 'h' !in s)
    ensures FindAll(s) == []
    decreases |s|
  {
    if s != [] {
      var k := KeywordLength(s);
      if k != 0 && |s| > k {
        assert s[k] in s;
        assert s[0] in s;
        assert s[0] == s[..k][0];
      }
      assert MatchAt(s).NoMatch?;
      assert forall c :: c in s[1..] ==> c in s;
      FindAllQuiet(s[1..]);
    }
  }

  /** A match spells out its keyword and the equals sign after it. */
  lemma MatchSpellsKeyword(s: string)
    ensures MatchAt(s).Matched? ==>
              || (s[0] == 's' && s[1] == 'r' && s[2] == 'c' && s[3] == '=')
              || (s[0] == 'h' && s[1] == 'r' && s[2] == 'e' && s[3] == 'f' && s[4] == '=')
  {
    if MatchAt(s).Matched? {
      if KeywordLength(s) == 3 {
        assert s[..3][0] == s[0] && s[..3][1] == s[1] && s[..3][2] == s[2];
      } else {
        assert s[..4][0] == s[0] && s[..4][1] == s[1] && s[..4][2] == s[2] && s[..4][3] == s[3];
      }
    }
  }

  /** Text without an equals sign that ends where an attribute keyword
      begins cannot start a match, not even one running into the keyword. */
  lemma {:induction false} FindAllSkipsPrefix(s: string, p: nat)
    requires p < |s| && (s[p] == 's' || s[p] == 'h')
    requires forall i :: 0 <= i < p ==> s[i] != '='
    ensures FindAll(s) == FindAll(s[p..])
    decreases p
  {
    if p == 0 {
      assert s[0..] == s;
    } else {
      MatchSpellsKeyword(s);
      assert MatchAt(s).NoMatch?;
      assert s[1..][p - 1..] == s[p..];
      FindAllSkipsPrefix(s[1..], p - 1);
    }
  }

  /** An attribute written out piece by piece fits the declarative reading. */
  lemma AttributeOfParts(kw: string, q: char, v: string, rest: string)
    requires kw == "src" || kw == "href"
    requires IsQuote(q) && IsCandidate(v)
    requires rest == [] || IsTerminator(rest[0])
    ensures AttributeAt(kw + "=" + [q] + v + rest, v)
    ensures KeywordLength(kw + "=" + [q] + v + rest) == |kw|
  {
    var x := kw + "=" + [q] + v + rest;
    assert x[..|kw|] == kw;
    assert x[|kw|] == '=' && x[|kw| + 1] == q;
    assert x[|kw| + 2 .. |kw| + 2 + |v|] == v;
    assert |kw| + 2 + |v| < |x| ==> x[|kw| + 2 + |v|] == rest[0];
    assert OpensWith(x, kw) && CapturedAt(x, |kw| + 2, v);
    if kw == "href" {
      assert x[..3] != "src" by { assert x[..3][0] == x[0] == 'h'; }
    }
  }

  /** An attribute at the very start of the text is matched first, and the
      scan resumes right after its value. */
  lemma FindAllAttributeFirst(kw: string, q: char, v: string, rest: string)
    requires kw == "src" || kw == "href"
    requires IsQuote(q) && IsCandidate(v)
    requires rest == [] || IsTerminator(rest[0])
    ensures FindAll(kw + "=" + [q] + v + rest) == [v] + FindAll(rest)
  {
    var x := kw + "=" + [q] + v + rest;
    AttributeOfParts(kw, q, v, rest);
    AttributeIsMatched(x, v);
    assert x[|kw| + 2 + |v|..] == rest;
  }

  /** The four ways an attribute can open: keyword, equals sign, quote. */
  predicate IsOpening(opening: string) {
    opening in {"src=\"", "src='", "href=\"", "href='"}
  }

  /** A single well-formed attribute, preceded by text without an equals sign
      and followed by a terminator (or the end), yields its path first. */
  lemma FindAllAttribute(s: string, pre: string, opening: string, v: string, rest: string)
    requires s == pre + opening + v + rest
    requires '=' !in pre
    requires IsOpening(opening) && IsCandidate(v)
    requires rest == [] || IsTerminator(rest[0])
    ensures FindAll(s) == [v] + FindAll(rest)
  {
    var kw := opening[..|opening| - 2];
    var q := opening[|opening| - 1];
    assert opening == kw + "=" + [q];
    var x := kw + "=" + [q] + v + rest;
    FindAllAttributeFirst(kw, q, v, rest);
    AttributeAfterPrefix(s, pre, opening, v, rest);
    assert s[|pre|..] == x;
    assert s[|pre|] == kw[0];
    forall i | 0 <= i < |pre| ensures s[i] != '=' {
      assert s[i] == pre[i];
    }
    FindAllSkipsPrefix(s, |pre|);
  }

  /** What follows the text before an attribute is the attribute and the
      rest of the text. */
  lemma AttributeAfterPrefix(s: string, pre: string, opening: string, v: string, rest: string)
    requires s == pre + opening + v + rest
    ensures s[|pre|..] == opening + v + rest
  {
    assert s == pre + (opening + v + rest);
  }
}
