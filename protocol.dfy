/** url.replaceAll("^https?://", ""): the protocol strip both services apply
    before hashing. The regular expression is modelled as a sequence of atoms
    matched greedily with backtracking, as java.util.regex does. */
module Protocol {
  import opened Jdk

  /** One element of an anchored pattern: a literal character, or an optional one (`c?`). */
  datatype Atom = Literal(c: char) | Optional(c: char)

  /** The pattern https?:// after its `^` anchor. */
  const PROTOCOL_PATTERN: seq<Atom> :=
    [Literal('h'), Literal('t'), Literal('t'), Literal('p'), Optional('s'), Literal(':'), Literal('/'), Literal('/')]

  /** Length of the match of `pattern` at the start of `s`, if any. An optional
      atom first tries to take its character and gives it back when the rest of
      the pattern then fails. */
  function MatchLength(pattern: seq<Atom>, s: string): (r: Option<nat>)
    ensures r.Some? ==> r.value <= |s| && r.value <= |pattern|
    decreases |pattern|
  {
    if pattern == [] then Some(0)
    else
      var taken :=
        if s != [] && s[0] == pattern[0].c then
          match MatchLength(pattern[1..], s[1..])
          case Some(n) => Some(n + 1)
          case None => None
        else None;
      match pattern[0]
      case Literal(_) => taken
      case Optional(_) => if taken.Some? then taken else MatchLength(pattern[1..], s)
  }

  /** s.replaceAll("^" + pattern, ""): `^` holds only at index 0, so there is at
      most one match, and it is removed. */
  function ReplaceAllAnchored(pattern: seq<Atom>, s: string): (r: string)
    ensures |r| <= |s| && |s| - |r| <= |pattern|
    ensures r == s[|s| - |r|..]
  {
    match MatchLength(pattern, s)
    case Some(n) => s[n..]
    case None => s
  }

  /** url.replaceAll("^https?://", ""): the URL with at most its first eight
      characters removed; StripProtocolCases says exactly which. */
  function StripProtocol(url: string): (r: string)
    ensures |r| <= |url| && |url| - |r| <= 8
    ensures r == url[|url| - |r|..]
  {
    ReplaceAllAnchored(PROTOCOL_PATTERN, url)
  }

  predicate StartsWith(s: string, prefix: string) {
    |prefix| <= |s| && s[..|prefix|] == prefix
  }

  lemma StartsWithConcat(s: string, u: string, v: string)
    ensures StartsWith(s, u + v) <==> StartsWith(s, u) && StartsWith(s[|u|..], v)
  {
    if StartsWith(s, u) && StartsWith(s[|u|..], v) {
      assert s[..|u + v|] == s[..|u|] + s[|u|..][..|v|];
    }
    if StartsWith(s, u + v) {
      assert s[..|u|] == (u + v)[..|u|];
      assert s[|u|..][..|v|] == (u + v)[|u|..];
    }
  }

  function Literals(w: string): (p: seq<Atom>)
    ensures |p| == |w| && forall k | 0 <= k < |w| :: p[k] == Literal(w[k])
  {
    seq(|w|, k requires 0 <= k < |w| => Literal(w[k]))
  }

  /** A run of literal atoms matches exactly when the text starts with them. */
  lemma {:induction false} MatchLiterals(w: string, rest: seq<Atom>, s: string)
    ensures MatchLength(Literals(w) + rest, s) ==
      if StartsWith(s, w) then
        match MatchLength(rest, s[|w|..])
        case Some(n) => Some(n + |w|)
        case None => None
      else None
    decreases |w|
  {
    var p := Literals(w) + rest;
    if w == [] {
      assert p == rest;
    } else if s != [] && s[0] == w[0] {
      assert p[1..] == Literals(w[1..]) + rest;
      MatchLiterals(w[1..], rest, s[1..]);
      assert StartsWith(s, w) <==> StartsWith(s[1..], w[1..]);
      if StartsWith(s, w) {
        assert s[|w|..] == s[1..][|w[1..]|..];
      }
    } else {
      assert !StartsWith(s, w);
    }
  }

  /** The part of the pattern after "http": `s?://`. */
  lemma MatchAfterHttp(s: string)
    ensures MatchLength([Optional('s')] + Literals("://"), s) ==
      if StartsWith(s, "s://") then Some(4)
      else if StartsWith(s, "://") then Some(3)
      else None
  {
    var p := [Optional('s')] + Literals("://");
    assert p[1..] == Literals("://") + [];
    MatchLiterals("://", [], s);
    assert "s://" == "s" + "://";
    StartsWithConcat(s, "s", "://");
    if s != [] && s[0] == 's' {
      MatchLiterals("://", [], s[1..]);
      assert StartsWith(s, "s");
      assert !StartsWith(s, "://");
    } else {
      assert !StartsWith(s, "s");
    }
  }

  /** The match of ^https?:// is 8 characters on "https://", 7 on "http://", and
      absent otherwise. */
  lemma MatchProtocol(url: string)
    ensures MatchLength(PROTOCOL_PATTERN, url) ==
      if StartsWith(url, "https://") then Some(8)
      else if StartsWith(url, "http://") then Some(7)
      else None
  {
    var tail := [Optional('s')] + Literals("://");
    assert PROTOCOL_PATTERN == Literals("http") + tail;
    MatchLiterals("http", tail, url);
    if StartsWith(url, "http") {
      MatchAfterHttp(url[4..]);
    }
    assert "https://" == "http" + "s://";
    assert "http://" == "http" + "://";
    StartsWithConcat(url, "http", "s://");
    StartsWithConcat(url, "http", "://");
  }

  /** What the strip does, case by case: a leading "https://" (8 characters) or
      "http://" (7 characters) is removed, matched case-sensitively; any other
      string comes back unchanged. */
  lemma StripProtocolCases(url: string)
    ensures StartsWith(url, "https://") ==> StripProtocol(url) == url[8..]
    ensures StartsWith(url, "http://") ==> StripProtocol(url) == url[7..]
    ensures !StartsWith(url, "http://") && !StartsWith(url, "https://") ==> StripProtocol(url) == url
  {
    MatchProtocol(url);
    if StartsWith(url, "https://") {
      assert url[4] == 's';
      assert !StartsWith(url, "http://");
    }
  }

  /** The result is always the input with 0, 7 or 8 leading characters removed. */
  lemma StripProtocolSuffix(url: string)
    ensures |StripProtocol(url)| <= |url|
    ensures var k := |url| - |StripProtocol(url)|; (k == 0 || k == 7 || k == 8) && StripProtocol(url) == url[k..]
  {
    StripProtocolCases(url);
  }

  /** Only one protocol is removed: whatever follows it is kept, even when it is
      itself a protocol. */
  lemma StripAtMostOnce(rest: string)
    ensures StripProtocol("http://" + rest) == rest
    ensures StripProtocol("https://" + rest) == rest
  {
    var a, b := "http://" + rest, "https://" + rest;
    assert StartsWith(a, "http://") && a[7..] == rest;
    assert StartsWith(b, "https://") && b[8..] == rest;
    StripProtocolCases(a);
    StripProtocolCases(b);
  }
}
