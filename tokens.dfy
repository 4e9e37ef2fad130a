/**
 * Segment tokens: the recogniser `isRegExpr`, which web/route.go runs as the
 * regular expression `^:(.+)\((.*)\)`, the abstracted `matchRegExpr`, and the
 * classification order used by `childOrCreate`.
 */
module Tokens {
  import opened Wrappers

  /**
   * The regular expression a regex segment carries is never interpreted
   * here: matching a segment against a pattern body is this oracle, supplied
   * by the caller (Go's regexp engine does an unanchored search).
   */
  type RegexOracle = (string, string) -> bool

  /** Index of the first newline in `s`, or `|s|`: Go's `.` stops there. */
  function LineEnd(s: string): (k: nat)
    ensures k <= |s|
    ensures forall m :: 0 <= m < k ==> s[m] != '\n'
    ensures k < |s| ==> s[k] == '\n'
  {
    if s == [] || s[0] == '\n' then 0 else 1 + LineEnd(s[1..])
  }

  /** The last index in `[lo, hi)` holding `c`. */
  function LastIndexOf(s: string, c: char, lo: nat, hi: nat): (r: Option<nat>)
    requires hi <= |s|
    ensures r.Some? ==> lo <= r.value < hi && s[r.value] == c
    ensures r.Some? ==> forall m :: r.value < m < hi ==> s[m] != c
    ensures r.None? ==> forall m :: lo <= m < hi ==> s[m] != c
    decreases hi
  {
    if hi <= lo then None
    else if s[hi - 1] == c then Some(hi - 1)
    else LastIndexOf(s, c, lo, hi - 1)
  }

  /**
   * A way for `^:(.+)\((.*)\)` to match token `t`: the '(' at `i` closes the
   * name `t[1..i]` (at least one character), the ')' at `j` closes the body
   * `t[i+1..j]`, and neither contains a newline. Anything may follow `j`:
   * the expression is not anchored at the end.
   */
  ghost predicate RegMatchAt(t: string, i: int, j: int)
  {
    2 <= i < j < |t| && t[0] == ':' && t[i] == '(' && t[j] == ')' &&
    forall m :: 0 <= m <= j ==> t[m] != '\n'
  }

  /**
   * The positions Go's leftmost-first matcher picks: the greedy `(.+)` takes
   * the last '(' that still has a ')' after it, and the greedy `(.*)` the
   * last ')' before the first newline.
   */
  function RegSplit(t: string): (r: Option<(nat, nat)>)
    ensures r.Some? <==> exists i, j :: RegMatchAt(t, i, j)
    ensures r.Some? ==> RegMatchAt(t, r.value.0, r.value.1)
    ensures r.Some? ==> forall i, j :: RegMatchAt(t, i, j) ==> i <= r.value.0 && j <= r.value.1
  {
    if |t| == 0 || t[0] != ':' then None
    else
      var k := LineEnd(t);
      match LastIndexOf(t, ')', 0, k)
      case None => None
      case Some(j) =>
        match LastIndexOf(t, '(', 2, j)
        case None => None
        case Some(i) =>
          assert RegMatchAt(t, i, j);
          Some((i, j))
  }

  /** `isRegExpr`: the parameter name of a regex token `:name(body)`. */
  function RegName(t: string): (r: Option<string>)
    ensures r.Some? <==> exists i, j :: RegMatchAt(t, i, j)
    ensures r.Some? ==> 1 <= |r.value| && |r.value| + 2 < |t|
    ensures r.Some? ==> t[..|r.value| + 2] == [':'] + r.value + ['(']
  {
    match RegSplit(t)
    case None => None
    case Some((i, _)) =>
      assert t[..i + 1] == [':'] + t[1..i] + ['('];
      Some(t[1..i])
  }

  /** The split is pinned down by a match with no ')' after it and no '(' inside the body. */
  lemma RegSplitIs(t: string, i: nat, j: nat)
    requires RegMatchAt(t, i, j)
    requires forall m :: j < m < |t| ==> t[m] != ')'
    requires forall m :: i < m < j ==> t[m] != '('
    ensures RegSplit(t) == Some((i, j))
    ensures RegName(t) == Some(t[1..i]) && RegBody(t) == Some(t[i + 1..j])
  {
  }

  /** The pattern body `matchRegExpr` re-extracts from the node's token. */
  function RegBody(t: string): Option<string>
  {
    match RegSplit(t)
    case None => None
    case Some((i, j)) => Some(t[i + 1..j])
  }

  /** Name and body together spell out the start of the token. */
  lemma RegNameBody(t: string)
    requires RegSplit(t).Some?
    ensures RegName(t).Some? && RegBody(t).Some?
    ensures t[..RegSplit(t).value.1 + 1] == [':'] + RegName(t).value + ['('] + RegBody(t).value + [')']
  {
    var (i, j) := RegSplit(t).value;
    assert t[..j + 1] == t[..1] + t[1..i] + t[i..i + 1] + t[i + 1..j] + t[j..j + 1];
  }

  /**
   * `matchRegExpr(pattern, seg)`: re-parse the node's token; a token that is
   * not a regex token matches nothing, otherwise the oracle decides.
   */
  function MatchRegExpr(rx: RegexOracle, pattern: string, seg: string): (b: bool)
    ensures b ==> RegBody(pattern).Some? && rx(RegBody(pattern).value, seg)
    ensures RegBody(pattern).Some? && rx(RegBody(pattern).value, seg) ==> b
  {
    match RegBody(pattern)
    case None => false
    case Some(body) => rx(body, seg)
  }

  /** How `childOrCreate` reads a segment, in the order it tests. */
  datatype Token = StarTok | RegTok(name: string) | ParamTok(name: string) | StaticTok

  function Classify(seg: string): (k: Token)
    requires seg != ""
    ensures k == StarTok <==> seg == "*"
    ensures k.RegTok? <==> seg != "*" && RegName(seg).Some?
    ensures k.RegTok? ==> k.name == RegName(seg).value
    ensures k.ParamTok? <==> seg != "*" && RegName(seg).None? && seg[0] == ':'
    ensures k.ParamTok? ==> k.name == seg[1..]
  {
    if seg == "*" then StarTok
    else match RegName(seg)
      case Some(name) => RegTok(name)
      case None => if seg[0] == ':' then ParamTok(seg[1..]) else StaticTok
  }

  /**
   * A token spelled `:name(body)rest` gives back `name` and `body`, provided
   * neither holds a newline, the body holds no '(' (so that the greedy name
   * stops at the '(' before it) and `rest` holds no ')'.
   */
  lemma RegTokenParts(name: string, body: string, rest: string)
    requires name != [] && '\n' !in name && '\n' !in body && '(' !in body && ')' !in rest
    ensures RegName(":" + name + "(" + body + ")" + rest) == Some(name)
    ensures RegBody(":" + name + "(" + body + ")" + rest) == Some(body)
  {
    var t := ":" + name + "(" + body + ")" + rest;
    var i, j := |name| + 1, |name| + |body| + 2;
    TokenLayout(name, body, rest);
    RegSplitIs(t, i, j);
  }

  /** Where the pieces of `:name(body)rest` sit. */
  lemma TokenLayout(name: string, body: string, rest: string)
    requires '\n' !in name && '\n' !in body && '(' !in body && ')' !in rest
    ensures var t := ":" + name + "(" + body + ")" + rest;
      var i, j := |name| + 1, |name| + |body| + 2;
      && t[1..i] == name && t[i + 1..j] == body
      && (name != [] ==> RegMatchAt(t, i, j))
      && (forall m :: j < m < |t| ==> t[m] != ')')
      && (forall m :: i < m < j ==> t[m] != '(')
  {
    var t := ":" + name + "(" + body + ")" + rest;
    var i, j := |name| + 1, |name| + |body| + 2;
    assert forall m :: 1 <= m < i ==> t[m] == name[m - 1];
    assert forall m :: i < m < j ==> t[m] == body[m - i - 1];
    assert forall m :: j < m < |t| ==> t[m] == rest[m - j - 1];
  }

  /**
   * The token a regex node was registered with, `:name(body)`, matches a
   * segment exactly when its body does: `matchRegExpr` recovers the body.
   */
  lemma MatchRegExprToken(rx: RegexOracle, name: string, body: string, rest: string, seg: string)
    requires name != [] && '\n' !in name && '\n' !in body && '(' !in body && ')' !in rest
    ensures MatchRegExpr(rx, ":" + name + "(" + body + ")" + rest, seg) == rx(body, seg)
  {
    RegTokenParts(name, body, rest);
  }

  /** A pattern `isRegExpr` rejects matches no segment. */
  lemma MatchRegExprNonToken(rx: RegexOracle, pattern: string, seg: string)
    requires RegName(pattern).None?
    ensures !MatchRegExpr(rx, pattern, seg)
  {
  }

  /** A token spelled `:name(body)` is read as a regex token named `name`, never as a parameter. */
  lemma ClassifyRegToken(name: string, body: string, rest: string)
    requires name != [] && '\n' !in name && '\n' !in body && '(' !in body && ')' !in rest
    ensures Classify(":" + name + "(" + body + ")" + rest) == RegTok(name)
  {
    RegTokenParts(name, body, rest);
  }

  /** A token `:name` whose name holds no '(' is read as a parameter named `name`. */
  lemma ClassifyParamToken(name: string)
    requires '(' !in name
    ensures Classify(":" + name) == ParamTok(name)
  {
    var t := ":" + name;
    assert forall m :: 1 <= m < |t| ==> t[m] == name[m - 1];
    assert forall m :: 1 <= m < |t| ==> t[m] != '(';
    assert RegName(t).None?;
    assert t[0] == ':' && t[1..] == name;
  }

  /** A whole token `:name(body)`, with nothing after the ')', is recognised with its name. */
  lemma RegTokenName(name: string, body: string)
    requires name != [] && '\n' !in name && '\n' !in body && '(' !in body
    ensures RegName(":" + name + "(" + body + ")") == Some(name)
  {
    RegTokenParts(name, body, "");
    assert ":" + name + "(" + body + ")" + "" == ":" + name + "(" + body + ")";
  }

  /** The recogniser on the tokens of web/route_test.go's Test_isRegExpr. */
  lemma RegNameExampleId()
    ensures RegName(":id(.*)") == Some("id")
  {
    RegTokenName("id", ".*");
    assert ":" + "id" + "(" == ":id(";
    assert ":id(" + ".*" + ")" == ":id(.*)";
  }

  lemma RegNameExampleAnchored()
    ensures RegName(":name(^.+$)") == Some("name")
  {
    RegTokenName("name", "^.+$");
    assert ":" + "name" + "(" == ":name(";
    assert ":name(" + "^.+$" + ")" == ":name(^.+$)";
  }

  lemma RegNameExamplesNone()
    ensures RegName("*") == None
    ensures RegName(":user") == None
    ensures RegName("user") == None
  {
    var c := ":user";
    assert forall i, j :: RegMatchAt(c, i, j) ==> c[j] == ')';
  }
}
