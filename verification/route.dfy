/**
  The route-pattern helpers of route.go: a chi URL `Token` (a parameter
  name, optionally followed by `:` and a match pattern), its name and its
  `{...}` placeholder, and `Join`/`Pattern`, which assemble path strings.
 */
module Route {

  /** A chi URL token such as `id` or `id:[0-9]+`. */
  type Token = string

  /** `strings.IndexByte`: the position of the first `c` in `s`, or -1 when there is none. */
  function IndexByte(s: string, c: char): (r: int)
    ensures -1 <= r < |s|
    ensures r == -1 <==> c !in s
    ensures r >= 0 ==> s[r] == c && c !in s[..r]
  {
    if s == [] then -1
    else if s[0] == c then 0
    else
      var r := IndexByte(s[1..], c);
      if r == -1 then -1
      else
        assert s[..r + 1] == [s[0]] + s[1..][..r];
        r + 1
  }

  /**
    `Token.String`: the token's parameter name, everything before the first
    `:`, or the whole token when it has no `:`. The name is the longest
    prefix of the token without a `:`.
   */
  function TokenName(tok: Token): (name: string)
    ensures name <= tok
    ensures ':' !in name
    ensures name == tok || tok[|name|] == ':'
  {
    var idx := IndexByte(tok, ':');
    if idx == -1 then tok else tok[..idx]
  }

  /** Taking the name of a name changes nothing. */
  lemma TokenNameIdempotent(tok: Token)
    ensures TokenName(TokenName(tok)) == TokenName(tok)
  {
  }

  /** `Token.Token`: the raw token, pattern suffix included, between braces. */
  function TokenPattern(tok: Token): (p: string)
    ensures |p| == |tok| + 2
    ensures p[0] == '{' && p[|p| - 1] == '}'
    ensures p[1..|p| - 1] == tok
  {
    "{" + tok + "}"
  }

  /**
    The placeholder names the parameter `Token.String` reports: inside the
    braces the name comes first, followed by the `:` of a match pattern or
    by the closing brace.
   */
  lemma PlaceholderNamesParameter(tok: Token)
    ensures var name, p := TokenName(tok), TokenPattern(tok);
      && p[1..|name| + 1] == name
      && (p[|name| + 1] == ':' || (p[|name| + 1] == '}' && name == tok))
  {
    var name, p := TokenName(tok), TokenPattern(tok);
    assert p[1..|name| + 1] == tok[..|name|];
  }

  /**
    An element passed to `Join`: a `Token`, a plain string, or any other
    value, given as the text its `String` method or `%v` produces.
   */
  datatype Element = TokenE(tok: Token) | StrE(s: string) | Rendered(text: string)

  /**
    How `Join` turns an element into text. The `Token` case comes before the
    `fmt.Stringer` case in the type switch, so a token contributes its
    `{...}` placeholder, not its name.
   */
  function RenderElement(e: Element): (text: string)
    ensures e.TokenE? ==> text == TokenPattern(e.tok)
    ensures e.StrE? ==> text == e.s
    ensures e.Rendered? ==> text == e.text
  {
    match e
    case TokenE(tok) => TokenPattern(tok)
    case StrE(s) => s
    case Rendered(text) => text
  }

  function RenderAll(es: seq<Element>): (rs: seq<string>)
    ensures |rs| == |es|
    ensures forall i :: 0 <= i < |es| ==> rs[i] == RenderElement(es[i])
  {
    if es == [] then [] else [RenderElement(es[0])] + RenderAll(es[1..])
  }

  lemma RenderAllAppend(a: seq<Element>, b: seq<Element>)
    ensures RenderAll(a + b) == RenderAll(a) + RenderAll(b)
  {
    var l, r := RenderAll(a + b), RenderAll(a) + RenderAll(b);
    assert |l| == |r|;
    forall i | 0 <= i < |l|
      ensures l[i] == r[i]
    {
      if i < |a| {
        assert (a + b)[i] == a[i];
      } else {
        assert (a + b)[i] == b[i - |a|];
      }
    }
  }

  /**
    `strings.Join`: the elements with `sep` between neighbours; "" for no
    elements. The result starts with the first element and is one separator
    per gap longer than the elements together.
   */
  function StringsJoin(elems: seq<string>, sep: string): (r: string)
    ensures |elems| == 0 ==> r == ""
    ensures |elems| > 0 ==> |r| == TotalLength(elems) + (|elems| - 1) * |sep|
    ensures |elems| > 0 ==> elems[0] <= r
  {
    if |elems| == 0 then ""
    else if |elems| == 1 then elems[0]
    else StringsJoin(elems[..|elems| - 1], sep) + sep + elems[|elems| - 1]
  }

  /**
    `Join`: the rendered elements joined with `sep`, after a first empty
    element the source puts in the slice, so that a non-empty result starts
    with `sep`. No elements give "".
   */
  function Join(sep: string, es: seq<Element>): (path: string)
    ensures es == [] ==> path == ""
    ensures es != [] ==> sep <= path
    ensures |path| == |es| * |sep| + TotalLength(RenderAll(es))
  {
    var rs := RenderAll(es);
    JoinedIsPrefixed(rs, sep);
    PrefixedLength(rs, sep);
    PrefixedStartsWithSep(rs, sep);
    StringsJoin([""] + rs, sep)
  }

  /** `Pattern`: `Join` with "/" as separator, so every non-empty pattern starts with "/". */
  function Pattern(es: seq<Element>): (path: string)
    ensures es == [] ==> path == ""
    ensures es != [] ==> |path| >= 1 && path[0] == '/'
  {
    Join("/", es)
  }

  // ---------------------------------------------------------------------
  // A separator-first view of the joined path

  /** Each text preceded by `sep`, concatenated. */
  function Prefixed(sep: string, rs: seq<string>): string
  {
    if rs == [] then "" else Prefixed(sep, rs[..|rs| - 1]) + sep + rs[|rs| - 1]
  }

  /** The total length of the texts. */
  function TotalLength(rs: seq<string>): nat
  {
    if rs == [] then 0 else TotalLength(rs[..|rs| - 1]) + |rs[|rs| - 1]|
  }

  /** Joining after a leading empty element is the separator-first concatenation. */
  lemma {:induction false} JoinedIsPrefixed(rs: seq<string>, sep: string)
    ensures StringsJoin([""] + rs, sep) == Prefixed(sep, rs)
    decreases |rs|
  {
    if rs != [] {
      var front := rs[..|rs| - 1];
      assert ([""] + rs)[..|rs|] == [""] + front;
      JoinedIsPrefixed(front, sep);
    }
  }

  lemma {:induction false} PrefixedLength(rs: seq<string>, sep: string)
    ensures |Prefixed(sep, rs)| == |rs| * |sep| + TotalLength(rs)
    decreases |rs|
  {
    if rs != [] {
      PrefixedLength(rs[..|rs| - 1], sep);
      assert |rs| * |sep| == (|rs| - 1) * |sep| + |sep|;
    }
  }

  lemma {:induction false} PrefixedStartsWithSep(rs: seq<string>, sep: string)
    ensures rs != [] ==> sep <= Prefixed(sep, rs)
    decreases |rs|
  {
    if |rs| > 1 {
      PrefixedStartsWithSep(rs[..|rs| - 1], sep);
    }
  }

  lemma {:induction false} PrefixedAppend(sep: string, a: seq<string>, b: seq<string>)
    ensures Prefixed(sep, a + b) == Prefixed(sep, a) + Prefixed(sep, b)
    decreases |b|
  {
    if b == [] {
      assert a + b == a;
    } else {
      var front := b[..|b| - 1];
      assert (a + b)[..|a + b| - 1] == a + front;
      PrefixedAppend(sep, a, front);
    }
  }

  /**
    `Join` distributes over concatenation of the element list: joining
    `a + b` is joining `a` followed by joining `b`, each element contributing
    the separator and then its text.
   */
  lemma JoinAppend(sep: string, a: seq<Element>, b: seq<Element>)
    ensures Join(sep, a + b) == Join(sep, a) + Join(sep, b)
  {
    var ra, rb := RenderAll(a), RenderAll(b);
    RenderAllAppend(a, b);
    JoinedIsPrefixed(ra + rb, sep);
    JoinedIsPrefixed(ra, sep);
    JoinedIsPrefixed(rb, sep);
    PrefixedAppend(sep, ra, rb);
  }

  /** A single element joins to the separator then its text; a token gives its braced placeholder. */
  lemma JoinSingle(sep: string, e: Element)
    ensures Join(sep, [e]) == sep + RenderElement(e)
    ensures e.TokenE? ==> Join(sep, [e]) == sep + "{" + e.tok + "}"
  {
    JoinedIsPrefixed(RenderAll([e]), sep);
    assert RenderAll([e])[..0] == [];
  }
}
