/** Reading the text typed into the edge box: `text.split(',')`, then
    `strip()` on each token, then unpacking into exactly two names. Python
    raises on any other token count; the explorer reports that and changes
    nothing. */
module Parsing {
  import opened Graphs

  datatype Parsed = Edge(u: Node, v: Node) | FormatError

  /** The characters Python's `str.isspace` accepts: what `str.strip()`
      with no argument removes from both ends. */
  const Whitespace: set<char> := {
    '\t', '\n', '\U{B}', '\U{C}', '\r', '\U{1C}', '\U{1D}', '\U{1E}', '\U{1F}', ' ',
    '\U{85}', '\U{A0}', '\U{1680}', '\U{2000}', '\U{2001}', '\U{2002}', '\U{2003}',
    '\U{2004}', '\U{2005}', '\U{2006}', '\U{2007}', '\U{2008}', '\U{2009}', '\U{200A}',
    '\U{2028}', '\U{2029}', '\U{202F}', '\U{205F}', '\U{3000}'
  }

  /** How many characters at the start of `s` are in `chars`. */
  function Leading(s: string, chars: set<char>): (n: nat)
    ensures n <= |s|
    ensures forall k :: 0 <= k < n ==> s[k] in chars
    ensures n < |s| ==> s[n] !in chars
  {
    if s != [] && s[0] in chars then 1 + Leading(s[1..], chars) else 0
  }

  /** How many characters at the end of `s` are in `chars`. */
  function Trailing(s: string, chars: set<char>): (n: nat)
    ensures n <= |s|
    ensures forall k :: |s| - n <= k < |s| ==> s[k] in chars
    ensures n < |s| ==> s[|s| - 1 - n] !in chars
  {
    if s != [] && s[|s| - 1] in chars then 1 + Trailing(s[..|s| - 1], chars) else 0
  }

  /** `s.strip(chars)`: `s` with the characters of `chars` cut off both
      ends, first from the left and then from what remains on the right;
      `s.strip()` is `Strip(s, Whitespace)`. */
  function Strip(s: string, chars: set<char>): (r: string)
    ensures r != [] ==> r[0] !in chars && r[|r| - 1] !in chars
  {
    var rest := s[Leading(s, chars)..];
    rest[..|rest| - Trailing(rest, chars)]
  }

  /** What `Strip` cuts off: the result is the piece of `s` that starts at
      offset `Leading(s, chars)`, and everything before and after that
      piece is in `chars`. */
  lemma StripCuts(s: string, chars: set<char>)
    ensures var i := Leading(s, chars);
            var r := Strip(s, chars);
            && i + |r| <= |s| && r == s[i..i + |r|]
            && (forall k :: 0 <= k < i ==> s[k] in chars)
            && (forall k :: i + |r| <= k < |s| ==> s[k] in chars)
  {
    var i := Leading(s, chars);
    var rest := s[i..];
    var r := Strip(s, chars);
    assert r == s[i..i + |r|];
    forall k | i + |r| <= k < |s| ensures s[k] in chars {
      assert s[k] == rest[k - i];
    }
  }

  /** A string with none of `chars` at either end is its own strip. */
  lemma StripNoop(s: string, chars: set<char>)
    requires s != [] ==> s[0] !in chars && s[|s| - 1] !in chars
    ensures Strip(s, chars) == s
  {
  }

  /** Stripping twice is stripping once. */
  lemma StripIdempotent(s: string, chars: set<char>)
    ensures Strip(Strip(s, chars), chars) == Strip(s, chars)
  {
    StripNoop(Strip(s, chars), chars);
  }

  function Count(s: string, c: char): nat {
    if s == [] then 0 else (if s[0] == c then 1 else 0) + Count(s[1..], c)
  }

  /** The inverse of splitting: the tokens with `sep` between them. */
  function Join(tokens: seq<string>, sep: char): string
    requires |tokens| >= 1
  {
    if |tokens| == 1 then tokens[0] else tokens[0] + [sep] + Join(tokens[1..], sep)
  }

  /** `s.split(sep)`: the maximal runs between separators, one more token
      than there are separators, empty tokens included. */
  function Split(s: string, sep: char): (r: seq<string>)
    ensures |r| == Count(s, sep) + 1
    ensures forall k :: 0 <= k < |r| ==> sep !in r[k]
    ensures Join(r, sep) == s
  {
    if s == [] then [[]]
    else
      var rest := Split(s[1..], sep);
      if s[0] == sep then
        assert s == [sep] + s[1..];
        [[]] + rest
      else
        var r := [[s[0]] + rest[0]] + rest[1..];
        assert r[1..] == rest[1..];
        assert Join(r, sep) == [s[0]] + Join(rest, sep);
        r
  }

  /** Splitting a join of separator-free tokens gives the tokens back. */
  lemma {:induction false} SplitJoin(tokens: seq<string>, sep: char)
    requires |tokens| >= 1
    requires forall k :: 0 <= k < |tokens| ==> sep !in tokens[k]
    ensures Split(Join(tokens, sep), sep) == tokens
  {
    if |tokens| == 1 {
      SplitWord(tokens[0], sep);
    } else {
      SplitJoin(tokens[1..], sep);
      SplitToken(tokens[0], sep, Join(tokens[1..], sep));
      assert [tokens[0]] + tokens[1..] == tokens;
    }
  }

  /** A string without the separator splits into itself alone. */
  lemma {:induction false} SplitWord(w: string, sep: char)
    requires sep !in w
    ensures Split(w, sep) == [w]
  {
    if w != [] {
      SplitWord(w[1..], sep);
      assert [w[0]] + w[1..] == w;
    }
  }

  /** A separator-free token followed by a separator splits off as the
      first token. */
  lemma {:induction false} SplitToken(w: string, sep: char, rest: string)
    requires sep !in w
    ensures Split(w + [sep] + rest, sep) == [w] + Split(rest, sep)
  {
    var s := w + [sep] + rest;
    if w != [] {
      assert s[0] == w[0] != sep;
      assert s[1..] == w[1..] + [sep] + rest;
      SplitToken(w[1..], sep, rest);
      var t := Split(s[1..], sep);
      assert t == [w[1..]] + Split(rest, sep);
      assert [w[0]] + w[1..] == w;
      assert Split(s, sep) == [w] + t[1..];
    } else {
      assert s == [sep] + rest;
      assert s[1..] == rest;
    }
  }

  /** The edge box's parse: split the text at every comma, strip each
      piece, and accept only when there are exactly two pieces. */
  function ParseEdge(text: string): (r: Parsed)
    ensures r.Edge? <==> Count(text, ',') == 1
  {
    var tokens := Split(text, ',');
    if |tokens| == 2 then Edge(Strip(tokens[0], Whitespace), Strip(tokens[1], Whitespace)) else FormatError
  }

  /** Text with exactly one comma always parses, to the two stripped sides;
      nothing rejects empty names or a self-loop. */
  lemma ParseEdgeSides(a: string, b: string)
    requires ',' !in a && ',' !in b
    ensures ParseEdge(a + [','] + b) == Edge(Strip(a, Whitespace), Strip(b, Whitespace))
  {
    SplitJoin([a, b], ',');
  }

  /** Writing two comma-free, already stripped names as `u,v` and parsing
      the text gives the names back. */
  lemma ParseEdgeRoundTrip(u: Node, v: Node)
    requires ',' !in u && ',' !in v && Strip(u, Whitespace) == u && Strip(v, Whitespace) == v
    ensures ParseEdge(u + "," + v) == Edge(u, v)
  {
    ParseEdgeSides(u, v);
  }
}
