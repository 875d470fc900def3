/**
 * The regular-expression builders of the syntax highlighter (src/util.ts).
 * Each builder hands a pattern string to the `RegExp` constructor; a regular
 * expression is modelled here by the pattern string handed to the constructor.
 * The constructor's own normalisation of `source` (escaping `/` and line
 * terminators) and its rejection of an invalid pattern are not modelled.
 */
module RegexSource {
  import opened Wrappers
  import opened JsString

  // ---------------------------------------------------------------------------
  // join(s, ...r)

  /** One alternative wrapped in a capturing group: `(${x.source})`. */
  function Group(r: string): string { "(" + r + ")" }

  function Groups(rs: seq<string>): (gs: seq<string>)
    ensures |gs| == |rs|
    ensures forall i :: 0 <= i < |rs| ==> gs[i] == Group(rs[i])
  {
    seq(|rs|, i requires 0 <= i < |rs| => Group(rs[i]))
  }

  /** `Array.prototype.join` with an `undefined` separator uses a comma. */
  function JoinSeparator(s: Option<string>): string {
    match s
    case None => ","
    case Some(sep) => sep
  }

  /** `join(s, r1, ..., rn)`: every operand in a group, the groups joined by `s`,
      and the whole in one more group. */
  function Join(s: Option<string>, rs: seq<string>): (r: string)
    ensures |r| >= 2 && r[0] == '(' && r[|r| - 1] == ')'
    ensures rs == [] ==> r == "()"
    ensures |rs| == 1 ==> r == "((" + rs[0] + "))"
  {
    "(" + ArrayJoin(Groups(rs), JoinSeparator(s)) + ")"
  }

  /** Operand `k` of `join` appears as its own group between the groups of the
      operands before it and after it, separated from each by `s`. */
  lemma JoinPlacesOperand(s: Option<string>, rs: seq<string>, k: nat)
    requires k < |rs|
    ensures var sep := JoinSeparator(s);
      Join(s, rs)
        == "(" + Leading(Groups(rs[..k]), sep) + Group(rs[k]) + Trailing(Groups(rs[k + 1..]), sep) + ")"
  {
    var sep := JoinSeparator(s);
    var gs := Groups(rs);
    JoinAround(gs, sep, k);
    assert gs[..k] == Groups(rs[..k]);
    assert gs[k + 1..] == Groups(rs[k + 1..]);
    var l, g, t := Leading(gs[..k], sep), gs[k], Trailing(gs[k + 1..], sep);
    var o, c := "(", ")";
    assert Join(s, rs) == o + (l + g + t) + c;
    ConcatAssoc(o, l + g, t);
    ConcatAssoc(o, l, g);
  }

  // ---------------------------------------------------------------------------
  // modify(m, x)

  /** `modify(m, x)`: the pattern in a group, followed by the modifier `m`. */
  function Modify(m: string, x: string): (r: string)
    ensures |r| == |x| + 2 + |m|
    ensures r[..|x| + 2] == Group(x) && r[|x| + 2..] == m
  {
    "(" + x + ")" + m
  }

  // ---------------------------------------------------------------------------
  // split(s)

  /** The characters the escaping replacement of `split` matches: ^ $ \ ( ) [ ] ? * + - . | */
  predicate IsMeta(c: char) {
    c in "^$\\()[]?*+-.|"
  }

  /** Each metacharacter prefixed by a backslash, every other character kept. */
  function Escape(x: string): (r: string)
    ensures |r| >= |x|
    ensures WellEscaped(r)
  {
    if x == [] then []
    else (if IsMeta(x[0]) then ['\\', x[0]] else [x[0]]) + Escape(x[1..])
  }

  /** A pattern in which every metacharacter is escaped and every backslash escapes one:
      the shape of what `Escape` produces. */
  predicate WellEscaped(y: string) {
    if y == [] then true
    else if y[0] == '\\' then |y| >= 2 && IsMeta(y[1]) && WellEscaped(y[2..])
    else !IsMeta(y[0]) && WellEscaped(y[1..])
  }

  /** The literal text a well-escaped pattern matches. */
  function Unescape(y: string): string {
    if y == [] then []
    else if y[0] == '\\' && |y| >= 2 then [y[1]] + Unescape(y[2..])
    else [y[0]] + Unescape(y[1..])
  }

  /** Escaping loses nothing: unescaping gives back the text. */
  lemma {:induction false} UnescapeEscape(x: string)
    ensures Unescape(Escape(x)) == x
  {
    if x != [] {
      var e := Escape(x);
      var tail := Escape(x[1..]);
      UnescapeEscape(x[1..]);
      if IsMeta(x[0]) {
        assert e == ['\\', x[0]] + tail;
        assert e[2..] == tail;
      } else {
        assert e == [x[0]] + tail;
        assert e[1..] == tail;
      }
      assert x == [x[0]] + x[1..];
    }
  }

  /** Every well-escaped pattern is the escaping of the text it matches. */
  lemma {:induction false} EscapeUnescape(y: string)
    requires WellEscaped(y)
    ensures Escape(Unescape(y)) == y
    decreases |y|
  {
    if y != [] {
      if y[0] == '\\' {
        var u := Unescape(y[2..]);
        EscapeUnescape(y[2..]);
        assert Unescape(y) == [y[1]] + u;
        assert ([y[1]] + u)[1..] == u;
        assert y == [y[0], y[1]] + y[2..];
      } else {
        var u := Unescape(y[1..]);
        EscapeUnescape(y[1..]);
        assert Unescape(y) == [y[0]] + u;
        assert ([y[0]] + u)[1..] == u;
        assert y == [y[0]] + y[1..];
      }
    }
  }

  /** The characters `String.prototype.trim` removes: ECMAScript WhiteSpace
      (tab, vertical tab, form feed, the Zs space separators and the byte order mark)
      and LineTerminator (line feed, carriage return, U+2028, U+2029). */
  predicate IsJsWhitespace(c: char) {
    || c == '\t' || c == '\n' || c == '\U{000B}' || c == '\U{000C}' || c == '\r'
    || c == ' ' || c == '\U{00A0}' || c == '\U{1680}' || '\U{2000}' <= c <= '\U{200A}'
    || c == '\U{2028}' || c == '\U{2029}' || c == '\U{202F}' || c == '\U{205F}'
    || c == '\U{3000}' || c == '\U{FEFF}'
  }

  /** `trimStart`: the longest suffix that does not start with whitespace. */
  function TrimStart(s: string): (r: string)
    ensures |r| <= |s| && r == s[|s| - |r|..]
    ensures forall i :: 0 <= i < |s| - |r| ==> IsJsWhitespace(s[i])
    ensures r != [] ==> !IsJsWhitespace(r[0])
  {
    if s != [] && IsJsWhitespace(s[0]) then TrimStart(s[1..]) else s
  }

  /** `trimEnd`: the longest prefix that does not end with whitespace. */
  function TrimEnd(s: string): (r: string)
    ensures |r| <= |s| && r == s[..|r|]
    ensures forall i :: |r| <= i < |s| ==> IsJsWhitespace(s[i])
    ensures r != [] ==> !IsJsWhitespace(r[|r| - 1])
  {
    if s != [] && IsJsWhitespace(s[|s| - 1]) then TrimEnd(s[..|s| - 1]) else s
  }

  /** `trim` */
  function Trim(s: string): string {
    TrimEnd(TrimStart(s))
  }

  /** One space-separated word as it ends up among the alternatives: escaped, then trimmed. */
  function Alternative(x: string): string {
    Trim(Escape(x))
  }

  /** The escaped, trimmed words, with the empty ones filtered out. */
  function Alternatives(words: seq<string>): (r: seq<string>)
    ensures |r| <= |words|
  {
    if words == [] then []
    else
      var a := Alternative(words[0]);
      (if a != [] then [a] else []) + Alternatives(words[1..])
  }

  /** No alternative is empty, so `split` never yields a pattern with an empty branch. */
  lemma {:induction false} AlternativesNonEmpty(words: seq<string>)
    ensures forall i :: 0 <= i < |Alternatives(words)| ==> Alternatives(words)[i] != []
  {
    if words != [] {
      AlternativesNonEmpty(words[1..]);
    }
  }

  /** `split(s)`: the words of `s` between single spaces, as alternatives of one group. */
  function Split(s: string): string {
    "(" + ArrayJoin(Alternatives(StringSplit(s, ' ')), "|") + ")"
  }

  lemma {:induction false} AlternativesAppend(a: seq<string>, b: seq<string>)
    ensures Alternatives(a + b) == Alternatives(a) + Alternatives(b)
    decreases |a|
  {
    if a == [] {
      assert a + b == b;
    } else {
      var w := a[0];
      assert (a + b)[0] == w;
      assert (a + b)[1..] == a[1..] + b;
      AlternativesAppend(a[1..], b);
      var h: seq<string> := if Alternative(w) != [] then [Alternative(w)] else [];
      ConcatAssoc(h, Alternatives(a[1..]), Alternatives(b));
    }
  }

  /** A text made only of whitespace is left unchanged by escaping. */
  lemma {:induction false} EscapeBlank(x: string)
    requires forall i :: 0 <= i < |x| ==> IsJsWhitespace(x[i])
    ensures Escape(x) == x
  {
    if x != [] {
      var c, rest := x[0], x[1..];
      assert forall i :: 0 <= i < |rest| ==> rest[i] == x[i + 1];
      EscapeBlank(rest);
      WhitespaceIsNotMeta(c);
      assert x == [c] + rest;
    }
  }

  lemma WhitespaceIsNotMeta(c: char)
    requires IsJsWhitespace(c)
    ensures !IsMeta(c)
  {
  }

  /** A word made only of whitespace contributes no alternative. */
  lemma BlankAlternative(x: string)
    requires forall i :: 0 <= i < |x| ==> IsJsWhitespace(x[i])
    ensures Alternatives([x]) == []
  {
    EscapeBlank(x);
    var t := TrimStart(x);
    assert Alternative(x) == [];
    assert Alternatives([x]) == [] + Alternatives([]);
  }

  lemma {:induction false} BlankAlternatives(s: string)
    requires forall i :: 0 <= i < |s| ==> IsJsWhitespace(s[i])
    ensures Alternatives(StringSplit(s, ' ')) == []
    decreases |s|
  {
    var k := CharIndex(s, ' ');
    if k < 0 {
      BlankAlternative(s);
    } else {
      var first, rest := s[..k], s[k + 1..];
      BlankAlternative(first);
      BlankAlternatives(rest);
      AlternativesAppend([first], StringSplit(rest, ' '));
    }
  }

  /** A blank input (empty, or only spaces and other whitespace) gives the empty group. */
  lemma SplitBlank(s: string)
    requires forall i :: 0 <= i < |s| ==> IsJsWhitespace(s[i])
    ensures Split(s) == "()"
  {
    BlankAlternatives(s);
    assert ArrayJoin(Alternatives(StringSplit(s, ' ')), "|") == "";
  }

  /** The pieces around a doubled space: those of each side, with one empty piece between. */
  lemma SplitDoubleSpace(a: string, b: string)
    ensures StringSplit(a + "  " + b, ' ') == StringSplit(a, ' ') + [[]] + StringSplit(b, ' ')
  {
    var b1 := [' '] + b;
    assert a + "  " + b == a + [' '] + b1;
    SplitAround(a, b1, ' ');
    SplitAt(b1, ' ', 0);
    assert b1[..0] == [] && b1[1..] == b;
    var e: seq<string> := [[]];
    assert StringSplit(b1, ' ') == e + StringSplit(b, ' ');
    ConcatAssoc(StringSplit(a, ' '), e, StringSplit(b, ' '));
  }

  /** The pieces around a single space: those of each side. */
  lemma SplitSingleSpace(a: string, b: string)
    ensures StringSplit(a + " " + b, ' ') == StringSplit(a, ' ') + StringSplit(b, ' ')
  {
    assert a + " " + b == a + [' '] + b;
    SplitAround(a, b, ' ');
  }

  /** A run of spaces adds no empty alternative: two spaces split like one. */
  lemma RunsOfSpaces(a: string, b: string)
    ensures Alternatives(StringSplit(a + "  " + b, ' ')) == Alternatives(StringSplit(a + " " + b, ' '))
    ensures Split(a + "  " + b) == Split(a + " " + b)
  {
    SplitDoubleSpace(a, b);
    SplitSingleSpace(a, b);
    DropEmptyWord(StringSplit(a, ' '), StringSplit(b, ' '));
  }

  /** An empty word between two lists of words adds no alternative. */
  lemma DropEmptyWord(pa: seq<string>, pb: seq<string>)
    ensures Alternatives(pa + [[]] + pb) == Alternatives(pa + pb)
  {
    var e: seq<string> := [[]];
    BlankAlternative([]);
    AlternativesAppend(pa, e);
    assert Alternatives(pa + e) == Alternatives(pa);
    AlternativesAppend(pa + e, pb);
    AlternativesAppend(pa, pb);
  }

  /** Escaped words, each a word of the input. */
  function EscapeAll(words: seq<string>): (r: seq<string>)
    ensures |r| == |words|
    ensures forall i :: 0 <= i < |words| ==> r[i] == Escape(words[i])
  {
    seq(|words|, i requires 0 <= i < |words| => Escape(words[i]))
  }

  /** A word: non-empty and free of whitespace. */
  predicate IsWord(w: string) {
    w != [] && forall i :: 0 <= i < |w| ==> !IsJsWhitespace(w[i])
  }

  /** Escaping a word keeps it a word. */
  lemma {:induction false} EscapeWord(x: string)
    requires forall i :: 0 <= i < |x| ==> !IsJsWhitespace(x[i])
    ensures forall i :: 0 <= i < |Escape(x)| ==> !IsJsWhitespace(Escape(x)[i])
  {
    if x != [] {
      EscapeWord(x[1..]);
      assert !IsJsWhitespace('\\');
    }
  }

  lemma {:induction false} WordAlternatives(words: seq<string>)
    requires forall i :: 0 <= i < |words| ==> IsWord(words[i])
    ensures Alternatives(words) == EscapeAll(words)
  {
    if words != [] {
      var w := words[0];
      EscapeWord(w);
      var e := Escape(w);
      assert e != [];
      assert TrimStart(e) == e;
      assert TrimEnd(e) == e;
      WordAlternatives(words[1..]);
      assert EscapeAll(words) == [e] + EscapeAll(words[1..]);
    }
  }

  /** Words joined by single spaces become exactly one escaped alternative each, in order. */
  lemma SplitWords(words: seq<string>)
    requires |words| >= 1
    requires forall i :: 0 <= i < |words| ==> IsWord(words[i])
    ensures Split(ArrayJoin(words, " ")) == "(" + ArrayJoin(EscapeAll(words), "|") + ")"
  {
    forall i | 0 <= i < |words| ensures ' ' !in words[i] {
      assert IsWord(words[i]);
    }
    SplitJoin(words, ' ');
    WordAlternatives(words);
  }
}
