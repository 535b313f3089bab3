/** Reading the highlighted HTML back: a reader that returns the spans with the words of their class
    attribute, and what it finds in the HTML written for a token stream. */
module PrismSpans {
  import opened Wrappers
  import opened PrismTokens
  import opened PrismGrammar
  import PrismWalk
  import opened PrismRender

  // A piece of what a browser makes of HTML: text, or an element with the words of its class around
  // others.
  datatype Node = Run(s: string) | Span(classes: seq<string>, parts: seq<Node>)

  // ----- the reader

  /** The value of the class attribute of the tag that `s` goes on with. */
  function ClassOf(at: Spot, name: string, s: string): string
    decreases |s|
  {
    if s == "" || at.Ended? then ""
    else
      var next := Read(at, s[0]);
      if next.Quoted? && at.BeforeValue? && name == "class" then UpTo(s[1..], s[0])
      else if next.AttrName? then ClassOf(next, if at.AttrName? then name + [s[0]] else [s[0]], s[1..])
      else ClassOf(next, name, s[1..])
  }

  function UpTo(s: string, c: char): string {
    if s == "" || s[0] == c then "" else [s[0]] + UpTo(s[1..], c)
  }

  /** The words between white space. */
  function WordsOf(s: string): seq<string> {
    if s == "" then []
    else if Space(s[0]) then WordsOf(s[1..])
    else
      var rest := WordsOf(s[1..]);
      if |s| > 1 && !Space(s[1]) && rest != [] then [[s[0]] + rest[0]] + rest[1..] else [[s[0]]] + rest
  }

  /** Puts text in front of nodes: text next to text is one. */
  function Before(s: string, nodes: seq<Node>): seq<Node> {
    if s == "" then nodes
    else if nodes != [] && nodes[0].Run? then [Run(s + nodes[0].s)] + nodes[1..]
    else [Run(s)] + nodes
  }

  /** One character of text and how much of the HTML spells it. */
  function Character(s: string): (r: (char, nat))
    requires s != ""
    ensures 0 < r.1 <= |s|
  {
    if "&amp;" <= s then ('&', 5) else if "&lt;" <= s then ('<', 4) else (s[0], 1)
  }

  /** The nodes up to the end of the element, and what follows its closing tag. */
  function ReadNodes(s: string): (r: (seq<Node>, string))
    ensures |r.1| <= |s|
    decreases |s|
  {
    if s == "" then ([], "")
    else if "</" <= s then ([], AfterTag(TagName, s[1..]))
    else if s[0] == '<' then
      var (parts, rest) := ReadNodes(AfterTag(TagName, s[1..]));
      var (nodes, end) := ReadNodes(rest);
      ([Span(WordsOf(ClassOf(TagName, "", s[1..])), parts)] + nodes, end)
    else
      var (c, n) := Character(s);
      var (nodes, end) := ReadNodes(s[n..]);
      (Before([c], nodes), end)
  }

  // ----- what there is to find

  function Nonempty(words: seq<string>): seq<string> {
    if words == [] then [] else (if words[0] == "" then [] else [words[0]]) + Nonempty(words[1..])
  }

  /** The tree of a token stream, in front of other nodes. */
  function TreeOn(ps: seq<Piece>, nodes: seq<Node>): seq<Node>
    decreases ps, 0
  {
    if ps == [] then nodes else NodeOn(ps[0], TreeOn(ps[1..], nodes))
  }

  /** A plain piece is its text; a token a span with its kind and aliases as classes, around its
      content. */
  function NodeOn(p: Piece, nodes: seq<Node>): seq<Node>
    decreases p, 1
  {
    match p
    case Text(s) => Before(Spaced(s), nodes)
    case Token(kind, Leaf(s), alias, _) =>
      [Span(["token"] + Nonempty([kind] + alias), Before(Spaced(s), []))] + nodes
    case Token(kind, Nested(parts), alias, _) =>
      [Span(["token"] + Nonempty([kind] + alias), TreeOn(parts, []))] + nodes
  }

  /** Words that can be told apart in a class attribute: free of '"' and white space. */
  predicate Tidy(words: seq<string>) {
    forall w | w in words :: '"' !in w && forall c | c in w :: !Space(c)
  }

  lemma TidyRest(words: seq<string>)
    requires words != [] && Tidy(words)
    ensures Tidy(words[1..])
  {
    hide Space;
    forall w | w in words[1..] ensures '"' !in w && forall c | c in w :: !Space(c) {
      assert w in words;
    }
  }

  predicate TidyPiece(p: Piece) {
    p.Token? ==>
      && Tidy([p.kind] + p.alias)
      && (p.content.Nested? ==> forall q | q in p.content.parts :: TidyPiece(q))
  }

  // ----- text

  lemma BeforeTwice(a: string, b: string, nodes: seq<Node>)
    ensures Before(a, Before(b, nodes)) == Before(a + b, nodes)
  {
    if a == "" {
      assert a + b == b;
    } else if b == "" {
      assert a + b == a;
    } else if nodes != [] && nodes[0].Run? {
      assert a + (b + nodes[0].s) == a + b + nodes[0].s;
    }
  }

  lemma TextCharacter(s: string)
    requires s != "" && s[0] != '<'
    ensures var (c, n) := Character(s);
            ReadNodes(s) == (Before([c], ReadNodes(s[n..]).0), ReadNodes(s[n..]).1)
  {
    hide Before, Character, AfterTag;
  }

  lemma EscapedCharacter(c: char, rest: string)
    ensures var s := EscapeChar(c) + rest;
            s[0] != '<' && Character(s).0 == c && s[Character(s).1..] == rest
  {
    var s := EscapeChar(c) + rest;
    if c == '&' {
      assert s[5..] == rest;
    } else if c == '<' {
      assert s[1] == 'l' && s[4..] == rest;
    } else {
      assert s[1..] == rest;
    }
  }

  lemma CharacterRead(c: char, rest: string)
    ensures ReadNodes(EscapeChar(c) + rest) == (Before([c], ReadNodes(rest).0), ReadNodes(rest).1)
  {
    hide Before, Character, ReadNodes, EscapeChar;
    EscapedCharacter(c, rest);
    TextCharacter(EscapeChar(c) + rest);
  }

  lemma {:induction false} TextRead(s: string, rest: string)
    ensures ReadNodes(EncodeText(s) + rest) == (Before(Spaced(s), ReadNodes(rest).0), ReadNodes(rest).1)
  {
    hide ReadNodes, Before;
    if s == "" {
      NothingSpaced();
      assert EncodeText(s) + rest == rest by {
        NothingEncoded();
      }
      NothingBefore(ReadNodes(rest).0);
    } else {
      var c := if s[0] == NBSP then ' ' else s[0];
      EscapeSplit(s);
      TextRead(s[1..], rest);
      CharacterRead(c, EncodeText(s[1..]) + rest);
      Assoc(EscapeChar(c), EncodeText(s[1..]), rest);
      BeforeTwice([c], Spaced(s[1..]), ReadNodes(rest).0);
      assert Spaced(s) == [c] + Spaced(s[1..]);
    }
  }

  lemma NothingEncoded()
    ensures EncodeText("") == ""
  {
  }

  lemma NothingBefore(nodes: seq<Node>)
    ensures Before("", nodes) == nodes
  {
  }

  // ----- the class attribute

  lemma {:induction false} UpToQuote(s: string, rest: string)
    requires '"' !in s
    ensures UpTo(s + "\"" + rest, '"') == s
  {
    var t := s + "\"" + rest;
    if s != "" {
      assert t[1..] == s[1..] + "\"" + rest;
      UpToQuote(s[1..], rest);
    }
  }

  lemma {:induction false} NamePassed(at: Spot, name: string, word: string, rest: string)
    requires at.TagName? || at.AttrName?
    requires forall k | 0 <= k < |word| :: 'a' <= word[k] <= 'z'
    ensures ClassOf(at, name, word + rest) == ClassOf(at, if at.AttrName? then name + word else name, rest)
    decreases |word|
  {
    if word == "" {
      assert word + rest == rest && name + word == name;
    } else {
      assert (word + rest)[1..] == word[1..] + rest;
      assert Read(at, word[0]) == at;
      NamePassed(at, if at.AttrName? then name + [word[0]] else name, word[1..], rest);
      assert name + [word[0]] + word[1..] == name + word;
    }
  }

  lemma ClassStep(at: Spot, name: string, c: char, rest: string)
    requires !at.Ended?
    ensures var next := Read(at, c);
            ClassOf(at, name, [c] + rest)
            == if next.Quoted? && at.BeforeValue? && name == "class" then UpTo(rest, c)
               else if next.AttrName? then ClassOf(next, if at.AttrName? then name + [c] else [c], rest)
               else ClassOf(next, name, rest)
  {
    assert ([c] + rest)[1..] == rest;
  }

  /** The class attribute of a span is read up to its closing quote. */
  lemma ClassFound(value: string)
    ensures ClassOf(TagName, "", "span class=\"" + value) == UpTo(value, '"')
  {
    hide ClassOf, UpTo, Read;
    QuoteOpens();
    var quoted := ['"'] + value;
    var named := ['='] + quoted;
    var attribute := ['c'] + ("lass" + named);
    assert "span class=\"" + value == "span" + ([' '] + attribute) by {
      assert "span class=\"" == "span" + [' '] + ['c'] + "lass" + ['='] + ['"'];
    }
    NamePassed(TagName, "", "span", [' '] + attribute);
    ClassStep(TagName, "", ' ', attribute);
    ClassStep(Between, "", 'c', "lass" + named);
    NamePassed(AttrName, "c", "lass", named);
    assert ['c'] + "lass" == "class";
    ClassStep(AttrName, "class", '=', quoted);
    ClassStep(BeforeValue, "class", '"', value);
  }

  lemma SpaceOnly(s: string)
    ensures Space(' ') && WordsOf(" " + s) == WordsOf(s)
  {
    assert (" " + s)[1..] == s;
  }

  /** A word, followed by white space or the end. */
  lemma {:induction false} WordRead(w: string, rest: string)
    requires w != "" && (forall c | c in w :: !Space(c)) && (rest == "" || Space(rest[0]))
    ensures WordsOf(w + rest) == [w] + WordsOf(rest)
    decreases |w|
  {
    var s := w + rest;
    assert s[1..] == w[1..] + rest;
    assert s[0] == w[0] && w[0] in w;
    if |w| > 1 {
      assert s[1] == w[1] && w[1] in w;
      WordRead(w[1..], rest);
      assert [w[0]] + w[1..] == w;
      assert ([w[1..]] + WordsOf(rest))[1..] == WordsOf(rest);
    } else {
      assert [w[0]] == w && w[1..] + rest == rest;
    }
  }

  /** The words joined for the attribute are read back, empty ones apart. */
  lemma {:induction false} JoinedRead(words: seq<string>)
    requires Tidy(words)
    ensures WordsOf(Join(words)) == Nonempty(words)
    ensures Join(words) == "" || Space(Join(words)[0])
  {
    hide WordsOf, Space;
    if words == [] {
      NoWords();
    } else {
      var w, rest := words[0], Join(words[1..]);
      assert w in words;
      TidyRest(words);
      JoinedRead(words[1..]);
      SpaceOnly(w + rest);
      assert Join(words) == " " + (w + rest);
      if w == "" {
        assert w + rest == rest;
      } else {
        WordRead(w, rest);
      }
    }
  }

  lemma NoWords()
    ensures WordsOf("") == []
  {
  }

  lemma {:induction false} JoinedQuoteFree(words: seq<string>)
    requires Tidy(words)
    ensures '"' !in Join(words)
  {
    if words != [] {
      assert words[0] in words;
      TidyRest(words);
      JoinedQuoteFree(words[1..]);
    }
  }

  lemma TokenWordTidy()
    ensures forall c | c in "token" :: !Space(c)
  {
  }

  /** The opening tag of a token: its classes, and where the reader goes on. */
  lemma OpenTagRead(kind: string, alias: seq<string>, rest: string)
    requires Tidy([kind] + alias)
    ensures var s := OpenTag(kind, alias) + rest;
            && s[0] == '<' && !("</" <= s)
            && AfterTag(TagName, s[1..]) == rest
            && WordsOf(ClassOf(TagName, "", s[1..])) == ["token"] + Nonempty([kind] + alias)
  {
    hide ClassOf, WordsOf, UpTo, AfterTag, Space, Contained;
    var words := [kind] + alias;
    var s, text := OpenTag(kind, alias) + rest, "token" + Join(words);
    UnquotedContained(words);
    TagRead(kind, alias, rest);
    JoinedQuoteFree(words);
    JoinedRead(words);
    TokenWordTidy();
    WordRead("token", Join(words));
    ClassFound(text + "\"" + (">" + rest));
    UpToQuote(text, ">" + rest);
    TagSpelled(kind, alias, rest);
  }

  lemma TagSpelled(kind: string, alias: seq<string>, rest: string)
    ensures var s := OpenTag(kind, alias) + rest;
            && s[0] == '<' && s[1] == 's'
            && s[1..] == "span class=\"" + ("token" + Join([kind] + alias) + "\"" + (">" + rest))
  {
    hide Join;
    var text := Join([kind] + alias);
    assert OpenTag(kind, alias) == "<" + ("span class=\"" + ("token" + text + "\"")) + ">" by {
      assert "span class=\"token" == "span class=\"" + "token";
    }
  }

  lemma TagRead(kind: string, alias: seq<string>, rest: string)
    requires Contained([kind] + alias)
    ensures AfterTag(TagName, (OpenTag(kind, alias) + rest)[1..]) == rest
  {
    TagWholeIff(kind, alias);
  }

  // ----- the whole stream

  lemma CloseTagRead(rest: string)
    ensures ReadNodes(CLOSE_TAG + rest) == ([], rest)
  {
    hide AfterTag, Scan;
    var s := CLOSE_TAG + rest;
    assert s[1..] == "/span" + ">" + rest && s[..2] == "</";
    CloseTagEnds();
    TagLeft(TagName, "/span", rest);
  }

  lemma ElementRead(s: string)
    requires s != "" && s[0] == '<' && !("</" <= s)
    ensures var after := AfterTag(TagName, s[1..]);
            var inner := ReadNodes(after);
            var (nodes, end) := ReadNodes(inner.1);
            ReadNodes(s) == ([Span(WordsOf(ClassOf(TagName, "", s[1..])), inner.0)] + nodes, end)
  {
    hide AfterTag, WordsOf, ClassOf;
  }

  lemma SpanRead(kind: string, alias: seq<string>, inner: string, parts: seq<Node>, rest: string)
    requires Tidy([kind] + alias)
    requires ReadNodes(inner + (CLOSE_TAG + rest)) == (parts, rest)
    ensures ReadNodes(OpenTag(kind, alias) + inner + CLOSE_TAG + rest)
            == ([Span(["token"] + Nonempty([kind] + alias), parts)] + ReadNodes(rest).0, ReadNodes(rest).1)
  {
    hide AfterTag, ClassOf, WordsOf, Nonempty, Tidy, ReadNodes, OpenTag;
    var s := OpenTag(kind, alias) + (inner + (CLOSE_TAG + rest));
    OpenTagRead(kind, alias, inner + (CLOSE_TAG + rest));
    ElementRead(s);
    Assoc(OpenTag(kind, alias) + inner, CLOSE_TAG, rest);
    Assoc(OpenTag(kind, alias), inner, CLOSE_TAG + rest);
  }

  lemma {:induction false} PieceRead(p: Piece, rest: string)
    requires TidyPiece(p)
    ensures ReadNodes(Stringify(Encode(p)) + rest) == (NodeOn(p, ReadNodes(rest).0), ReadNodes(rest).1)
    decreases p, 1
  {
    hide ReadNodes, Before, OpenTag, EncodeText, Spaced, Tidy;
    match p
    case Text(s) => TextRead(s, rest);
    case Token(kind, Leaf(s), alias, _) =>
      CloseTagRead(rest);
      TextRead(s, CLOSE_TAG + rest);
      SpanRead(kind, alias, EncodeText(s), Before(Spaced(s), []), rest);
    case Token(kind, Nested(parts), alias, _) =>
      CloseTagRead(rest);
      PiecesRead(parts, CLOSE_TAG + rest);
      SpanRead(kind, alias, StringifyAll(EncodeAll(parts)), TreeOn(parts, []), rest);
  }

  /** Reading the HTML of a token stream gives back its tree: kinds, aliases and texts, at every
      depth. */
  lemma {:induction false} PiecesRead(ps: seq<Piece>, rest: string)
    requires forall p | p in ps :: TidyPiece(p)
    ensures ReadNodes(StringifyAll(EncodeAll(ps)) + rest) == (TreeOn(ps, ReadNodes(rest).0), ReadNodes(rest).1)
    decreases ps, 0
  {
    hide ReadNodes, TidyPiece, Stringify, Encode;
    if ps == [] {
      assert StringifyAll(EncodeAll(ps)) + rest == rest;
    } else {
      var head, tail := Stringify(Encode(ps[0])), StringifyAll(EncodeAll(ps[1..]));
      assert EncodeAll(ps)[1..] == EncodeAll(ps[1..]);
      Assoc(head, tail, rest);
      PieceRead(ps[0], tail + rest);
      PiecesRead(ps[1..], rest);
    }
  }

  /** A grammar whose names and aliases are tidy. */
  ghost predicate TidyGrammar(g: Grammar) {
    forall words | words in Words(g) :: Tidy(words)
  }

  lemma {:induction false} NamedTidy(p: Piece, g: Grammar)
    requires Named(p, Words(g)) && TidyGrammar(g)
    ensures TidyPiece(p)
  {
    hide Tidy;
    if p.Token? && p.content.Nested? {
      forall q | q in p.content.parts ensures TidyPiece(q) {
        NamedTidy(q, g);
      }
    }
  }

  /** Highlighting writes a span for every token, with its kind and aliases as classes, around its
      text, at every depth: the HTML reads as the tree of the tokens. */
  lemma HighlightReads(rx: Oracle, code: string, g: Grammar)
    requires InRange(rx) && TidyGrammar(g)
    ensures ReadNodes(Highlight(rx, code, g)) == (TreeOn(PrismWalk.Tokenize(rx, code, g), []), "")
  {
    hide ReadNodes;
    var ps, html := PrismWalk.Tokenize(rx, code, g), Highlight(rx, code, g);
    forall p | p in ps ensures TidyPiece(p) {
      var k :| 0 <= k < |ps| && ps[k] == p;
      assert Named(ps[k], Words(g));
      NamedTidy(p, g);
    }
    PiecesRead(ps, "");
    NothingRead();
    assert html + "" == html;
  }

  lemma NothingRead()
    ensures ReadNodes("") == ([], "")
  {
  }

  /** The editor's pane, after an update, reads as the tree of the tokens of what was typed; without
      a grammar, as one text. */
  lemma UpdateReads(rx: Oracle, text: string, g: Option<Grammar>)
    requires InRange(rx) && (g.Some? ==> TidyGrammar(g.value))
    ensures ReadNodes(Update(rx, text, g)).0
            == if g.Some? && Padded(text) != "" then TreeOn(PrismWalk.Tokenize(rx, Padded(text), g.value), [])
               else Before(Spaced(Padded(text)), [])
  {
    hide ReadNodes, Before, TextContent, TreeOn, TidyGrammar;
    var code := Padded(text);
    EscapedTextShown(code, "");
    NoText();
    assert EscapeHTML(code) + "" == EscapeHTML(code) && code + "" == code;
    if code == "" {
      NothingRead();
      NothingSpaced();
      NothingBefore([]);
      assert EscapeHTML("") == "";
    } else {
      match g
      case None =>
        TextRead(code, "");
        NothingRead();
        assert EncodeText(code) + "" == EncodeText(code);
      case Some(grammar) => HighlightReads(rx, code, grammar);
    }
  }
}
