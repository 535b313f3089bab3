/** From tokens to HTML: `util.encode`, `stringify`, the editor's `escapeHTML` and `update`, and
    what the browser shows of the result. */
module PrismRender {
  import opened Wrappers
  import opened PrismTokens
  import opened PrismGrammar
  import PrismWalk

  const NBSP := '\U{00A0}'

  /** `s.replace(/c/g, sub)` for a single character. */
  function Replace(s: string, c: char, sub: string): string {
    if s == "" then "" else (if s[0] == c then sub else [s[0]]) + Replace(s[1..], c, sub)
  }

  /** The editor's escaping. */
  function EscapeHTML(s: string): string {
    Replace(Replace(s, '&', "&amp;"), '<', "&lt;")
  }

  /** The highlighter's escaping: the same, with no-break spaces made plain. */
  function EncodeText(s: string): string {
    Replace(EscapeHTML(s), NBSP, " ")
  }

  // The copy of a token is made without its matched string, so its length is 0.
  function Encode(p: Piece): Piece {
    match p
    case Text(s) => Text(EncodeText(s))
    case Token(kind, Leaf(s), alias, _) => Token(kind, Leaf(EncodeText(s)), alias, 0)
    case Token(kind, Nested(parts), alias, _) => Token(kind, Nested(EncodeAll(parts)), alias, 0)
  }

  function EncodeAll(ps: seq<Piece>): seq<Piece> {
    if ps == [] then [] else [Encode(ps[0])] + EncodeAll(ps[1..])
  }

  function Join(words: seq<string>): string {
    if words == [] then "" else " " + words[0] + Join(words[1..])
  }

  function OpenTag(kind: string, alias: seq<string>): string {
    "<" + ("span class=\"token" + Join([kind] + alias) + "\"") + ">"
  }

  const CLOSE_TAG := "<" + "/span" + ">"

  function Stringify(p: Piece): string {
    match p
    case Text(s) => s
    case Token(kind, Leaf(s), alias, _) => OpenTag(kind, alias) + s + CLOSE_TAG
    case Token(kind, Nested(parts), alias, _) => OpenTag(kind, alias) + StringifyAll(parts) + CLOSE_TAG
  }

  function StringifyAll(ps: seq<Piece>): string {
    if ps == [] then "" else Stringify(ps[0]) + StringifyAll(ps[1..])
  }

  function Highlight(rx: Oracle, code: string, g: Grammar): string
    requires InRange(rx)
  {
    StringifyAll(EncodeAll(PrismWalk.Tokenize(rx, code, g)))
  }

  // ----- what the browser shows

  // Where a reader stands in a tag: in its name, between attributes, in or behind the name of one,
  // before its value, in a value with or without quotes, or behind the '>' that ends the tag; or some
  // text has been seen behind it.
  datatype Spot = TagName | Between | AttrName | AfterName | BeforeValue | Quoted(mark: char) | Bare | Ended | Seen

  predicate Space(c: char) { c in " \t\n\r\U{000C}" }

  /** One character of a tag, as section 13.2.5 of the HTML standard reads it. Within quotes only
      the closing quote means anything. */
  function Read(at: Spot, c: char): Spot {
    match at
    case Quoted(mark) => if c == mark then Between else at
    case Ended => Ended
    case Seen => Seen
    case BeforeValue =>
      if Space(c) then at else if c == '"' || c == '\'' then Quoted(c) else if c == '>' then Ended else Bare
    case Bare => if Space(c) then Between else if c == '>' then Ended else Bare
    case _ =>
      if c == '>' then Ended
      else if c == '/' then Between
      else if Space(c) then (if at.AttrName? || at.AfterName? then AfterName else Between)
      else if c == '=' && (at.AttrName? || at.AfterName?) then BeforeValue
      else if at.TagName? then at else AttrName
  }

  function Scan(at: Spot, s: string): Spot
    decreases |s|
  {
    if s == "" then at else Scan(Read(at, s[0]), s[1..])
  }

  /** What follows the tag that `s` goes on with; nothing when it never ends. */
  function AfterTag(at: Spot, s: string): (r: string)
    ensures |r| <= |s|
    decreases |s|
  {
    if at.Ended? || s == "" then s else AfterTag(Read(at, s[0]), s[1..])
  }

  /** The text content of a piece of HTML: tags fall away, and each entity the two escapes
      introduce stands for its character. */
  function TextContent(s: string): string
    decreases |s|
  {
    if s == "" then ""
    else if s[0] == '<' then TextContent(AfterTag(TagName, s[1..]))
    else if "&amp;" <= s then "&" + TextContent(s[5..])
    else if "&lt;" <= s then "<" + TextContent(s[4..])
    else [s[0]] + TextContent(s[1..])
  }

  // ----- the text survives

  lemma {:induction false} ReplaceConcat(a: string, b: string, c: char, sub: string)
    ensures Replace(a + b, c, sub) == Replace(a, c, sub) + Replace(b, c, sub)
  {
    if a == "" {
      assert a + b == b;
    } else {
      assert (a + b)[1..] == a[1..] + b;
      ReplaceConcat(a[1..], b, c, sub);
    }
  }

  function EscapeChar(c: char): string {
    if c == '&' then "&amp;" else if c == '<' then "&lt;" else [c]
  }

  function EncodeChar(c: char): string {
    if c == NBSP then " " else EscapeChar(c)
  }

  lemma {:induction false} ReplaceAbsent(s: string, c: char, sub: string)
    requires c !in s
    ensures Replace(s, c, sub) == s
  {
    if s != "" {
      ReplaceAbsent(s[1..], c, sub);
    }
  }

  lemma ReplaceOne(x: char, c: char, sub: string)
    ensures Replace([x], c, sub) == if x == c then sub else [x]
  {
    assert [x][1..] == "";
  }

  lemma EscapeOne(c: char)
    ensures EscapeHTML([c]) == EscapeChar(c)
    ensures EncodeText([c]) == EncodeChar(c)
  {
    hide Replace;
    ReplaceAbsent("&amp;", '<', "&lt;");
    ReplaceAbsent("&amp;", NBSP, " ");
    ReplaceAbsent("&lt;", NBSP, " ");
    ReplaceOne(c, '&', "&amp;");
    ReplaceOne(c, '<', "&lt;");
    ReplaceOne(c, NBSP, " ");
  }

  lemma EncodeConcat(a: string, b: string)
    ensures EscapeHTML(a + b) == EscapeHTML(a) + EscapeHTML(b)
    ensures EncodeText(a + b) == EncodeText(a) + EncodeText(b)
  {
    ReplaceConcat(a, b, '&', "&amp;");
    ReplaceConcat(Replace(a, '&', "&amp;"), Replace(b, '&', "&amp;"), '<', "&lt;");
    ReplaceConcat(EscapeHTML(a), EscapeHTML(b), NBSP, " ");
  }

  lemma EscapedCharShown(c: char, rest: string)
    ensures TextContent(EscapeChar(c) + rest) == [c] + TextContent(rest)
  {
    var s := EscapeChar(c) + rest;
    if c == '&' {
      assert s[5..] == rest;
    } else if c == '<' {
      assert s[4..] == rest;
    } else {
      assert s[1..] == rest;
    }
  }

  /** No-break spaces are the only characters the highlighter changes. */
  function Spaced(s: string): string {
    Replace(s, NBSP, " ")
  }

  lemma EscapeSplit(s: string)
    requires s != ""
    ensures EscapeHTML(s) == EscapeChar(s[0]) + EscapeHTML(s[1..])
    ensures EncodeText(s) == EncodeChar(s[0]) + EncodeText(s[1..])
  {
    assert s == [s[0]] + s[1..];
    EncodeConcat([s[0]], s[1..]);
    EscapeOne(s[0]);
  }

  lemma Assoc(a: string, b: string, c: string)
    ensures a + b + c == a + (b + c)
  {
  }

  /** What the editor escapes is shown exactly as it was. */
  lemma {:induction false} EscapedTextShown(s: string, rest: string)
    ensures TextContent(EscapeHTML(s) + rest) == s + TextContent(rest)
  {
    hide TextContent;
    if s == "" {
      assert EscapeHTML(s) + rest == rest;
    } else {
      EscapeSplit(s);
      EscapedTextShown(s[1..], rest);
      EscapedCharShown(s[0], EscapeHTML(s[1..]) + rest);
      Assoc(EscapeChar(s[0]), EscapeHTML(s[1..]), rest);
      Assoc([s[0]], s[1..], TextContent(rest));
      assert s == [s[0]] + s[1..];
    }
  }

  lemma {:induction false} EncodedTextShown(s: string, rest: string)
    ensures TextContent(EncodeText(s) + rest) == Spaced(s) + TextContent(rest)
  {
    hide TextContent;
    if s == "" {
      assert EncodeText(s) + rest == rest;
    } else {
      var c := if s[0] == NBSP then ' ' else s[0];
      EscapeSplit(s);
      EncodedTextShown(s[1..], rest);
      EscapedCharShown(c, EncodeText(s[1..]) + rest);
      Assoc(EscapeChar(c), EncodeText(s[1..]), rest);
      Assoc([c], Spaced(s[1..]), TextContent(rest));
    }
  }

  /** The class attribute for these words stays within its quotes: no '"' in them lets a '>' end the
      tag or a value go on behind it. */
  predicate Contained(words: seq<string>) {
    var at := Scan(Quoted('"'), Join(words));
    !at.Ended? && !at.BeforeValue? && (at.Quoted? ==> at.mark == '"')
  }

  lemma {:induction false} ScanConcat(at: Spot, a: string, b: string)
    ensures Scan(at, a + b) == Scan(Scan(at, a), b)
    decreases |a|
  {
    hide Read;
    if a == "" {
      assert a + b == b;
    } else {
      assert (a + b)[1..] == a[1..] + b;
      ScanConcat(Read(at, a[0]), a[1..], b);
    }
  }

  lemma ScanNothing(at: Spot)
    ensures Scan(at, "") == at
  {
  }

  lemma {:induction false} ScanEnded(s: string)
    ensures Scan(Ended, s) == Ended
    decreases |s|
  {
    if s != "" {
      ScanEnded(s[1..]);
    }
  }

  /** A tag that ends at its last character and not before is left behind whole. */
  lemma {:induction false} TagLeft(at: Spot, body: string, rest: string)
    requires !Scan(at, body).Ended? && Scan(at, body + ">").Ended?
    ensures AfterTag(at, body + ">" + rest) == rest
    decreases |body|
  {
    var s := body + ">" + rest;
    if body == "" {
      assert s[1..] == rest && (body + ">")[1..] == "";
    } else {
      ScanNot(at, body);
      assert s[1..] == body[1..] + ">" + rest && (body + ">")[1..] == body[1..] + ">";
      TagLeft(Read(at, s[0]), body[1..], rest);
    }
  }

  lemma ScanNot(at: Spot, s: string)
    requires !Scan(at, s).Ended?
    ensures !at.Ended?
  {
    ScanEnded(s);
  }

  /** A tag that ends before its last character leaves more than what follows it behind. */
  lemma {:induction false} TagCutShort(at: Spot, body: string, rest: string)
    requires Scan(at, body).Ended?
    ensures |AfterTag(at, body + ">" + rest)| > |rest|
    decreases |body|
  {
    var s := body + ">" + rest;
    if !at.Ended? {
      assert s[1..] == body[1..] + ">" + rest;
      TagCutShort(Read(at, s[0]), body[1..], rest);
    }
  }

  /** A tag that does not end leaves nothing behind. */
  lemma {:induction false} TagEndless(at: Spot, s: string)
    requires !Scan(at, s).Ended?
    ensures AfterTag(at, s) == ""
    decreases |s|
  {
    ScanNot(at, s);
    if s != "" {
      TagEndless(Read(at, s[0]), s[1..]);
    }
  }

  lemma TagHidden(body: string, rest: string)
    requires !Scan(TagName, body).Ended? && Scan(TagName, body + ">").Ended?
    ensures TextContent("<" + body + ">" + rest) == TextContent(rest)
  {
    var s := "<" + body + ">" + rest;
    assert s[1..] == body + ">" + rest;
    TagLeft(TagName, body, rest);
  }

  lemma ScanOne(at: Spot, c: char)
    ensures Scan(at, [c]) == Read(at, c)
  {
    assert [c][1..] == "";
  }

  lemma {:induction false} ScanLetters(at: Spot, s: string)
    requires at.TagName? || at.AttrName? || at == Quoted('"')
    requires forall k | 0 <= k < |s| :: 'a' <= s[k] <= 'z'
    ensures Scan(at, s) == at
    decreases |s|
  {
    if s != "" {
      assert Read(at, s[0]) == at;
      ScanLetters(at, s[1..]);
    }
  }

  /** Letters, and then one character more. */
  lemma ScanWord(at: Spot, word: string, c: char, rest: string)
    requires at.TagName? || at.AttrName? || at == Quoted('"')
    requires forall k | 0 <= k < |word| :: 'a' <= word[k] <= 'z'
    ensures Scan(at, word + ([c] + rest)) == Scan(Read(at, c), rest)
  {
    hide Read;
    ScanLetters(at, word);
    ScanConcat(at, word, [c] + rest);
    ScanConcat(at, [c], rest);
    ScanOne(at, c);
  }

  lemma ValueBegins(rest: string)
    ensures Scan(BeforeValue, ['"'] + ("token" + rest)) == Scan(Quoted('"'), rest)
  {
    hide Scan, Read;
    ScanConcat(BeforeValue, ['"'], "token" + rest);
    ScanOne(BeforeValue, '"');
    assert Read(BeforeValue, '"') == Quoted('"') by {
      QuoteOpens();
    }
    ScanLetters(Quoted('"'), "token");
    ScanConcat(Quoted('"'), "token", rest);
  }

  lemma QuoteOpens()
    ensures Read(BeforeValue, '"') == Quoted('"') && Read(TagName, ' ') == Between
    ensures Read(Between, 'c') == AttrName && Read(AttrName, '=') == BeforeValue
  {
  }

  lemma AttributeBegins(value: string)
    ensures Scan(Between, ['c'] + ("lass" + (['='] + value))) == Scan(BeforeValue, value)
  {
    hide Scan, Read;
    QuoteOpens();
    ScanConcat(Between, ['c'], "lass" + (['='] + value));
    ScanOne(Between, 'c');
    ScanWord(AttrName, "lass", '=', value);
  }

  /** Reading up to the first word of the class attribute. */
  lemma ClassBegins(rest: string)
    ensures Scan(TagName, "span class=\"token" + rest) == Scan(Quoted('"'), rest)
  {
    hide Scan, Read;
    QuoteOpens();
    var value := ['"'] + ("token" + rest);
    ValueBegins(rest);
    AttributeBegins(value);
    ScanWord(TagName, "span", ' ', ['c'] + ("lass" + (['='] + value)));
    Spelled(rest);
  }

  lemma Spelled(rest: string)
    ensures "span class=\"token" + rest
            == "span" + ([' '] + (['c'] + ("lass" + (['='] + (['"'] + ("token" + rest))))))
  {
    assert "span class=\"token" == "span" + [' '] + ['c'] + "lass" + ['='] + ['"'] + "token";
  }

  function TagBody(words: seq<string>): string {
    "span class=\"token" + Join(words) + "\""
  }

  lemma TagBodyScanned(words: seq<string>)
    ensures var at := Scan(Quoted('"'), Join(words));
            && Scan(TagName, TagBody(words)) == Read(at, '"')
            && Scan(TagName, TagBody(words) + ">") == Read(Read(at, '"'), '>')
  {
    hide Read;
    var text := Join(words);
    var at := Scan(Quoted('"'), text);
    ClassBegins(text + "\"");
    ClassBegins(text + ("\"" + ">"));
    assert TagBody(words) == "span class=\"token" + (text + "\"");
    assert TagBody(words) + ">" == "span class=\"token" + (text + ("\"" + ">"));
    ScanConcat(Quoted('"'), text, "\"");
    ScanConcat(Quoted('"'), text, "\"" + ">");
    ScanConcat(at, "\"", ">");
    ScanOne(at, '"');
    ScanOne(Read(at, '"'), '>');
  }

  lemma ClosingReads(at: Spot)
    requires !at.Seen?
    ensures Read(at, '"').Ended? <==> at.Ended?
    ensures Read(Read(at, '"'), '>').Ended? <==> !at.BeforeValue? && (at.Quoted? ==> at.mark == '"')
  {
  }

  /** The opening tag written for a token is the tag that is read, whatever follows, if and only if
      its class attribute is contained. */
  lemma TagWholeIff(kind: string, alias: seq<string>)
    ensures Contained([kind] + alias)
            <==> forall rest :: AfterTag(TagName, (OpenTag(kind, alias) + rest)[1..]) == rest
  {
    hide Read, Join;
    var words := [kind] + alias;
    var body, at := TagBody(words), Scan(Quoted('"'), Join(words));
    TagBodyScanned(words);
    ScanNeverSeen(Quoted('"'), Join(words));
    ClosingReads(at);
    forall rest: string ensures (OpenTag(kind, alias) + rest)[1..] == body + ">" + rest {
    }
    if Contained(words) {
      forall rest ensures AfterTag(TagName, (OpenTag(kind, alias) + rest)[1..]) == rest {
        TagLeft(TagName, body, rest);
      }
    } else if at.Ended? {
      TagCutShort(TagName, body, "");
      assert AfterTag(TagName, (OpenTag(kind, alias) + "")[1..]) != "";
    } else {
      ScanConcat(TagName, body + ">", "x");
      ScanOne(Scan(TagName, body + ">"), 'x');
      XGoesOn(Scan(TagName, body + ">"));
      TagEndless(TagName, body + ">" + "x");
      assert AfterTag(TagName, (OpenTag(kind, alias) + "x")[1..]) != "x";
    }
  }

  lemma XGoesOn(at: Spot)
    requires !at.Ended?
    ensures !Read(at, 'x').Ended?
  {
  }

  // ----- what is shown of a tag

  /** One character of a tag or of what follows it: a '<' begins another tag, any other character is
      seen. */
  function ReadOn(at: Spot, c: char): Spot {
    if at.Ended? then (if c == '<' then TagName else Seen) else Read(at, c)
  }

  function ScanOn(at: Spot, s: string): Spot
    decreases |s|
  {
    if s == "" then at else ScanOn(ReadOn(at, s[0]), s[1..])
  }

  lemma {:induction false} ScanOnConcat(at: Spot, a: string, b: string)
    ensures ScanOn(at, a + b) == ScanOn(ScanOn(at, a), b)
    decreases |a|
  {
    hide ReadOn;
    if a == "" {
      assert a + b == b;
    } else {
      assert (a + b)[1..] == a[1..] + b;
      ScanOnConcat(ReadOn(at, a[0]), a[1..], b);
    }
  }

  /** As long as a tag has not ended, reading on is reading. */
  lemma {:induction false} ScanOnAlike(at: Spot, s: string)
    requires !Scan(at, s).Ended?
    ensures ScanOn(at, s) == Scan(at, s)
    decreases |s|
  {
    if s != "" {
      ScanNot(at, s);
      ScanOnAlike(Read(at, s[0]), s[1..]);
    }
  }

  /** Nothing is seen of the class attribute for these words, nor of what follows it up to the end of
      the tag. */
  predicate Unseen(words: seq<string>) {
    var at := ScanOn(Quoted('"'), Join(words));
    !at.Ended? && !at.Seen? && !at.BeforeValue? && (at.Quoted? ==> at.mark == '"')
  }

  /** A contained attribute is not seen. */
  lemma ContainedUnseen(words: seq<string>)
    requires Contained(words)
    ensures Unseen(words)
  {
    hide Read;
    ScanOnAlike(Quoted('"'), Join(words));
    ScanNeverSeen(Quoted('"'), Join(words));
  }

  lemma {:induction false} ScanNeverSeen(at: Spot, s: string)
    requires !at.Seen?
    ensures !Scan(at, s).Seen?
    decreases |s|
  {
    if s != "" {
      ScanNeverSeen(Read(at, s[0]), s[1..]);
    }
  }

  /** The text content of what follows, seen from within a tag or behind it. */
  function TextFrom(at: Spot, s: string): string {
    TextContent(if at.Ended? then s else AfterTag(at, s))
  }

  lemma TextStep(at: Spot, s: string)
    requires s != "" && (at.Ended? ==> s[0] == '<')
    ensures TextFrom(at, s) == TextFrom(ReadOn(at, s[0]), s[1..])
  {
  }

  /** When reading comes to the end of a tag with nothing seen, what follows is shown as it is. */
  lemma {:induction false} NothingSeen(at: Spot, s: string, rest: string)
    requires ScanOn(at, s) == Ended
    ensures TextFrom(at, s + rest) == TextContent(rest)
    decreases |s|
  {
    hide Read, TextContent;
    if s == "" {
      assert s + rest == rest;
    } else {
      assert (s + rest)[1..] == s[1..] + rest;
      StaysSeen(ReadOn(at, s[0]), s[1..]);
      TextStep(at, s + rest);
      NothingSeen(ReadOn(at, s[0]), s[1..], rest);
    }
  }

  lemma {:induction false} StaysSeen(at: Spot, s: string)
    ensures at.Seen? ==> ScanOn(at, s) == Seen
    decreases |s|
  {
    if s != "" {
      StaysSeen(at, s[1..]);
    }
  }

  /** When something has been seen, something is shown, whatever follows. */
  lemma {:induction false} SomethingSeen(at: Spot, s: string, rest: string)
    requires !at.Seen? && ScanOn(at, s).Seen?
    ensures TextFrom(at, s + rest) != ""
    decreases |s|
  {
    assert (s + rest)[1..] == s[1..] + rest;
    if at.Ended? && s[0] != '<' {
      CharacterShown(s + rest);
    } else {
      TextStep(at, s + rest);
      SomethingSeen(ReadOn(at, s[0]), s[1..], rest);
    }
  }

  lemma CharacterShown(s: string)
    requires s != "" && s[0] != '<'
    ensures TextContent(s) != ""
  {
  }

  /** When reading stops within a tag, the tag swallows what follows. */
  lemma {:induction false} TagSwallows(at: Spot, s: string)
    requires !ScanOn(at, s).Ended? && !ScanOn(at, s).Seen?
    ensures TextFrom(at, s + "x") == ""
    decreases |s|
  {
    if s == "" {
      assert s + "x" == "x" && "x"[1..] == "";
      XGoesOn(at);
      assert TextContent("") == "";
    } else {
      assert (s + "x")[1..] == s[1..] + "x";
      StaysSeen(ReadOn(at, s[0]), s[1..]);
      TextStep(at, s + "x");
      TagSwallows(ReadOn(at, s[0]), s[1..]);
    }
  }

  /** Up to the first word of the class attribute there is no end of a tag. */
  lemma TagScannedOn(words: seq<string>)
    ensures ScanOn(TagName, TagBody(words) + ">") == Ended <==> Unseen(words)
    ensures ScanOn(TagName, TagBody(words) + ">").Seen? ==> !Unseen(words)
  {
    hide Read, Scan, ScanOn;
    var head, text := "span class=\"token", Join(words);
    ClassBegins("");
    assert head + "" == head;
    ScanNothing(Quoted('"'));
    ScanOnAlike(TagName, head);
    ScanOnConcat(TagName, head, text + "\">");
    ScanOnConcat(Quoted('"'), text, "\">");
    assert TagBody(words) + ">" == head + (text + "\">") by {
      assert "\"" + ">" == "\">";
    }
    ScanOnEnd(ScanOn(Quoted('"'), text));
  }

  lemma ScanOnEnd(at: Spot)
    ensures ScanOn(at, "\">") == Ended
            <==> !at.Ended? && !at.Seen? && !at.BeforeValue? && (at.Quoted? ==> at.mark == '"')
  {
    assert "\">"[1..] == ">" && ">"[1..] == "";
    assert ScanOn(at, "\">") == ScanOn(ReadOn(at, '"'), ">") == ScanOn(ReadOn(ReadOn(at, '"'), '>'), "");
  }

  lemma TagText(kind: string, alias: seq<string>, rest: string)
    ensures TextContent(OpenTag(kind, alias) + rest)
            == TextFrom(TagName, TagBody([kind] + alias) + ">" + rest)
  {
    var s := OpenTag(kind, alias) + rest;
    assert s[0] == '<' && s[1..] == TagBody([kind] + alias) + ">" + rest;
  }

  /** Nothing of an opening tag is shown, and nothing of what follows is lost to it, if and only if
      its class attribute is unseen. */
  lemma TagShownIff(kind: string, alias: seq<string>)
    ensures Unseen([kind] + alias)
            <==> forall rest :: TextContent(OpenTag(kind, alias) + rest) == TextContent(rest)
  {
    hide TextContent, Unseen, TextFrom, ScanOn, OpenTag;
    var words := [kind] + alias;
    var tag := TagBody(words) + ">";
    TagScannedOn(words);
    if Unseen(words) {
      forall rest ensures TextContent(OpenTag(kind, alias) + rest) == TextContent(rest) {
        OpenTagHidden(kind, alias, rest);
      }
    } else if ScanOn(TagName, tag).Seen? {
      TagText(kind, alias, "");
      SomethingSeen(TagName, tag, "");
      NoText();
      assert TextContent(OpenTag(kind, alias) + "") != TextContent("");
    } else {
      TagText(kind, alias, "x");
      TagSwallows(TagName, tag);
      NoText();
      assert TextContent(OpenTag(kind, alias) + "x") != TextContent("x");
    }
  }

  lemma NoText()
    ensures TextContent("") == "" && TextContent("x") == "x"
  {
    assert "x"[1..] == "";
  }

  lemma OpenTagHidden(kind: string, alias: seq<string>, rest: string)
    requires Unseen([kind] + alias)
    ensures TextContent(OpenTag(kind, alias) + rest) == TextContent(rest)
  {
    hide TextContent, Unseen, TextFrom, ScanOn, OpenTag;
    var words := [kind] + alias;
    TagScannedOn(words);
    TagText(kind, alias, rest);
    NothingSeen(TagName, TagBody(words) + ">", rest);
  }

  lemma {:induction false} ScanQuoted(s: string)
    requires '"' !in s
    ensures Scan(Quoted('"'), s) == Quoted('"')
    decreases |s|
  {
    if s != "" {
      ScanQuoted(s[1..]);
    }
  }

  lemma {:induction false} JoinPlain(words: seq<string>)
    requires forall w | w in words :: '"' !in w
    ensures '"' !in Join(words)
  {
    if words != [] {
      JoinPlain(words[1..]);
    }
  }

  /** Words without a '"' are contained; any other character may be in them. */
  lemma UnquotedContained(words: seq<string>)
    requires forall w | w in words :: '"' !in w
    ensures Contained(words)
  {
    JoinPlain(words);
    ScanQuoted(Join(words));
  }

  lemma CloseTagEnds()
    ensures !Scan(TagName, "/span").Ended? && Scan(TagName, "/span" + ">").Ended?
  {
    hide Scan;
    assert "/span" == ['/', 's'] + "pan" && "/span" + ">" == ['/', 's'] + ("pan" + (['>'] + ""));
    assert Scan(TagName, ['/', 's']) == AttrName by {
      ScanConcat(TagName, ['/'], ['s']);
      ScanOne(TagName, '/');
      ScanOne(Between, 's');
      assert ['/'] + ['s'] == ['/', 's'];
    }
    ScanConcat(TagName, ['/', 's'], "pan");
    ScanConcat(TagName, ['/', 's'], "pan" + (['>'] + ""));
    ScanLetters(AttrName, "pan");
    ScanWord(AttrName, "pan", '>', "");
    ScanNothing(Ended);
  }

  lemma CloseTagHidden(rest: string)
    ensures TextContent(CLOSE_TAG + rest) == TextContent(rest)
  {
    hide Scan;
    CloseTagEnds();
    TagHidden("/span", rest);
  }

  lemma NothingSpaced()
    ensures Spaced("") == ""
  {
  }

  lemma SpacedConcat(a: string, b: string)
    ensures Spaced(a + b) == Spaced(a) + Spaced(b)
  {
    ReplaceConcat(a, b, NBSP, " ");
  }

  lemma WrappedShown(kind: string, alias: seq<string>, inner: string, shown: string, rest: string)
    requires Unseen([kind] + alias)
    requires TextContent(inner + (CLOSE_TAG + rest)) == shown + TextContent(CLOSE_TAG + rest)
    ensures TextContent(OpenTag(kind, alias) + inner + CLOSE_TAG + rest) == shown + TextContent(rest)
  {
    hide TextContent, Unseen, OpenTag;
    var tag := OpenTag(kind, alias);
    assert tag + inner + CLOSE_TAG + rest == tag + (inner + (CLOSE_TAG + rest));
    OpenTagHidden(kind, alias, inner + (CLOSE_TAG + rest));
    CloseTagHidden(rest);
  }

  /** Of no token, at any depth, is the class attribute seen. */
  predicate Boxed(p: Piece) {
    p.Token? ==>
      && Unseen([p.kind] + p.alias)
      && (p.content.Nested? ==> forall q | q in p.content.parts :: Boxed(q))
  }

  lemma {:induction false} PieceShown(p: Piece, rest: string)
    requires Boxed(p)
    ensures TextContent(Stringify(Encode(p)) + rest) == Spaced(Flatten(p)) + TextContent(rest)
    decreases p, 1
  {
    hide TextContent, Unseen, OpenTag, EncodeText, Spaced;
    match p
    case Text(s) => EncodedTextShown(s, rest);
    case Token(kind, Leaf(s), alias, _) =>
      EncodedTextShown(s, CLOSE_TAG + rest);
      WrappedShown(kind, alias, EncodeText(s), Spaced(s), rest);
    case Token(kind, Nested(parts), alias, _) =>
      PiecesShown(parts, CLOSE_TAG + rest);
      WrappedShown(kind, alias, StringifyAll(EncodeAll(parts)), Spaced(FlattenAll(parts)), rest);
  }

  /** Rendering loses nothing: the text content of the HTML for a token stream is its text. */
  lemma {:induction false} PiecesShown(ps: seq<Piece>, rest: string)
    requires forall p | p in ps :: Boxed(p)
    ensures TextContent(StringifyAll(EncodeAll(ps)) + rest) == Spaced(FlattenAll(ps)) + TextContent(rest)
    decreases ps, 0
  {
    hide TextContent, Boxed, Stringify, Encode, Spaced;
    if ps == [] {
      NothingSpaced();
      assert StringifyAll(EncodeAll(ps)) + rest == rest;
    } else {
      var head, tail := Stringify(Encode(ps[0])), StringifyAll(EncodeAll(ps[1..]));
      assert EncodeAll(ps)[1..] == EncodeAll(ps[1..]);
      Assoc(head, tail, rest);
      PieceShown(ps[0], tail + rest);
      PiecesShown(ps[1..], rest);
      SpacedConcat(Flatten(ps[0]), FlattenAll(ps[1..]));
      Assoc(Spaced(Flatten(ps[0])), Spaced(FlattenAll(ps[1..])), TextContent(rest));
    }
  }

  /** No class attribute a grammar gives rise to is seen. */
  ghost predicate Clean(g: Grammar) {
    forall words | words in Words(g) :: Unseen(words)
  }

  /** A grammar whose names and aliases are free of '"' is clean. */
  lemma QuoteFreeClean(g: Grammar)
    requires forall words | words in Words(g) :: forall w | w in words :: '"' !in w
    ensures Clean(g)
  {
    hide Unseen;
    forall words | words in Words(g) ensures Unseen(words) {
      UnquotedContained(words);
      ContainedUnseen(words);
    }
  }

  lemma {:induction false} NamedBoxed(p: Piece, g: Grammar)
    requires Named(p, Words(g)) && Clean(g)
    ensures Boxed(p)
  {
    hide Unseen;
    if p.Token? && p.content.Nested? {
      forall q | q in p.content.parts ensures Boxed(q) {
        NamedBoxed(q, g);
      }
    }
  }

  /** Highlighting shows the code: all of it, in order, with no-break spaces made plain. */
  lemma HighlightShowsCode(rx: Oracle, code: string, g: Grammar)
    requires InRange(rx) && Clean(g)
    ensures TextContent(Highlight(rx, code, g)) == Spaced(code)
  {
    var ps, html := PrismWalk.Tokenize(rx, code, g), Highlight(rx, code, g);
    forall p | p in ps ensures Boxed(p) {
      var k :| 0 <= k < |ps| && ps[k] == p;
      assert Named(ps[k], Words(g));
      NamedBoxed(p, g);
    }
    PiecesShown(ps, "");
    assert html + "" == html && Spaced(code) + TextContent("") == Spaced(code);
  }

  // ----- the editor

  /** A text that ends with a line break gets a space behind it, so that the last line shows. */
  function Padded(text: string): string {
    if text != "" && text[|text| - 1] == '\n' then text + " " else text
  }

  /** It never ends with a line break, and loses nothing. */
  lemma PaddedEnds(text: string)
    ensures var p := Padded(text);
            && (p != "" ==> p[|p| - 1] != '\n')
            && (p == text || (p == text + " " && text != "" && text[|text| - 1] == '\n'))
  {
  }

  /** The HTML the editor's pane holds after an update: the escaped text, which the highlighter
      reads back as its code and, unless that is empty, replaces. Without a grammar for the
      language the code is only escaped. */
  function Update(rx: Oracle, text: string, g: Option<Grammar>): string
    requires InRange(rx)
  {
    var html := EscapeHTML(Padded(text));
    var code := TextContent(html);
    if code == "" then html
    else match g
      case None => EncodeText(code)
      case Some(grammar) => Highlight(rx, code, grammar)
  }

  /** The pane under the editor shows exactly what was typed, padded and with no-break spaces made
      plain. */
  lemma UpdateShowsText(rx: Oracle, text: string, g: Option<Grammar>)
    requires InRange(rx) && (g.Some? ==> Clean(g.value))
    ensures TextContent(Update(rx, text, g)) == Spaced(Padded(text))
  {
    var code := Padded(text);
    EscapedTextShown(code, "");
    assert EscapeHTML(code) + "" == EscapeHTML(code) && code + "" == code;
    if code != "" {
      match g
      case None =>
        EncodedTextShown(code, "");
        assert EncodeText(code) + "" == EncodeText(code) && Spaced(code) + "" == Spaced(code);
      case Some(grammar) =>
        HighlightShowsCode(rx, code, grammar);
    }
  }

  /** A quote and a '>' in an alias break out of the tag: the end of the attribute shows. */
  lemma QuoteInAliasShows()
    ensures !Contained(["k"] + ["\">"])
    ensures TextContent(OpenTag("k", ["\">"])) == "\">"
  {
    hide TextContent, Scan;
    var words, body := ["k"] + ["\">"], "span class=\"token k \"";
    assert Join(words) == " k " + "\">" by {
      assert words[1..] == ["\">"] && ["\">"][1..] == [];
      assert Join(["\">"]) == " \">";
    }
    assert OpenTag("k", ["\">"]) == "<" + body + ">" + "\">";
    KScanned();
    ScanConcat(Quoted('"'), " k ", "\">");
    ClassBegins(" k " + "\"");
    ClassBegins(" k " + "\">");
    ScanConcat(Quoted('"'), " k ", "\"");
    assert body == "span class=\"token" + (" k " + "\"");
    assert body + ">" == "span class=\"token" + (" k " + "\">");
    TagHidden(body, "\">");
    PlainShown();
  }

  lemma KScanned()
    ensures Scan(Quoted('"'), " k ") == Quoted('"')
    ensures Scan(Quoted('"'), "\"") == Between && Scan(Quoted('"'), "\">") == Ended
  {
    ScanQuoted(" k ");
    ScanOne(Quoted('"'), '"');
    ScanOne(Between, '>');
    ScanConcat(Quoted('"'), "\"", ">");
    assert "\"" + ">" == "\">";
  }

  lemma PlainShown()
    ensures TextContent("\">") == "\">"
  {
    assert "\">"[1..] == ">" && ">"[1..] == "";
    assert TextContent(">") == ">";
  }
}
