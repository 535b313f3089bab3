/** Reading the JSON back: a reader that knows quotes, escapes, brackets, commas and colons, and what
    it finds in the text a log is written as. */
module LogJson {
  import opened Wrappers
  import opened Crc32
  import opened LogFormat
  import opened LogTheorems
  import opened LogFile

  // Where a reader stands: how deep in brackets, whether within quotes, and there behind a backslash.
  datatype At = At(depth: int, quoted: bool, escaped: bool)

  const OUTSIDE := At(0, false, false)

  function Read(at: At, c: char): At {
    if at.escaped then at.(escaped := false)
    else if at.quoted then
      if c == '\\' then at.(escaped := true) else if c == '"' then at.(quoted := false) else at
    else if c == '"' then at.(quoted := true)
    else if c == '{' || c == '[' then at.(depth := at.depth + 1)
    else if c == '}' || c == ']' then at.(depth := at.depth - 1)
    else at
  }

  function After(at: At, s: string): At
    decreases |s|
  {
    if s == "" then at else After(Read(at, s[0]), s[1..])
  }

  /** The text, read within brackets, closes the outermost of them with its last character and not
      before. */
  predicate Closes(at: At, s: string)
    decreases |s|
  {
    && s != "" && at.depth > 0
    && if |s| == 1 then Read(at, s[0]) == OUTSIDE else Closes(Read(at, s[0]), s[1..])
  }

  /** One value in brackets of a kind, and nothing around it. */
  predicate Bracketed(s: string, open: char, close: char) {
    && |s| >= 2 && s[0] == open && s[|s| - 1] == close
    && Closes(Read(OUTSIDE, s[0]), s[1..])
  }

  predicate IsObject(s: string) { Bracketed(s, '{', '}') }

  predicate IsArray(s: string) { Bracketed(s, '[', ']') }

  /** Cuts a text at the commas outside quotes and brackets. */
  function Parts(at: At, s: string): (parts: seq<string>)
    ensures |parts| >= 1
    decreases |s|
  {
    if s == "" then [""]
    else if s[0] == ',' && at == OUTSIDE then [""] + Parts(at, s[1..])
    else
      var rest := Parts(Read(at, s[0]), s[1..]);
      [[s[0]] + rest[0]] + rest[1..]
  }

  function Inner(s: string): string
    requires |s| >= 2
  {
    s[1..|s| - 1]
  }

  function Elements(s: string): seq<string>
    requires |s| >= 2
  {
    if Inner(s) == "" then [] else Parts(OUTSIDE, Inner(s))
  }

  /** Where the first colon outside quotes and brackets is, or the end. */
  function Colon(at: At, s: string): (k: nat)
    ensures k <= |s|
    decreases |s|
  {
    if s == "" || (s[0] == ':' && at == OUTSIDE) then 0 else 1 + Colon(Read(at, s[0]), s[1..])
  }

  function Trimmed(s: string): string {
    if s != "" && s[0] == ' ' then Trimmed(s[1..]) else s
  }

  /** The name, still in quotes, and the value of a member. */
  function Member(s: string): (string, string) {
    var k := Colon(OUTSIDE, s);
    (Trimmed(s[..k]), if k < |s| then Trimmed(s[k + 1..]) else "")
  }

  function MembersOf(parts: seq<string>): seq<(string, string)> {
    seq(|parts|, k requires 0 <= k < |parts| => Member(parts[k]))
  }

  function Members(s: string): seq<(string, string)>
    requires |s| >= 2
  {
    MembersOf(Elements(s))
  }

  // ----- reading texts put together

  lemma {:induction false} AfterConcat(at: At, a: string, b: string)
    ensures After(at, a + b) == After(After(at, a), b)
    decreases |a|
  {
    hide Read;
    if a == "" {
      assert a + b == b;
    } else {
      assert (a + b)[1..] == a[1..] + b;
      AfterConcat(Read(at, a[0]), a[1..], b);
    }
  }

  /** All of the text, its end included, is at least so deep. */
  predicate Above(at: At, s: string, depth: int)
    decreases |s|
  {
    at.depth >= depth && (s != "" ==> Above(Read(at, s[0]), s[1..], depth))
  }

  lemma {:induction false} AboveConcat(at: At, a: string, b: string, depth: int)
    ensures Above(at, a + b, depth) <==> Above(at, a, depth) && Above(After(at, a), b, depth)
    decreases |a|
  {
    hide Read;
    if a == "" {
      assert a + b == b;
    } else {
      assert (a + b)[1..] == a[1..] + b;
      AboveConcat(Read(at, a[0]), a[1..], b, depth);
    }
  }

  /** Every comma of the text is within quotes or brackets. */
  predicate Whole(at: At, s: string)
    decreases |s|
  {
    s != "" ==> !(s[0] == ',' && at == OUTSIDE) && Whole(Read(at, s[0]), s[1..])
  }

  lemma {:induction false} WholeConcat(at: At, a: string, b: string)
    ensures Whole(at, a + b) <==> Whole(at, a) && Whole(After(at, a), b)
    decreases |a|
  {
    hide Read;
    if a == "" {
      assert a + b == b;
    } else {
      assert (a + b)[1..] == a[1..] + b;
      WholeConcat(Read(at, a[0]), a[1..], b);
    }
  }

  /** A text that stays within brackets has no loose comma. */
  lemma {:induction false} AboveWhole(at: At, s: string)
    requires Above(at, s, 1)
    ensures Whole(at, s)
    decreases |s|
  {
    hide Read;
    if s != "" {
      AboveWhole(Read(at, s[0]), s[1..]);
    }
  }

  function Deeper(at: At, n: int): At { at.(depth := at.depth + n) }

  lemma ReadDeeper(at: At, c: char, n: int)
    ensures Read(Deeper(at, n), c) == Deeper(Read(at, c), n)
  {
  }

  /** Read deeper in brackets, a closing text stays one deeper than where it ends. */
  lemma {:induction false} ClosesDeeper(at: At, s: string, n: int)
    requires Closes(at, s)
    ensures After(Deeper(at, n), s) == Deeper(OUTSIDE, n)
    ensures Above(Deeper(at, n), s[..|s| - 1], n + 1)
    ensures Above(Deeper(at, n), s, n)
    decreases |s|
  {
    hide Read;
    ReadDeeper(at, s[0], n);
    if |s| == 1 {
      assert s[1..] == "" && s[..0] == "";
    } else {
      ClosesDeeper(Read(at, s[0]), s[1..], n);
      assert s[..|s| - 1][1..] == s[1..][..|s| - 2];
    }
  }

  /** A value in brackets, read anywhere outside quotes. */
  lemma BracketedRead(s: string, open: char, close: char, n: int)
    requires Bracketed(s, open, close) && n >= 0 && (open == '{' || open == '[')
    ensures After(At(n, false, false), s) == At(n, false, false)
    ensures Above(At(n, false, false), s, n)
    ensures Whole(At(n, false, false), s)
  {
    var at := At(n, false, false);
    var first := Read(OUTSIDE, s[0]);
    assert Read(at, s[0]) == Deeper(first, n);
    ClosesDeeper(first, s[1..], n);
    var body := s[1..][..|s| - 2];
    AboveLess(Deeper(first, n), body, n + 1, 1);
    AboveWhole(Deeper(first, n), body);
    assert s[1..] == body + [close];
    WholeConcat(Deeper(first, n), body, [close]);
    assert [close][1..] == "";
    if close == ',' {
      LastAbove(Deeper(first, n), body, n + 1);
    }
  }

  lemma {:induction false} AboveLess(at: At, s: string, d: int, e: int)
    requires Above(at, s, d) && e <= d
    ensures Above(at, s, e)
    decreases |s|
  {
    hide Read;
    if s != "" {
      AboveLess(Read(at, s[0]), s[1..], d, e);
    }
  }

  lemma {:induction false} LastAbove(at: At, s: string, d: int)
    requires Above(at, s, d)
    ensures After(at, s).depth >= d
    decreases |s|
  {
    hide Read;
    if s != "" {
      LastAbove(Read(at, s[0]), s[1..], d);
    }
  }

  lemma {:induction false} ClosesConcat(at: At, a: string, b: string)
    requires Above(at, a, 1) && Closes(After(at, a), b)
    ensures Closes(at, a + b)
    decreases |a|
  {
    hide Read;
    if a == "" {
      assert a + b == b;
    } else {
      assert (a + b)[1..] == a[1..] + b;
      ClosesConcat(Read(at, a[0]), a[1..], b);
    }
  }

  /** What ends outside, without a loose comma, is a part of its own. */
  predicate Part(s: string) {
    After(OUTSIDE, s) == OUTSIDE && Whole(OUTSIDE, s)
  }

  lemma {:induction false} PartsWhole(at: At, a: string, b: string)
    requires Whole(at, a)
    ensures var rest := Parts(After(at, a), b); Parts(at, a + b) == [a + rest[0]] + rest[1..]
    decreases |a|
  {
    hide Read;
    var rest := Parts(After(at, a), b);
    if a == "" {
      assert a + b == b && "" + rest[0] == rest[0];
    } else {
      assert (a + b)[1..] == a[1..] + b;
      PartsWhole(Read(at, a[0]), a[1..], b);
      FirstGrows(a, rest[0], rest[1..]);
    }
  }

  lemma FirstGrows(a: string, t: string, ts: seq<string>)
    requires a != ""
    ensures [[a[0]] + ([a[1..] + t] + ts)[0]] + ([a[1..] + t] + ts)[1..] == [a + t] + ts
  {
    assert ([a[1..] + t] + ts)[1..] == ts;
    assert [a[0]] + (a[1..] + t) == a + t;
  }

  lemma PartThen(a: string, b: string)
    requires Part(a)
    ensures Parts(OUTSIDE, a + ("," + b)) == [a] + Parts(OUTSIDE, b)
  {
    PartsWhole(OUTSIDE, a, "," + b);
    assert ("," + b)[1..] == b && a + "" == a;
  }

  lemma PartAlone(a: string)
    requires Part(a)
    ensures Parts(OUTSIDE, a) == [a]
  {
    PartsWhole(OUTSIDE, a, "");
    assert a + "" == a && Parts(OUTSIDE, "") == [""];
  }

  // ----- the records

  ghost predicate Objects(sp: Spelling) {
    (forall h :: IsObject(sp.header(h))) && (forall r :: IsObject(sp.record(r)))
  }

  function Spelled(sp: Spelling, rs: seq<Record>): seq<string> {
    if rs == [] then [] else [sp.record(rs[0])] + Spelled(sp, rs[1..])
  }

  lemma ObjectPart(s: string)
    requires IsObject(s) || IsArray(s)
    ensures Part(s)
  {
    if IsObject(s) {
      BracketedRead(s, '{', '}', 0);
    } else {
      BracketedRead(s, '[', ']', 0);
    }
  }

  lemma {:induction false} ListedParts(sp: Spelling, before: string, rs: seq<Record>)
    requires Objects(sp) && Part(before)
    ensures Parts(OUTSIDE, before + Listed(sp, rs, false)) == [before] + Spelled(sp, rs)
    decreases |rs|
  {
    hide IsObject, Parts, Part;
    if rs == [] {
      PartAlone(before);
      assert before + "" == before;
    } else {
      var r, rest := sp.record(rs[0]), Listed(sp, rs[1..], false);
      assert Listed(sp, rs, false) == "," + (r + rest);
      PartThen(before, r + rest);
      ObjectPart(r);
      ListedParts(sp, r, rs[1..]);
    }
  }

  /** The list of records leaves the reader as deep as it was, and never less deep. */
  lemma {:induction false} ListedRead(sp: Spelling, rs: seq<Record>, first: bool, n: int)
    requires Objects(sp) && n >= 0
    ensures var at := At(n, false, false);
            After(at, Listed(sp, rs, first)) == at && Above(at, Listed(sp, rs, first), n)
    decreases |rs|
  {
    hide IsObject;
    if rs != [] {
      var at := At(n, false, false);
      var comma, r, rest := if first then "" else ",", sp.record(rs[0]), Listed(sp, rs[1..], false);
      assert IsObject(r);
      ObjectRead(r, n);
      ListedRead(sp, rs[1..], false, n);
      CommaRead(first, n);
      AfterConcat(at, comma, r);
      AfterConcat(at, comma + r, rest);
      AboveConcat(at, comma, r, n);
      AboveConcat(at, comma + r, rest, n);
    }
  }

  lemma ObjectRead(s: string, n: int)
    requires IsObject(s) && n >= 0
    ensures After(At(n, false, false), s) == At(n, false, false) && Above(At(n, false, false), s, n)
  {
    BracketedRead(s, '{', '}', n);
  }

  lemma CommaRead(first: bool, n: int)
    ensures var at, comma := At(n, false, false), if first then "" else ",";
            After(at, comma) == at && Above(at, comma, n)
  {
    assert ","[1..] == "";
  }

  lemma CloseBracket()
    ensures Closes(At(1, false, false), "]") && Closes(At(1, false, false), "}")
  {
  }

  /** The array of the records: an array, whose elements are exactly the records as spelled. */
  lemma ArrayReads(sp: Spelling, rs: seq<Record>)
    requires Objects(sp)
    ensures var s := "[" + Listed(sp, rs, true) + "]";
            IsArray(s) && Elements(s) == Spelled(sp, rs)
  {
    hide Parts, IsObject, After, Above, Closes, Listed;
    var list := Listed(sp, rs, true);
    var s := "[" + list + "]";
    ListedRead(sp, rs, true, 1);
    CloseBracket();
    ClosesConcat(At(1, false, false), list, "]");
    assert s[1..] == list + "]" && Inner(s) == list;
    ListedIs(sp, rs);
    if rs != [] {
      ObjectPart(sp.record(rs[0]));
      ListedParts(sp, sp.record(rs[0]), rs[1..]);
    }
  }

  lemma ListedIs(sp: Spelling, rs: seq<Record>)
    requires Objects(sp)
    ensures if rs == [] then Listed(sp, rs, true) == ""
            else Listed(sp, rs, true) == sp.record(rs[0]) + Listed(sp, rs[1..], false) && Listed(sp, rs, true) != ""
  {
    if rs != [] {
      assert IsObject(sp.record(rs[0]));
      assert "" + sp.record(rs[0]) == sp.record(rs[0]);
    }
  }

  // ----- the whole text

  predicate Letters(s: string) {
    forall k | 0 <= k < |s| :: 'a' <= s[k] <= 'z'
  }

  function Name(word: string): string {
    "\"" + word + "\""
  }

  const INSIDE := At(0, true, false)

  lemma {:induction false} LettersRead(s: string)
    requires Letters(s)
    ensures After(INSIDE, s) == INSIDE && Whole(INSIDE, s) && Above(INSIDE, s, 0) && Colon(INSIDE, s) == |s|
  {
    if s != "" {
      LettersRead(s[1..]);
    }
  }

  lemma QuoteRead()
    ensures After(OUTSIDE, "\"") == INSIDE && Whole(OUTSIDE, "\"") && Colon(OUTSIDE, "\"") == 1
    ensures After(INSIDE, "\"") == OUTSIDE && Whole(INSIDE, "\"") && Colon(INSIDE, "\"") == 1
    ensures Above(OUTSIDE, "\"", 0) && Above(INSIDE, "\"", 0)
  {
    assert "\""[1..] == "";
  }

  lemma NameRead(word: string)
    requires Letters(word)
    ensures After(OUTSIDE, Name(word)) == OUTSIDE && Whole(OUTSIDE, Name(word))
    ensures Above(OUTSIDE, Name(word), 0) && Colon(OUTSIDE, Name(word)) == |Name(word)|
  {
    hide After, Whole, Above, Colon;
    AboveConcat(OUTSIDE, "\"", word, 0);
    AboveConcat(OUTSIDE, "\"" + word, "\"", 0);
    QuoteRead();
    LettersRead(word);
    AfterConcat(OUTSIDE, "\"", word);
    AfterConcat(OUTSIDE, "\"" + word, "\"");
    WholeConcat(OUTSIDE, "\"", word);
    WholeConcat(OUTSIDE, "\"" + word, "\"");
    ColonBehind(OUTSIDE, "\"", word);
    ColonBehind(OUTSIDE, "\"" + word, "\"");
  }

  lemma {:induction false} ColonBehind(at: At, a: string, b: string)
    requires Colon(at, a) == |a|
    ensures Colon(at, a + b) == |a| + Colon(After(at, a), b)
    decreases |a|
  {
    hide Read;
    if a == "" {
      assert a + b == b;
    } else {
      assert (a + b)[1..] == a[1..] + b;
      ColonBehind(Read(at, a[0]), a[1..], b);
    }
  }

  lemma ColonRead(s: string)
    ensures After(OUTSIDE, ": ") == OUTSIDE && Whole(OUTSIDE, ": ") && Above(OUTSIDE, ": ", 0)
    ensures Colon(OUTSIDE, ": " + s) == 0
  {
    assert ": "[1..] == " " && " "[1..] == "";
  }

  lemma TrimmedValue(value: string)
    requires value != "" && value[0] != ' '
    ensures Trimmed(" " + value) == value
  {
    assert (" " + value)[1..] == value;
  }

  lemma ValueAbove(value: string)
    requires IsObject(value) || IsArray(value)
    ensures Above(OUTSIDE, value, 0)
  {
    if IsObject(value) {
      BracketedRead(value, '{', '}', 0);
    } else {
      BracketedRead(value, '[', ']', 0);
    }
  }

  /** A name in quotes and a colon, in front of a value in brackets. */
  lemma MemberReads(word: string, value: string)
    requires Letters(word) && (IsObject(value) || IsArray(value))
    ensures var s := Name(word) + (": " + value);
            Part(s) && Above(OUTSIDE, s, 0) && Member(s) == (Name(word), value)
  {
    hide Closes, After, Whole, Above, Colon;
    var name, rest := Name(word), ": " + value;
    NameRead(word);
    ColonRead(value);
    ObjectPart(value);
    ValueAbove(value);
    AboveConcat(OUTSIDE, ": ", value, 0);
    AboveConcat(OUTSIDE, name, rest, 0);
    AfterConcat(OUTSIDE, ": ", value);
    AfterConcat(OUTSIDE, name, rest);
    WholeConcat(OUTSIDE, ": ", value);
    WholeConcat(OUTSIDE, name, rest);
    ColonBehind(OUTSIDE, name, rest);
    assert (name + rest)[..|name|] == name;
    assert (name + rest)[|name| + 1..] == " " + value;
    TrimmedValue(value);
  }

  /** The text within the braces: two members. */
  function Body(sp: Spelling, h: Header, rs: seq<Record>): string {
    Name("header") + (": " + sp.header(h)) + ("," + (Name("records") + (": " + ("[" + Listed(sp, rs, true) + "]"))))
  }

  lemma TextIs(sp: Spelling, bytes: Bytes)
    requires Log(bytes).Got? && !Log(bytes).value.2
    ensures var (h, rs, raised) := Log(bytes).value; JsonText(sp, bytes) == "{" + Body(sp, h, rs) + "}"
  {
    hide Log, Listed;
    var (h, rs, raised) := Log(bytes).value;
    Pasted(sp.header(h), Listed(sp, rs, true));
  }

  lemma Pasted(h: string, list: string)
    ensures "{\"header\": " + (h + ",\"records\": [" + list + "]}")
            == "{" + (Name("header") + (": " + h) + ("," + (Name("records") + (": " + ("[" + list + "]"))))) + "}"
  {
    var a, c := "{\"header\": ", ",\"records\": [";
    assert a == "{" + Name("header") + ": ";
    assert c == "," + Name("records") + ": " + "[";
    assert "]}" == "]" + "}";
    hide Name;
    var n, r := Name("header"), Name("records");
    var tail := ": " + ("[" + list + "]");
    assert c + list + "]" == "," + (r + tail);
    assert a + (h + c + list + "]}") == "{" + (n + (": " + h) + (c + list + "]")) + "}";
  }

  /** The text written when the conversion returns true is one object with exactly two members: the
      header as spelled, and an array whose elements are exactly the records as spelled, in order. */
  lemma JsonReads(sp: Spelling, bytes: Bytes)
    requires Objects(sp) && Result(bytes) == Returned(true)
    ensures IsObject(JsonText(sp, bytes)) && Log(bytes).Got?
    ensures var (h, rs, _) := Log(bytes).value;
            var members := Members(JsonText(sp, bytes));
            && |members| == 2
            && members[0] == ("\"header\"", sp.header(h))
            && members[1].0 == "\"records\""
            && IsArray(members[1].1) && Elements(members[1].1) == Spelled(sp, rs)
  {
    hide Log, IsObject, IsArray, Elements, Part, Parts, Listed, Member, Spelled, MembersOf, Above;
    var (h, rs, raised) := Log(bytes).value;
    var header, list := sp.header(h), "[" + Listed(sp, rs, true) + "]";
    var a, b := Name("header") + (": " + header), Name("records") + (": " + list);
    TextIs(sp, bytes);
    ArrayReads(sp, rs);
    MemberReads("header", header);
    MemberReads("records", list);
    assert Name("header") == "\"header\"" && Name("records") == "\"records\"";
    PartThen(a, b);
    PartAlone(b);
    TwoParts(a, b);
    ObjectOf(a + ("," + b));
    TwoMembers(a, b);
    assert [a] + [b] == [a, b];
  }

  lemma TwoMembers(a: string, b: string)
    ensures MembersOf([a, b]) == [Member(a), Member(b)]
  {
    hide Member;
  }

  lemma TwoParts(a: string, b: string)
    requires Part(a) && Part(b) && Above(OUTSIDE, a, 0) && Above(OUTSIDE, b, 0)
    ensures var s := a + ("," + b); s != "" && Above(OUTSIDE, s, 0) && After(OUTSIDE, s) == OUTSIDE
  {
    hide Whole, After, Above;
    CommaRead(false, 0);
    AfterConcat(OUTSIDE, ",", b);
    AfterConcat(OUTSIDE, a, "," + b);
    AboveConcat(OUTSIDE, ",", b, 0);
    AboveConcat(OUTSIDE, a, "," + b, 0);
  }

  lemma {:induction false} AllDeeper(at: At, s: string, d: int, n: int)
    ensures After(Deeper(at, n), s) == Deeper(After(at, s), n)
    ensures Above(at, s, d) ==> Above(Deeper(at, n), s, d + n)
    decreases |s|
  {
    hide Read;
    if s != "" {
      ReadDeeper(at, s[0], n);
      AllDeeper(Read(at, s[0]), s[1..], d, n);
    }
  }

  /** Braces around a text that ends as deep as it begins make an object of its parts. */
  lemma ObjectOf(body: string)
    requires body != "" && Above(OUTSIDE, body, 0) && After(OUTSIDE, body) == OUTSIDE
    ensures IsObject("{" + body + "}") && Members("{" + body + "}") == MembersOf(Parts(OUTSIDE, body))
  {
    hide After, Above, Closes, Parts;
    var s := "{" + body + "}";
    AllDeeper(OUTSIDE, body, 0, 1);
    CloseBracket();
    ClosesConcat(At(1, false, false), body, "}");
    assert s[1..] == body + "}" && Inner(s) == body;
  }

  /** In every other case the text is not finished. */
  lemma JsonUnfinished(sp: Spelling, bytes: Bytes)
    requires Objects(sp)
    ensures IsObject(JsonText(sp, bytes)) <==> Result(bytes) == Returned(true)
  {
    hide Log, IsObject, Members;
    if Result(bytes) == Returned(true) {
      JsonReads(sp, bytes);
    } else {
      OpenEnd(sp, bytes);
    }
  }

  lemma ObjectEnds(s: string)
    requires IsObject(s)
    ensures After(OUTSIDE, s) == OUTSIDE
  {
    BracketedRead(s, '{', '}', 0);
  }

  lemma HeadRead()
    ensures After(OUTSIDE, "{\"header\": ") == At(1, false, false)
  {
    hide After;
    assert "{\"header\": " == "{" + (Name("header") + ": ");
    NameRead("header");
    ColonRead("");
    AfterConcat(OUTSIDE, Name("header"), ": ");
    AllDeeper(OUTSIDE, Name("header") + ": ", 0, 1);
    BraceRead();
    AfterConcat(OUTSIDE, "{", Name("header") + ": ");
  }

  lemma BraceRead()
    ensures After(OUTSIDE, "{") == At(1, false, false) && After(OUTSIDE, "[") == At(1, false, false)
    ensures After(OUTSIDE, ",") == OUTSIDE
  {
    assert "{"[1..] == "" && "["[1..] == "" && ","[1..] == "";
  }

  lemma RecordsSpelled()
    ensures ",\"records\": [" == "," + (Name("records") + (": " + "["))
  {
  }

  lemma ArrayNamed(name: string)
    requires After(OUTSIDE, name) == OUTSIDE
    ensures After(OUTSIDE, "," + (name + (": " + "["))) == At(1, false, false)
  {
    hide After;
    ColonRead("");
    BraceRead();
    AfterConcat(OUTSIDE, ": ", "[");
    AfterConcat(OUTSIDE, name, ": " + "[");
    AfterConcat(OUTSIDE, ",", name + (": " + "["));
  }

  lemma RecordsRead()
    ensures After(At(1, false, false), ",\"records\": [") == At(2, false, false)
  {
    hide After, Name;
    RecordsSpelled();
    NameRead("records");
    ArrayNamed(Name("records"));
    AllDeeper(OUTSIDE, ",\"records\": [", 0, 1);
  }

  lemma OpenEnd(sp: Spelling, bytes: Bytes)
    requires Objects(sp) && Result(bytes) != Returned(true)
    ensures !IsObject(JsonText(sp, bytes))
  {
    hide Log, IsObject, After, Listed;
    var a, c := "{\"header\": ", ",\"records\": [";
    HeadRead();
    match Log(bytes)
    case Got((h, rs, raised)) =>
      var header, list := sp.header(h), Listed(sp, rs, true);
      assert IsObject(header);
      ObjectRead(header, 1);
      RecordsRead();
      ListedRead(sp, rs, true, 2);
      assert JsonText(sp, bytes) == a + (header + c + list + "");
      assert header + c + list + "" == header + (c + list);
      AfterConcat(At(1, false, false), c, list);
      AfterConcat(At(1, false, false), header, c + list);
      AfterConcat(OUTSIDE, a, header + (c + list));
      NotObject(JsonText(sp, bytes));
    case _ =>
      assert JsonText(sp, bytes) == a + "" == a;
      NotObject(a);
  }

  lemma NotObject(s: string)
    requires After(OUTSIDE, s) != OUTSIDE
    ensures !IsObject(s)
  {
    if IsObject(s) {
      ObjectEnds(s);
    }
  }
}
