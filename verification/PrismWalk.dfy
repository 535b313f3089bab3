/** What tokenizing computes, over plain sequences of pieces: the reference against which the
    linked-list program is proved. The position in the text is not carried along here: it is the
    offset of the current piece. */
module PrismWalk {
  import opened Wrappers
  import opened PrismTokens
  import opened PrismGrammar

  // Everything one `tokenize` call keeps fixed. `depth` bounds the nesting of the grammars
  // inside its patterns, `words` holds their names with the aliases.
  datatype Job = Job(rx: Oracle, text: string, steps: seq<Step>, ghost depth: nat, ghost words: WordLists) {
    ghost predicate Valid() {
      InRange(rx) && InsideBelow(steps, depth) && StepsWithin(steps, words)
    }
  }

  ghost function JobFor(rx: Oracle, text: string, g: Grammar): (job: Job)
    requires InRange(rx)
    ensures job.Valid() && job.rx == rx && job.text == text && job.depth == Depth(g)
    ensures job.steps == Steps(Merged(g)) && job.words == Words(g)
  {
    MergedStepsDepth(g);
    MergedStepsWords(g);
    Job(rx, text, Steps(Merged(g)), Depth(g), Words(g))
  }

  // ----- the invariant of the list

  ghost predicate NoAdjacentText(ps: seq<Piece>) {
    forall k, m | 0 <= k < m < |ps| && m == k + 1 :: ps[k].Text? ==> ps[m].Token?
  }

  /** The oracle reported a match of this step on `n` characters at `o`: on the whole text for a
      greedy pattern, on some stretch of it for any other. */
  ghost predicate Reported(job: Job, st: Step, o: nat, n: nat)
    requires job.Valid()
  {
    if st.pattern.greedy then
      exists q: nat ::
        q <= |job.text| && MatchPattern(job.rx, st.pattern, q, job.text) == Some(Match(o, n))
    else
      exists a: nat, b: nat :: a <= b <= |job.text| && a <= o &&
        MatchPattern(job.rx, st.pattern, 0, job.text[a..b]) == Some(Match(o - a, n))
  }

  /** The piece is a token of this step, for a match the oracle reported right there; with a
      grammar inside, the pieces below it are in turn what that grammar may make of its text. */
  ghost predicate FromStep(job: Job, st: Step, p: Piece, o: nat)
    requires job.Valid()
    decreases job.depth, 0
  {
    && p.Token? && p.kind == st.kind && p.alias == st.pattern.alias
    && Reported(job, st, o, |Flatten(p)|)
    && match st.pattern.inside
       case None => p.content.Leaf?
       case Some(g) =>
         && p.content.Nested? && Depth(g) < job.depth
         && Tiles(JobFor(job.rx, Flatten(p), g), p.content.parts)
  }

  ghost predicate SourcedAt(job: Job, p: Piece, o: nat)
    requires job.Valid()
    decreases job.depth, 1
  {
    p.Token? ==> exists j :: 0 <= j < |job.steps| && FromStep(job, job.steps[j], p, o)
  }

  ghost predicate Sourced(job: Job, ps: seq<Piece>)
    requires job.Valid()
    decreases job.depth, 2
  {
    forall k {:trigger SourcedAt(job, ps[k], Offset(ps, k))} | 0 <= k < |ps| ::
      SourcedAt(job, ps[k], Offset(ps, k))
  }

  /** No pattern of the grammar matches the empty string. */
  ghost predicate Regular(job: Job)
    requires job.Valid()
  {
    forall j | 0 <= j < |job.steps| :: NeverEmpty(job.rx, job.steps[j].pattern)
  }

  ghost predicate Solid(job: Job, ps: seq<Piece>)
    requires job.Valid()
  {
    && (job.text != "" ==> forall k {:trigger ps[k].s} | 0 <= k < |ps| :: ps[k].Text? ==> ps[k].s != "")
    && (Regular(job) ==>
          forall k {:trigger Flatten(ps[k])} | 0 <= k < |ps| :: ps[k].Token? ==> Flatten(ps[k]) != "")
  }

  /** What every step of every walk keeps. */
  ghost predicate Tiles(job: Job, ps: seq<Piece>)
    requires job.Valid()
    decreases job.depth, 3
  {
    && FlattenAll(ps) == job.text
    && AllSized(ps)
    && AllNamed(ps, job.words)
    && NoAdjacentText(ps)
    && Solid(job, ps)
    && Sourced(job, ps)
  }

  // ----- finding the pieces a match touches

  /** The piece from `i` on that holds character `at`. */
  function Containing(ps: seq<Piece>, i: nat, at: nat): (k: nat)
    requires i <= |ps| && Offset(ps, i) <= at < |FlattenAll(ps)|
    ensures i <= k < |ps|
    ensures Offset(ps, k) <= at < Offset(ps, k + 1)
    decreases |ps| - i
  {
    OffsetEnds(ps);
    if at < Offset(ps, i + 1) then i else Containing(ps, i + 1, at)
  }

  /** The end of the run of pieces that begin before `to` or are plain text. */
  function AffectedEnd(ps: seq<Piece>, e: nat, to: nat): (r: nat)
    requires e <= |ps| && to <= |FlattenAll(ps)|
    ensures e <= r <= |ps| && to <= Offset(ps, r)
    ensures r < |ps| ==> ps[r].Token?
    ensures forall m | e <= m < r :: Offset(ps, m) < to || ps[m].Text?
    decreases |ps| - e
  {
    OffsetEnds(ps);
    if e < |ps| && (Offset(ps, e) < to || ps[e].Text?) then AffectedEnd(ps, e + 1, to) else e
  }

  // ----- what to do at a plain piece

  // Stop: this pattern is done. Skip: go on behind piece `at`. Cut: the pieces from `from` up to
  // `to` hold a match, `at` characters in and `len` long.
  datatype Action = Stop | Skip(at: nat) | Cut(from: nat, to: nat, at: nat, len: nat)

  ghost predicate Applies(job: Job, j: nat, ps: seq<Piece>, i: nat, a: Action)
    requires job.Valid() && j < |job.steps|
  {
    match a
    case Stop => true
    case Skip(k) => i <= k < |ps|
    case Cut(k, e, at, len) =>
      && i <= k < e <= |ps|
      && ps[k].Text?
      && (e < |ps| ==> ps[e].Token?)
      && Offset(ps, k) + at <= Offset(ps, k + 1)
      && Offset(ps, k) + at + len <= Offset(ps, e)
      && (e > k + 1 ==> ps[k + 1].Token? && Offset(ps, k + 1) < Offset(ps, k) + at + len)
      && Reported(job, job.steps[j], Offset(ps, k) + at, len)
      && (Regular(job) ==> len > 0)
  }

  /** The action is the answer to what the oracle reports: nothing reported is passed over, and
      nothing else is cut out. */
  ghost predicate Heeds(job: Job, j: nat, ps: seq<Piece>, i: nat, a: Action)
    requires job.Valid() && j < |job.steps| && i < |ps| && Applies(job, j, ps, i, a)
    requires FlattenAll(ps) == job.text && Offset(ps, i) <= |job.text|
  {
    var p := job.steps[j].pattern;
    if ps[i].Token? then a == Skip(i)
    else if p.greedy then
      match MatchPattern(job.rx, p, Offset(ps, i), job.text)
      case None => a == Stop
      case Some(m) =>
        match a
        case Stop => m.index == |job.text|
        case Skip(k) => ps[k].Token? && Offset(ps, k) <= m.index < Offset(ps, k + 1)
        case Cut(k, _, at, len) => at < |Flatten(ps[k])| && m == Match(Offset(ps, k) + at, len)
    else
      match MatchPattern(job.rx, p, 0, ps[i].s)
      case None => a == Skip(i)
      case Some(m) => a == Cut(i, i + 1, m.index, m.length)
  }

  /** A pattern without `greedy` looks at the current piece alone. */
  function DecideWithin(job: Job, j: nat, ps: seq<Piece>, i: nat): (a: Action)
    requires job.Valid() && j < |job.steps| && Tiles(job, ps)
    requires i < |ps| && ps[i].Text? && !job.steps[j].pattern.greedy
    ensures Applies(job, j, ps, i, a)
    ensures Offset(ps, i) <= |job.text| && Heeds(job, j, ps, i, a)
  {
    var p := job.steps[j].pattern;
    OffsetStep(ps, i);
    match MatchPattern(job.rx, p, 0, ps[i].s)
    case None => Skip(i)
    case Some(m) =>
      assert Reported(job, job.steps[j], Offset(ps, i) + m.index, m.length) by {
        assert ps[i].s == job.text[Offset(ps, i)..Offset(ps, i + 1)];
        assert m == Match(Offset(ps, i) + m.index - Offset(ps, i), m.length);
      }
      Cut(i, i + 1, m.index, m.length)
  }

  /** A greedy match that begins in plain piece `k` covers the pieces up to `AffectedEnd`. */
  lemma GreedyCutApplies(job: Job, j: nat, ps: seq<Piece>, i: nat, k: nat, m: Match)
    requires job.Valid() && j < |job.steps| && FlattenAll(ps) == job.text && NoAdjacentText(ps)
    requires job.steps[j].pattern.greedy
    requires i <= k < |ps| && ps[k].Text?
    requires Offset(ps, k) <= m.index < Offset(ps, k + 1) && m.index + m.length <= |job.text|
    requires exists q: nat ::
      q <= |job.text| && MatchPattern(job.rx, job.steps[j].pattern, q, job.text) == Some(m)
    ensures Applies(job, j, ps, i,
      Cut(k, AffectedEnd(ps, k, m.index + m.length), m.index - Offset(ps, k), m.length))
    ensures m.index - Offset(ps, k) < |Flatten(ps[k])|
  {
    var e := AffectedEnd(ps, k, m.index + m.length);
    OffsetStep(ps, k);
    assert m == Match(Offset(ps, k) + (m.index - Offset(ps, k)), m.length);
    if e > k + 1 {
      assert ps[k + 1].Token?;
    }
  }

  /** A greedy pattern looks at the whole text from the current position on. */
  function DecideGreedy(job: Job, j: nat, ps: seq<Piece>, i: nat): (a: Action)
    requires job.Valid() && j < |job.steps| && FlattenAll(ps) == job.text && NoAdjacentText(ps)
    requires i < |ps| && ps[i].Text? && job.steps[j].pattern.greedy
    ensures Applies(job, j, ps, i, a)
    ensures Offset(ps, i) <= |job.text| && Heeds(job, j, ps, i, a)
  {
    OffsetStep(ps, i);
    match MatchPattern(job.rx, job.steps[j].pattern, Offset(ps, i), job.text)
    case None => Stop
    case Some(m) =>
      if m.index >= |job.text| then Stop
      else
        var k := Containing(ps, i, m.index);
        if ps[k].Token? then Skip(k)
        else
          GreedyCutApplies(job, j, ps, i, k, m);
          Cut(k, AffectedEnd(ps, k, m.index + m.length), m.index - Offset(ps, k), m.length)
  }

  function Decide(job: Job, j: nat, ps: seq<Piece>, i: nat): (a: Action)
    requires job.Valid() && j < |job.steps| && Tiles(job, ps)
    requires i < |ps|
    ensures Applies(job, j, ps, i, a) && (a.Cut? ==> ps[i].Text?)
    ensures Offset(ps, i) <= |job.text| && Heeds(job, j, ps, i, a)
  {
    OffsetStep(ps, i);
    if ps[i].Token? then Skip(i)
    else if job.steps[j].pattern.greedy then DecideGreedy(job, j, ps, i)
    else DecideWithin(job, j, ps, i)
  }

  // ----- replacing the pieces of a cut

  function Plain(s: string): seq<Piece> {
    if s == "" then [] else [Text(s)]
  }

  /** The cut lies within the stream, and its match within the pieces it takes out. */
  predicate Within(ps: seq<Piece>, a: Action) {
    && a.Cut? && a.from < a.to <= |ps|
    && Offset(ps, a.from) + a.at + a.len <= Offset(ps, a.to) <= |FlattenAll(ps)|
  }

  /** The string a cut works on. */
  function CutText(text: string, ps: seq<Piece>, a: Action): string
    requires FlattenAll(ps) == text && Within(ps, a)
  {
    text[Offset(ps, a.from)..Offset(ps, a.to)]
  }

  /** What takes the place of the pieces cut out: the text before the match, its token, and the
      text behind it. */
  function Middle(text: string, ps: seq<Piece>, a: Action, tok: Piece): seq<Piece>
    requires FlattenAll(ps) == text && Within(ps, a)
  {
    var str := CutText(text, ps, a);
    Plain(str[..a.at]) + [tok] + Plain(str[a.at + a.len..])
  }

  function Spliced(text: string, ps: seq<Piece>, a: Action, tok: Piece): seq<Piece>
    requires FlattenAll(ps) == text && Within(ps, a)
  {
    ps[..a.from] + Middle(text, ps, a, tok) + ps[a.to..]
  }

  /** The index of the token after a splice. */
  function TokenIndex(a: Action): nat
    requires a.Cut?
  {
    if a.at == 0 then a.from else a.from + 1
  }

  /** The token covers exactly the match. */
  predicate Covers(text: string, ps: seq<Piece>, a: Action, tok: Piece)
    requires FlattenAll(ps) == text && Within(ps, a)
  {
    tok.Token? && Sized(tok) && Flatten(tok) == CutText(text, ps, a)[a.at..a.at + a.len]
  }

  lemma PlainText(s: string)
    ensures FlattenAll(Plain(s)) == s
  {
    if s != "" {
      FlattenOne(Text(s));
    }
  }

  lemma FlattenThree(a: seq<Piece>, b: seq<Piece>, c: seq<Piece>)
    ensures FlattenAll(a + b + c) == FlattenAll(a) + FlattenAll(b) + FlattenAll(c)
  {
    FlattenConcat(a + b, c);
    FlattenConcat(a, b);
  }

  lemma PartsText(before: string, tok: Piece, after: string)
    ensures FlattenAll(Plain(before) + [tok] + Plain(after)) == before + Flatten(tok) + after
  {
    PlainText(before);
    PlainText(after);
    FlattenOne(tok);
    FlattenThree(Plain(before), [tok], Plain(after));
  }

  /** The middle stands for the same text as the pieces it replaces. */
  lemma MiddleText(text: string, ps: seq<Piece>, a: Action, tok: Piece)
    requires FlattenAll(ps) == text && Within(ps, a) && Covers(text, ps, a, tok)
    ensures FlattenAll(Middle(text, ps, a, tok)) == FlattenAll(ps[a.from..a.to])
  {
    var str := CutText(text, ps, a);
    PartsText(str[..a.at], tok, str[a.at + a.len..]);
    assert str == str[..a.at] + str[a.at..a.at + a.len] + str[a.at + a.len..];
    FlattenSlice(ps, a.from, a.to);
  }

  lemma SpliceTake<T>(s: seq<T>, k: nat, e: nat, mid: seq<T>, x: nat)
    requires k <= e <= x <= |s|
    ensures (s[..k] + mid + s[e..])[..k + |mid| + (x - e)] == s[..k] + mid + s[e..x]
    ensures s[..x] == s[..k] + s[k..e] + s[e..x]
  {
    assert s[e..][..x - e] == s[e..x];
  }

  /** Behind a splice every piece begins where it began before: the text length is kept. */
  lemma SpliceBehind(ps: seq<Piece>, k: nat, e: nat, mid: seq<Piece>, x: nat)
    requires k <= e <= x <= |ps|
    requires FlattenAll(mid) == FlattenAll(ps[k..e])
    ensures FlattenAll((ps[..k] + mid + ps[e..])[..k + |mid| + (x - e)]) == FlattenAll(ps[..x])
  {
    SpliceTake(ps, k, e, mid, x);
    FlattenThree(ps[..k], ps[k..e], ps[e..x]);
    FlattenThree(ps[..k], mid, ps[e..x]);
  }

  lemma SplicedWhole(text: string, ps: seq<Piece>, a: Action, tok: Piece)
    requires FlattenAll(ps) == text && Within(ps, a) && Covers(text, ps, a, tok)
    ensures FlattenAll(Spliced(text, ps, a, tok)) == text
  {
    var r := Spliced(text, ps, a, tok);
    MiddleText(text, ps, a, tok);
    SpliceBehind(ps, a.from, a.to, Middle(text, ps, a, tok), |ps|);
    assert r[..|r|] == r && ps[..|ps|] == ps;
  }

  /** Where the pieces of a splice lie. */
  lemma SplicedToken(text: string, ps: seq<Piece>, a: Action, tok: Piece)
    requires FlattenAll(ps) == text && Within(ps, a)
    ensures var r, t := Spliced(text, ps, a, tok), TokenIndex(a);
            && t < |r| && r[t] == tok && r[..a.from] == ps[..a.from]
            && Offset(r, t) == Offset(ps, a.from) + a.at
  {
    var str := CutText(text, ps, a);
    assert Spliced(text, ps, a, tok)[..TokenIndex(a)] == ps[..a.from] + Plain(str[..a.at]);
    FlattenConcat(ps[..a.from], Plain(str[..a.at]));
    PlainText(str[..a.at]);
  }

  // ----- a splice keeps the invariant

  lemma SplicedBefore(job: Job, ps: seq<Piece>, a: Action, tok: Piece, m: nat)
    requires job.Valid() && FlattenAll(ps) == job.text && Within(ps, a)
    requires Sourced(job, ps) && m < a.from
    ensures var r := Spliced(job.text, ps, a, tok); m < |r| && SourcedAt(job, r[m], Offset(r, m))
  {
    assert SourcedAt(job, ps[m], Offset(ps, m));
    assert Spliced(job.text, ps, a, tok)[..m] == ps[..m];
  }

  lemma SourcedBehind(job: Job, ps: seq<Piece>, k: nat, e: nat, mid: seq<Piece>, x: nat)
    requires job.Valid() && k <= e <= x < |ps|
    requires FlattenAll(mid) == FlattenAll(ps[k..e])
    requires SourcedAt(job, ps[x], Offset(ps, x))
    ensures var r, m := ps[..k] + mid + ps[e..], k + |mid| + (x - e);
            m < |r| && SourcedAt(job, r[m], Offset(r, m))
  {
    SpliceBehind(ps, k, e, mid, x);
    assert (ps[..k] + mid + ps[e..])[k + |mid| + (x - e)] == ps[x];
  }

  lemma SplicedBehind(job: Job, ps: seq<Piece>, a: Action, tok: Piece, x: nat)
    requires job.Valid() && FlattenAll(ps) == job.text && Within(ps, a)
    requires Covers(job.text, ps, a, tok)
    requires Sourced(job, ps) && a.to <= x < |ps|
    ensures var r, m := Spliced(job.text, ps, a, tok), a.from + |Middle(job.text, ps, a, tok)| + (x - a.to);
            m < |r| && SourcedAt(job, r[m], Offset(r, m))
  {
    hide FlattenAll, Middle, SourcedAt;
    assert SourcedAt(job, ps[x], Offset(ps, x));
    MiddleText(job.text, ps, a, tok);
    SourcedBehind(job, ps, a.from, a.to, Middle(job.text, ps, a, tok), x);
  }

  lemma SplicedAmid(job: Job, ps: seq<Piece>, a: Action, tok: Piece, m: nat)
    requires job.Valid() && FlattenAll(ps) == job.text && Within(ps, a)
    requires SourcedAt(job, tok, Offset(ps, a.from) + a.at)
    requires a.from <= m < a.from + |Middle(job.text, ps, a, tok)|
    ensures var r := Spliced(job.text, ps, a, tok); m < |r| && SourcedAt(job, r[m], Offset(r, m))
  {
    SplicedToken(job.text, ps, a, tok);
    assert m == TokenIndex(a) || Middle(job.text, ps, a, tok)[m - a.from].Text?;
  }

  lemma SplicedSourced(job: Job, ps: seq<Piece>, a: Action, tok: Piece)
    requires job.Valid() && FlattenAll(ps) == job.text && Within(ps, a)
    requires Covers(job.text, ps, a, tok)
    requires SourcedAt(job, tok, Offset(ps, a.from) + a.at)
    requires Sourced(job, ps)
    ensures Sourced(job, Spliced(job.text, ps, a, tok))
  {
    var n := |Middle(job.text, ps, a, tok)|;
    forall m | 0 <= m < |Spliced(job.text, ps, a, tok)|
      ensures var r := Spliced(job.text, ps, a, tok); SourcedAt(job, r[m], Offset(r, m))
    {
      if m < a.from {
        SplicedBefore(job, ps, a, tok, m);
      } else if m < a.from + n {
        SplicedAmid(job, ps, a, tok, m);
      } else {
        SplicedBehind(job, ps, a, tok, m - a.from - n + a.to);
      }
    }
  }

  lemma JoinShape(a: seq<Piece>, b: seq<Piece>, c: seq<Piece>)
    requires NoAdjacentText(a) && NoAdjacentText(b) && NoAdjacentText(c)
    requires a != [] ==> a[|a| - 1].Token?
    requires c != [] ==> c[0].Token?
    ensures NoAdjacentText(a + b + c)
  {
    var r := a + b;
    assert NoAdjacentText(r);
  }

  lemma MiddleShape(text: string, ps: seq<Piece>, a: Action, tok: Piece)
    requires FlattenAll(ps) == text && Within(ps, a) && tok.Token?
    ensures NoAdjacentText(Middle(text, ps, a, tok))
  {
    hide FlattenAll, CutText, Offset;
  }

  lemma SplicedShape(text: string, ps: seq<Piece>, a: Action, tok: Piece)
    requires FlattenAll(ps) == text && Within(ps, a) && Covers(text, ps, a, tok)
    requires ps[a.from].Text? && (a.to < |ps| ==> ps[a.to].Token?)
    requires NoAdjacentText(ps)
    ensures NoAdjacentText(Spliced(text, ps, a, tok))
  {
    hide FlattenAll, CutText, Offset, Middle;
    MiddleShape(text, ps, a, tok);
    assert a.from > 0 ==> ps[a.from - 1].Token?;
    JoinShape(ps[..a.from], Middle(text, ps, a, tok), ps[a.to..]);
  }

  lemma SplicedSized(text: string, ps: seq<Piece>, a: Action, tok: Piece)
    requires FlattenAll(ps) == text && Within(ps, a) && Covers(text, ps, a, tok)
    requires AllSized(ps)
    ensures AllSized(Spliced(text, ps, a, tok))
  {
    var mid := Middle(text, ps, a, tok);
    assert AllSized(mid);
    assert AllSized(ps[..a.from] + mid);
  }

  lemma SplicedNamed(job: Job, ps: seq<Piece>, a: Action, tok: Piece)
    requires FlattenAll(ps) == job.text && Within(ps, a)
    requires Named(tok, job.words) && AllNamed(ps, job.words)
    ensures AllNamed(Spliced(job.text, ps, a, tok), job.words)
  {
    var mid := Middle(job.text, ps, a, tok);
    assert AllNamed(mid, job.words);
    assert AllNamed(ps[..a.from] + mid, job.words);
  }

  lemma MiddleSolid(job: Job, ps: seq<Piece>, a: Action, tok: Piece)
    requires job.Valid() && FlattenAll(ps) == job.text && Within(ps, a)
    requires Covers(job.text, ps, a, tok)
    requires Regular(job) ==> a.len > 0
    ensures Solid(job, Middle(job.text, ps, a, tok))
  {
    hide FlattenAll, Offset, Regular;
  }

  lemma SplicedSolid(job: Job, ps: seq<Piece>, a: Action, tok: Piece)
    requires job.Valid() && FlattenAll(ps) == job.text && Within(ps, a)
    requires Covers(job.text, ps, a, tok) && Solid(job, ps)
    requires Regular(job) ==> a.len > 0
    ensures Solid(job, Spliced(job.text, ps, a, tok))
  {
    hide FlattenAll, Offset, Regular, Middle;
    var mid := Middle(job.text, ps, a, tok);
    MiddleSolid(job, ps, a, tok);
    assert Solid(job, ps[..a.from] + mid);
  }

  lemma CutWithin(job: Job, j: nat, ps: seq<Piece>, i: nat, a: Action)
    requires job.Valid() && j < |job.steps| && a.Cut? && Applies(job, j, ps, i, a)
    ensures Within(ps, a)
  {
    FlattenSlice(ps, a.to, |ps|);
  }

  /** A token stands at its place in the stream, behind the pieces left alone, and covers as many
      characters as were matched. */
  predicate CutDone(ps: seq<Piece>, a: Action, r: seq<Piece>)
    requires a.Cut? && a.from < a.to <= |ps|
  {
    var t := TokenIndex(a);
    && t < |r| && r[t].Token? && r[..a.from] == ps[..a.from]
    && Offset(r, t + 1) == Offset(ps, a.from) + a.at + a.len
    && |r| == |ps| - (a.to - a.from) + (if a.at > 0 then 1 else 0) + 1
              + (if Offset(ps, a.from) + a.at + a.len < Offset(ps, a.to) then 1 else 0)
  }

  lemma SplicedTiles(job: Job, j: nat, ps: seq<Piece>, i: nat, a: Action, tok: Piece)
    requires job.Valid() && j < |job.steps| && Tiles(job, ps)
    requires a.Cut? && Applies(job, j, ps, i, a) && Within(ps, a)
    requires Covers(job.text, ps, a, tok) && Named(tok, job.words)
    requires FromStep(job, job.steps[j], tok, Offset(ps, a.from) + a.at)
    ensures var r := Spliced(job.text, ps, a, tok); Tiles(job, r) && CutDone(ps, a, r)
  {
    SplicedWhole(job.text, ps, a, tok);
    SplicedShape(job.text, ps, a, tok);
    SplicedSized(job.text, ps, a, tok);
    SplicedNamed(job, ps, a, tok);
    SplicedSolid(job, ps, a, tok);
    SplicedSourced(job, ps, a, tok);
    SplicedToken(job.text, ps, a, tok);
    OffsetStep(Spliced(job.text, ps, a, tok), TokenIndex(a));
  }

  // ----- the walk

  // The pieces and the reach of a rematch after (part of) a walk; `aborted` when the list had
  // grown longer than the text.
  datatype Outcome = Outcome(ps: seq<Piece>, reach: Option<nat>, aborted: bool)

  function Raise(reach: Option<nat>, to: nat): Option<nat> {
    match reach
    case None => None
    case Some(r) => Some(Max(r, to))
  }

  predicate Grows(reach: Option<nat>, reach': Option<nat>) {
    && (reach.None? <==> reach'.None?)
    && (reach.Some? ==> reach.value <= reach'.value)
  }

  /** The pieces before `i` are untouched, and so is piece `i` when it is a token. */
  predicate Kept(ps: seq<Piece>, ps': seq<Piece>, i: nat)
    requires i <= |ps|
  {
    && i <= |ps'| && ps'[..i] == ps[..i]
    && (i < |ps| && ps[i].Token? ==> i < |ps'| && ps'[i] == ps[i])
  }

  lemma NestedNamed(parts: seq<Piece>, words: WordLists, more: WordLists)
    requires AllNamed(parts, words) && words <= more
    ensures forall q | q in parts :: Named(q, more)
  {
    forall k | 0 <= k < |parts| ensures Named(parts[k], more) {
      NamedMore(parts[k], words, more);
    }
  }

  /** The token for matched text: its content is tokenized again when the pattern has a grammar
      inside. */
  function NewToken(job: Job, st: Step, str: string): (tok: Piece)
    requires job.Valid() && st in job.steps
    ensures tok.Token? && Sized(tok) && Named(tok, job.words) && Flatten(tok) == str
    ensures tok.kind == st.kind && tok.alias == st.pattern.alias
    ensures match st.pattern.inside
            case None => tok.content.Leaf?
            case Some(g) =>
              && tok.content.Nested? && Depth(g) < job.depth
              && Tiles(JobFor(job.rx, str, g), tok.content.parts)
    decreases job.depth, 0, 0, 0
  {
    assert StepWithin(st, job.words);
    match st.pattern.inside
    case None => Token(st.kind, Leaf(str), st.pattern.alias, |str|)
    case Some(g) =>
      var parts := Tokenize(job.rx, str, g);
      NestedNamed(parts, Words(g), job.words);
      Token(st.kind, Nested(parts), st.pattern.alias, |str|)
  }

  /** One match put in place. */
  function Cutting(job: Job, j: nat, ps: seq<Piece>, i: nat, a: Action): (r: seq<Piece>)
    requires job.Valid() && j < |job.steps| && Tiles(job, ps)
    requires a.Cut? && Applies(job, j, ps, i, a)
    ensures Tiles(job, r)
    ensures CutDone(ps, a, r)
    decreases job.depth, j, 0, 1
  {
    CutWithin(job, j, ps, i, a);
    var tok := NewToken(job, job.steps[j], CutText(job.text, ps, a)[a.at..a.at + a.len]);
    SplicedTiles(job, j, ps, i, a, tok);
    Spliced(job.text, ps, a, tok)
  }

  // A walk goes on in the text; where it does not, the list grows, which the abort bounds; where
  // neither, it steps over an empty token.

  function TextLeft(job: Job, ps: seq<Piece>, i: nat): nat
    requires i <= |ps|
  {
    if Offset(ps, i) < |job.text| then |job.text| - Offset(ps, i) else 0
  }

  function Slack(job: Job, ps: seq<Piece>): nat {
    if |ps| < |job.text| + 2 then |job.text| + 2 - |ps| else 0
  }

  /** The walk is closer to its end. */
  predicate Onward(job: Job, ps: seq<Piece>, i: nat, ps': seq<Piece>, i': nat)
    requires i <= |ps| && i' <= |ps'|
  {
    || TextLeft(job, ps', i') < TextLeft(job, ps, i)
    || (TextLeft(job, ps', i') == TextLeft(job, ps, i)
        && (Slack(job, ps') < Slack(job, ps)
            || (Slack(job, ps') == Slack(job, ps) && |ps'| - i' < |ps| - i)))
  }

  /** A cut moves on in the text, or else makes the list longer. */
  lemma CutProgress(job: Job, j: nat, ps: seq<Piece>, i: nat, a: Action, r: seq<Piece>)
    requires job.Valid() && j < |job.steps| && Tiles(job, ps) && 0 < |ps| <= |job.text|
    requires a.Cut? && Applies(job, j, ps, i, a) && CutDone(ps, a, r)
    ensures i <= TokenIndex(a)
    ensures TextLeft(job, r, TokenIndex(a) + 1) <= TextLeft(job, ps, i)
    ensures TextLeft(job, r, TokenIndex(a) + 1) < TextLeft(job, ps, i)
            || (a.to == a.from + 1 && Slack(job, r) < Slack(job, ps))
  {
    FlattenSlice(ps, i, a.from);
    OffsetStep(ps, a.from);
  }

  lemma KeptOn(ps: seq<Piece>, ps': seq<Piece>, ps'': seq<Piece>, i: nat, k: nat)
    requires i <= k && i <= |ps| && Kept(ps, ps', i)
    requires k <= |ps'| && Kept(ps', ps'', k)
    ensures Kept(ps, ps'', i)
  {
    assert ps''[..i] == ps''[..k][..i];
  }

  lemma KeptSame(ps: seq<Piece>, i: nat)
    requires i <= |ps|
    ensures Kept(ps, ps, i)
  {
  }

  lemma KeptToken(ps: seq<Piece>, ps': seq<Piece>, t: nat)
    requires t < |ps| && ps[t].Token? && Kept(ps, ps', t)
    ensures t < |ps'| && ps'[..t + 1] == ps[..t + 1]
  {
    assert ps'[..t + 1] == ps'[..t] + [ps'[t]];
    assert ps[..t + 1] == ps[..t] + [ps[t]];
  }

  lemma StepOnward(job: Job, ps: seq<Piece>, i: nat, k: nat)
    requires i < k <= |ps|
    ensures Onward(job, ps, i, ps, k) && Kept(ps, ps, i)
  {
    FlattenSlice(ps, i, k);
  }

  lemma CutOnward(job: Job, j: nat, ps: seq<Piece>, i: nat, a: Action, cut: seq<Piece>, next: seq<Piece>)
    requires job.Valid() && j < |job.steps| && Tiles(job, ps) && i < |ps| <= |job.text| && ps[i].Text?
    requires a.Cut? && Applies(job, j, ps, i, a) && CutDone(ps, a, cut)
    requires var t := TokenIndex(a); t < |next| && next[..t + 1] == cut[..t + 1]
    requires a.to == a.from + 1 ==> next == cut
    ensures var t := TokenIndex(a);
            Onward(job, ps, i, next, t + 1) && Kept(ps, next, i) && i <= t
  {
    var t := TokenIndex(a);
    CutProgress(job, j, ps, i, a, cut);
    assert next[..i] == next[..t + 1][..i] == cut[..t + 1][..i] == cut[..a.from][..i] == ps[..i];
  }

  // Where a pattern stands after one piece has been dealt with: the list, the rematch reach and
  // the piece to look at next.
  datatype Stand = Done(ps: seq<Piece>, reach: Option<nat>, aborted: bool)
                 | At(ps: seq<Piece>, reach: Option<nat>, next: nat)

  /** The walk over one piece. */
  function Visit(job: Job, j: nat, ps: seq<Piece>, i: nat, reach: Option<nat>): (s: Stand)
    requires job.Valid() && j < |job.steps| && Tiles(job, ps) && i <= |ps|
    ensures Tiles(job, s.ps) && Kept(ps, s.ps, i) && Grows(reach, s.reach)
    ensures s.Done? && s.aborted ==> |s.ps| > |job.text|
    ensures s.At? ==> i < s.next <= |s.ps| && Onward(job, ps, i, s.ps, s.next)
    decreases job.depth, j, 1
  {
    hide Tiles, Kept, Onward;
    KeptSame(ps, i);
    if i == |ps| || (reach.Some? && Offset(ps, i) >= reach.value) then Done(ps, reach, false)
    else if |ps| > |job.text| then Done(ps, reach, true)
    else
      match Decide(job, j, ps, i)
      case Stop => Done(ps, reach, false)
      case Skip(k) =>
        StepOnward(job, ps, i, k + 1);
        At(ps, reach, k + 1)
      case Cut(from, to, at, len) => Landed(job, j, ps, i, Cut(from, to, at, len), reach)
  }

  /** The walk behind a replacement. */
  function Landed(job: Job, j: nat, ps: seq<Piece>, i: nat, a: Action, reach: Option<nat>): (s: Stand)
    requires job.Valid() && j < |job.steps| && Tiles(job, ps) && i < |ps| <= |job.text|
    requires ps[i].Text? && a.Cut? && Applies(job, j, ps, i, a)
    ensures s.At? && Tiles(job, s.ps) && Kept(ps, s.ps, i) && Grows(reach, s.reach)
    ensures i < s.next <= |s.ps| && Onward(job, ps, i, s.ps, s.next)
    decreases job.depth, j, 1, 1
  {
    var c := Replaced(job, j, ps, i, a);
    At(c.ps, Raise(reach, c.raised), TokenIndex(a) + 1)
  }

  // The list after a replacement, and how far in the text it may have been disturbed.
  datatype Change = Change(ps: seq<Piece>, raised: nat)

  /** A match put in place, and what it disturbed put right. */
  function Replaced(job: Job, j: nat, ps: seq<Piece>, i: nat, a: Action): (c: Change)
    requires job.Valid() && j < |job.steps| && Tiles(job, ps) && i < |ps| <= |job.text|
    requires ps[i].Text? && a.Cut? && Applies(job, j, ps, i, a)
    ensures Tiles(job, c.ps) && Kept(ps, c.ps, i)
    ensures i <= TokenIndex(a) < |c.ps| && Onward(job, ps, i, c.ps, TokenIndex(a) + 1)
    decreases job.depth, j, 1, 0
  {
    var cut := Cutting(job, j, ps, i, a);
    var c := Rematched(job, j, cut, a, Offset(ps, a.to));
    CutOnward(job, j, ps, i, a, cut, c.ps);
    c
  }

  /** The list after a match, up to `end` in the text, has been put in place: where the match took
      out a token, the patterns before this one are tried again on the stretch it disturbed. */
  function Rematched(job: Job, j: nat, cut: seq<Piece>, a: Action, end: nat): (c: Change)
    requires job.Valid() && j < |job.steps| && Tiles(job, cut) && a.Cut?
    requires TokenIndex(a) < |cut| && cut[TokenIndex(a)].Token?
    ensures Tiles(job, c.ps)
    ensures var t := TokenIndex(a); t < |c.ps| && c.ps[..t + 1] == cut[..t + 1]
    ensures a.to <= a.from + 1 ==> c.ps == cut
    ensures c.raised >= end
    decreases job.depth, j, 0, 3
  {
    if a.to > a.from + 1 then
      var t := TokenIndex(a);
      var nested := MatchAll(job, 0, CauseIndex(job.steps, j), cut, t, Some(end));
      KeptToken(cut, nested.ps, t);
      Change(nested.ps, nested.reach.value)
    else
      Change(cut, end)
  }

  /** One pattern tried from piece `i` on. A `reach` stops the walk, and is raised by every
      change further right. */
  function Walk(job: Job, j: nat, ps: seq<Piece>, i: nat, reach: Option<nat>): (r: Outcome)
    requires job.Valid() && j < |job.steps| && Tiles(job, ps) && i <= |ps|
    ensures Tiles(job, r.ps) && Kept(ps, r.ps, i) && Grows(reach, r.reach)
    ensures r.aborted ==> |r.ps| > |job.text|
    decreases job.depth, j, 2, TextLeft(job, ps, i), Slack(job, ps), |ps| - i
  {
    match Visit(job, j, ps, i, reach)
    case Done(ps', reach', aborted) => Outcome(ps', reach', aborted)
    case At(ps', reach', next) =>
      var r := Walk(job, j, ps', next, reach');
      KeptOn(ps, ps', r.ps, i, next);
      r
  }

  /** The patterns from `j` up to `limit`, each from piece `i` on. */
  function MatchAll(job: Job, j: nat, limit: nat, ps: seq<Piece>, i: nat, reach: Option<nat>): (r: Outcome)
    requires job.Valid() && j <= limit <= |job.steps| && Tiles(job, ps) && i <= |ps|
    ensures Tiles(job, r.ps) && Kept(ps, r.ps, i) && Grows(reach, r.reach)
    ensures r.aborted ==> |r.ps| > |job.text|
    decreases job.depth, limit, 0, 2, limit - j
  {
    if j == limit then Outcome(ps, reach, false)
    else
      var w := Walk(job, j, ps, i, reach);
      if w.aborted then w
      else
        var r := MatchAll(job, j + 1, limit, w.ps, i, w.reach);
        KeptOn(ps, w.ps, r.ps, i, i);
        r
  }

  function Tokenize(rx: Oracle, text: string, g: Grammar): (ps: seq<Piece>)
    requires InRange(rx)
    ensures FlattenAll(ps) == text
    ensures AllSized(ps) && AllNamed(ps, Words(g))
    ensures Tiles(JobFor(rx, text, g), ps)
    decreases Depth(g)
  {
    MergedStepsDepth(g);
    MergedStepsWords(g);
    var job := Job(rx, text, Steps(Merged(g)), Depth(g), Words(g));
    OneText(job);
    MatchAll(job, 0, |job.steps|, [Text(text)], 0, None).ps
  }

  lemma OneText(job: Job)
    requires job.Valid()
    ensures Tiles(job, [Text(job.text)])
  {
    FlattenOne(Text(job.text));
  }
}
