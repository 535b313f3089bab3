/** What tokenizing guarantees, for every text, grammar and match oracle. */
module PrismTheorems {
  import opened Wrappers
  import opened PrismTokens
  import opened PrismGrammar
  import opened PrismWalk

  // ----- tokens inside tokens

  /** The path, an index at each depth, leads to a piece. */
  predicate Leads(ps: seq<Piece>, path: seq<nat>) {
    && path != [] && path[0] < |ps|
    && (|path| > 1 ==>
          && ps[path[0]].Token? && ps[path[0]].content.Nested?
          && Leads(ps[path[0]].content.parts, path[1..]))
  }

  function PieceAt(ps: seq<Piece>, path: seq<nat>): Piece
    requires Leads(ps, path)
  {
    if |path| == 1 then ps[path[0]] else PieceAt(ps[path[0]].content.parts, path[1..])
  }

  /** Where in the whole text the piece begins. */
  function PlaceOf(ps: seq<Piece>, path: seq<nat>): nat
    requires Leads(ps, path)
  {
    Offset(ps, path[0]) + if |path| == 1 then 0 else PlaceOf(ps[path[0]].content.parts, path[1..])
  }

  /** The inner job is the given one, or that of a grammar inside one of its patterns, at any depth. */
  ghost predicate Below(inner: Job, job: Job)
    requires job.Valid()
    decreases job.depth
  {
    inner == job
    || exists st: Step, t: string | BelowStep(job, st) :: Below(inner, JobFor(job.rx, t, st.pattern.inside.value))
  }

  ghost predicate BelowStep(job: Job, st: Step) {
    st in job.steps && st.pattern.inside.Some? && Depth(st.pattern.inside.value) < job.depth
  }

  /** The text from `base` on was given to a grammar, and a pattern of that grammar was reported to
      match on the piece's own characters. */
  ghost predicate ReportedIn(job: Job, p: Piece, o: nat, inner: Job, st: Step, base: nat)
    requires job.Valid()
  {
    && inner.Valid() && Below(inner, job) && st in inner.steps
    && base <= o && base + |inner.text| <= |job.text|
    && job.text[base..base + |inner.text|] == inner.text
    && FromStep(inner, st, p, o - base)
  }

  lemma BelowDeeper(job: Job, st: Step, t: string, inner: Job)
    requires job.Valid() && BelowStep(job, st) && Below(inner, JobFor(job.rx, t, st.pattern.inside.value))
    ensures Below(inner, job)
  {
  }

  /** What the text of an inner job is told of is so of the text around it. */
  lemma ReportedAround(job: Job, st: Step, o: nat, below: Job, p: Piece, o': nat, at: nat)
    requires job.Valid() && BelowStep(job, st) && at == o + o'
    requires below == JobFor(job.rx, below.text, st.pattern.inside.value)
    requires o + |below.text| <= |job.text| && job.text[o..o + |below.text|] == below.text
    requires exists inner, st', base :: ReportedIn(below, p, o', inner, st', base)
    ensures exists inner, st', base :: ReportedIn(job, p, at, inner, st', base)
  {
    hide FromStep, Below, BelowStep;
    var inner, st', base :| ReportedIn(below, p, o', inner, st', base);
    PartOfPart(job.text, o, below.text, base, inner.text);
    BelowDeeper(job, st, below.text, inner);
    assert at - (o + base) == o' - base;
    assert ReportedIn(job, p, at, inner, st', o + base);
  }

  lemma PartOfPart(text: string, o: nat, part: string, o': nat, t: string)
    requires o + |part| <= |text| && text[o..o + |part|] == part
    requires o' + |t| <= |part| && part[o'..o' + |t|] == t
    ensures text[o + o'..o + o' + |t|] == t
  {
    forall k | 0 <= k < |t| ensures text[o + o' + k] == t[k] {
      assert part[o'..o' + |t|][k] == part[o' + k] == text[o..o + |part|][o' + k];
    }
  }

  /** The piece at `k`: its text, its place, and the step it comes from. */
  lemma TileAt(job: Job, ps: seq<Piece>, k: nat) returns (st: Step)
    requires job.Valid() && Tiles(job, ps) && k < |ps|
    ensures var o, t := Offset(ps, k), Flatten(ps[k]);
            o + |t| <= |job.text| && job.text[o..o + |t|] == t
    ensures ps[k].Token? ==> st in job.steps && FromStep(job, st, ps[k], Offset(ps, k))
  {
    hide FromStep;
    OffsetStep(ps, k);
    if ps[k].Token? {
      assert SourcedAt(job, ps[k], Offset(ps, k));
      var j :| 0 <= j < |job.steps| && FromStep(job, job.steps[j], ps[k], Offset(ps, k));
      st := job.steps[j];
    } else {
      st := *;
    }
  }

  /** The piece covers its own stretch of the text; a token stands where it was reported. */
  ghost predicate TileOf(job: Job, p: Piece, o: nat)
    requires job.Valid()
  {
    && o + |Flatten(p)| <= |job.text| && job.text[o..o + |Flatten(p)|] == Flatten(p)
    && (p.Token? ==> exists inner, st, base :: ReportedIn(job, p, o, inner, st, base))
  }

  /** What holds of a piece inside a token holds of it in the whole text. */
  lemma TileDeeper(job: Job, st: Step, p: Piece, o: nat, q: Piece, o': nat)
    requires job.Valid() && st in job.steps && FromStep(job, st, p, o) && st.pattern.inside.Some?
    requires o + |Flatten(p)| <= |job.text| && job.text[o..o + |Flatten(p)|] == Flatten(p)
    requires TileOf(JobFor(job.rx, Flatten(p), st.pattern.inside.value), q, o')
    ensures TileOf(job, q, o + o')
  {
    hide Tiles, Below, ReportedIn, Reported;
    var below := JobFor(job.rx, Flatten(p), st.pattern.inside.value);
    PartOfPart(job.text, o, below.text, o', Flatten(q));
    if q.Token? {
      ReportedAround(job, st, o, below, q, o', o + o');
    }
  }

  /** Every piece, at every depth, covers its own stretch of the whole text, and every token stands
      where a pattern of the grammar of its depth was reported to match. */
  lemma {:induction false} TilesAtEveryDepth(job: Job, ps: seq<Piece>, path: seq<nat>)
    requires job.Valid() && Tiles(job, ps) && Leads(ps, path)
    ensures TileOf(job, PieceAt(ps, path), PlaceOf(ps, path))
    decreases |path|
  {
    hide Tiles, Offset, ReportedIn, Reported;
    var p, o := ps[path[0]], Offset(ps, path[0]);
    var st := TileAt(job, ps, path[0]);
    if |path| > 1 {
      var below, parts := JobFor(job.rx, Flatten(p), st.pattern.inside.value), p.content.parts;
      TilesAtEveryDepth(below, parts, path[1..]);
      TileDeeper(job, st, p, o, PieceAt(parts, path[1..]), PlaceOf(parts, path[1..]));
    } else if p.Token? {
      ReportedHere(job, st, p, o);
    }
  }

  lemma ReportedHere(job: Job, st: Step, p: Piece, o: nat)
    requires job.Valid() && st in job.steps && FromStep(job, st, p, o)
    ensures exists inner, st', base :: ReportedIn(job, p, o, inner, st', base)
  {
    hide FromStep;
    assert ReportedIn(job, p, o, job, st, 0);
  }

  /** The tokens of a text lie side by side over it, no two plain pieces touch, and every token, at
      every depth, stands exactly where the oracle reported a match of the pattern it is named
      after. */
  lemma TokensAreReported(rx: Oracle, text: string, g: Grammar, path: seq<nat>)
    requires InRange(rx) && Leads(Tokenize(rx, text, g), path)
    ensures NoAdjacentText(Tokenize(rx, text, g))
    ensures var ps := Tokenize(rx, text, g);
            TileOf(JobFor(rx, text, g), PieceAt(ps, path), PlaceOf(ps, path))
  {
    TilesAtEveryDepth(JobFor(rx, text, g), Tokenize(rx, text, g), path);
  }

  /** The guard against a runaway list stops an empty text at once, and leaves it whole. */
  lemma EmptyText(rx: Oracle, g: Grammar)
    requires InRange(rx)
    ensures Tokenize(rx, "", g) == [Text("")]
    ensures var job := JobFor(rx, "", g);
            && Tiles(job, [Text("")])
            && MatchAll(job, 0, |job.steps|, [Text("")], 0, None).aborted == (|job.steps| > 0)
            && (|job.steps| > 0 ==> Walk(job, 0, [Text("")], 0, None) == Outcome([Text("")], None, true))
  {
    var job := JobFor(rx, "", g);
    OneText(job);
    if |job.steps| > 0 {
      assert Walk(job, 0, [Text("")], 0, None) == Outcome([Text("")], None, true);
    }
    assert MatchAll(job, 0, |job.steps|, [Text("")], 0, None).ps == [Text("")];
  }

  lemma SolidFits(job: Job, ps: seq<Piece>)
    requires job.Valid() && Tiles(job, ps) && Regular(job) && job.text != ""
    ensures |ps| <= |job.text|
  {
    forall k | 0 <= k < |ps| ensures Flatten(ps[k]) != "" {
      assert ps[k].Text? ==> Flatten(ps[k]) == ps[k].s;
    }
    NonemptyPiecesFit(ps);
  }

  /** When no pattern matches the empty string, the guard never fires on a text that is not
      empty, neither in a first walk nor in any rematch. */
  lemma AbortNeverFires(job: Job, j: nat, limit: nat, ps: seq<Piece>, i: nat, reach: Option<nat>)
    requires job.Valid() && j <= limit <= |job.steps| && Tiles(job, ps) && i <= |ps|
    requires Regular(job) && job.text != ""
    ensures !MatchAll(job, j, limit, ps, i, reach).aborted
    ensures j < limit ==> !Walk(job, j, ps, i, reach).aborted
  {
    SolidFits(job, MatchAll(job, j, limit, ps, i, reach).ps);
    if j < limit {
      SolidFits(job, Walk(job, j, ps, i, reach).ps);
    }
  }

  /** The pattern is reported to match the empty string wherever it is asked for. */
  ghost predicate EmptyEverywhere(rx: Oracle, p: Pattern)
    requires InRange(rx)
  {
    forall from: nat, text: string | from <= |text| :: MatchPattern(rx, p, from, text) == Some(Match(from, 0))
  }

  /** Such a pattern finds the empty string in front of any plain piece, and nothing else. */
  lemma EmptyCut(job: Job, j: nat, ps: seq<Piece>, i: nat)
    requires job.Valid() && j < |job.steps| && Tiles(job, ps) && job.text != ""
    requires i < |ps| && ps[i].Text? && EmptyEverywhere(job.rx, job.steps[j].pattern)
    ensures Decide(job, j, ps, i) == Cut(i, i + 1, 0, 0)
  {
    hide Sourced, AllSized, AllNamed, Regular;
    assert ps[i].s != "";
    OffsetStep(ps, i);
    var o := Offset(ps, i);
    if job.steps[j].pattern.greedy {
      assert MatchPattern(job.rx, job.steps[j].pattern, o, job.text) == Some(Match(o, 0));
      assert Containing(ps, i, o) == i && AffectedEnd(ps, i, o) == AffectedEnd(ps, i + 1, o);
      assert i + 1 < |ps| ==> ps[i + 1].Token?;
    } else {
      assert MatchPattern(job.rx, job.steps[j].pattern, 0, ps[i].s) == Some(Match(0, 0));
    }
  }

  lemma EmptySplice(text: string, ps: seq<Piece>, i: nat, tok: Piece)
    requires FlattenAll(ps) == text && i < |ps| && ps[i].Text? && ps[i].s != ""
    requires Within(ps, Cut(i, i + 1, 0, 0))
    ensures var r := Spliced(text, ps, Cut(i, i + 1, 0, 0), tok); |r| == |ps| + 1 && r[i + 1].Text?
  {
    var a := Cut(i, i + 1, 0, 0);
    OffsetStep(ps, i);
    var str := CutText(text, ps, a);
    assert str[..0] == "" && str[0..] == str != "";
    assert Middle(text, ps, a, tok) == [tok, Text(str)];
  }

  lemma EmptyCutting(job: Job, j: nat, ps: seq<Piece>, i: nat)
    requires job.Valid() && j < |job.steps| && Tiles(job, ps) && job.text != ""
    requires i < |ps| && ps[i].Text? && Applies(job, j, ps, i, Cut(i, i + 1, 0, 0))
    ensures var r := Cutting(job, j, ps, i, Cut(i, i + 1, 0, 0)); |r| == |ps| + 1 && r[i + 1].Text?
  {
    hide Tiles, Applies, Spliced, CutText, NewToken;
    var a := Cut(i, i + 1, 0, 0);
    PlainNotEmpty(job, ps, i);
    CutWithin(job, j, ps, i, a);
    var tok := NewToken(job, job.steps[j], CutText(job.text, ps, a)[a.at..a.at + a.len]);
    EmptySplice(job.text, ps, i, tok);
  }

  /** The plain piece is met again behind the empty token, in a longer list, at the same place. */
  lemma EmptyVisit(job: Job, j: nat, ps: seq<Piece>, i: nat, reach: Option<nat>)
    requires job.Valid() && j < |job.steps| && Tiles(job, ps) && 0 < |ps| <= |job.text|
    requires i < |ps| && ps[i].Text? && EmptyEverywhere(job.rx, job.steps[j].pattern)
    requires reach.Some? ==> Offset(ps, i) < reach.value
    ensures var s := Visit(job, j, ps, i, reach);
            && s.At? && Grows(reach, s.reach) && s.next == i + 1 < |s.ps|
            && |s.ps| == |ps| + 1 && s.ps[i + 1].Text? && Offset(s.ps, i + 1) == Offset(ps, i)
  {
    hide Tiles, Applies, Decide, Cutting, EmptyEverywhere, Offset;
    var a := Cut(i, i + 1, 0, 0);
    EmptyCut(job, j, ps, i);
    EmptyCutting(job, j, ps, i);
    var cut := Cutting(job, j, ps, i, a);
    assert Replaced(job, j, ps, i, a) == Rematched(job, j, cut, a, Offset(ps, a.to));
    assert Visit(job, j, ps, i, reach) == Landed(job, j, ps, i, a, reach);
  }

  lemma PlainNotEmpty(job: Job, ps: seq<Piece>, i: nat)
    requires job.Valid() && Tiles(job, ps) && job.text != "" && i < |ps| && ps[i].Text?
    ensures ps[i].s != "" && FlattenAll(ps) == job.text
  {
  }

  /** A pattern reported to match the empty string wherever it is asked for makes the guard fire
      in every walk, a rematch's too, over any text that is not empty, that meets a plain piece
      within its reach: the guard is what ends such a walk. */
  lemma {:induction false} EmptyMatchAborts(job: Job, j: nat, ps: seq<Piece>, i: nat, k: nat, reach: Option<nat>)
    requires job.Valid() && j < |job.steps| && Tiles(job, ps) && job.text != ""
    requires i <= k < |ps| && ps[k].Text? && EmptyEverywhere(job.rx, job.steps[j].pattern)
    requires reach.Some? ==> Offset(ps, k) < reach.value
    ensures Walk(job, j, ps, i, reach).aborted
    decreases Slack(job, ps), k - i
  {
    hide Tiles, EmptyEverywhere, Decide, Offset, FlattenAll, Kept, Onward;
    OffsetGrows(ps, i, k);
    if |ps| > |job.text| {
      assert Visit(job, j, ps, i, reach) == Done(ps, reach, true);
    } else if ps[i].Token? {
      assert Decide(job, j, ps, i) == Skip(i) by {
        TokenSkipped(job, j, ps, i);
      }
      assert Visit(job, j, ps, i, reach) == At(ps, reach, i + 1);
      EmptyMatchAborts(job, j, ps, i + 1, k, reach);
    } else {
      EmptyVisit(job, j, ps, i, reach);
      var s := Visit(job, j, ps, i, reach);
      EmptyMatchAborts(job, j, s.ps, i + 1, i + 1, s.reach);
    }
  }

  lemma OffsetGrows(ps: seq<Piece>, i: nat, k: nat)
    requires i <= k <= |ps|
    ensures Offset(ps, i) <= Offset(ps, k)
  {
    FlattenSlice(ps, i, k);
  }

  lemma TokenSkipped(job: Job, j: nat, ps: seq<Piece>, i: nat)
    requires job.Valid() && j < |job.steps| && Tiles(job, ps) && i < |ps| && ps[i].Token?
    ensures Decide(job, j, ps, i) == Skip(i)
  {
  }

  // An engine that reports the empty string once, between the 'a' and the 'b' of "abc".
  const ONE_EMPTY: Oracle := (r: nat, p: nat, t: string) =>
    if p == 0 && t == "abc" then Some(RawMatch(1, 0, 0)) else None

  const ONE_PATTERN := Grammar([Entry("e", [Pattern(0, false, false, [], None)])], None)

  /** An empty match here and there does not: this walk ends by itself. */
  lemma EmptyMatchHarmless()
    ensures InRange(ONE_EMPTY)
    ensures var job := JobFor(ONE_EMPTY, "abc", ONE_PATTERN);
            && |job.steps| == 1 && !Regular(job) && Tiles(job, [Text("abc")])
            && !Walk(job, 0, [Text("abc")], 0, None).aborted
  {
    var job, ps := JobFor(ONE_EMPTY, "abc", ONE_PATTERN), [Text("abc")];
    var p := ONE_PATTERN.entries[0].patterns[0];
    assert Steps(ONE_PATTERN.entries) == [Step("e", 0, p)];
    assert MatchPattern(job.rx, p, 0, "abc") == Some(Match(1, 0));
    OneText(job);
    OneVisit(job, ps);
  }

  lemma OneVisit(job: Job, ps: seq<Piece>)
    requires InRange(ONE_EMPTY) && job == JobFor(ONE_EMPTY, "abc", ONE_PATTERN) && ps == [Text("abc")]
    requires |job.steps| == 1 && job.steps[0].pattern == ONE_PATTERN.entries[0].patterns[0] && Tiles(job, ps)
    ensures !Walk(job, 0, ps, 0, None).aborted
  {
    hide Solid, Sourced, AllNamed, AllSized, NoAdjacentText, Kept, Onward;
    var a := Cut(0, 1, 1, 0);
    OffsetEnds(ps);
    assert Decide(job, 0, ps, 0) == a;
    var cut := Cutting(job, 0, ps, 0, a);
    assert Replaced(job, 0, ps, 0, a) == Rematched(job, 0, cut, a, 3) == Change(cut, 3);
    assert Visit(job, 0, ps, 0, None) == Landed(job, 0, ps, 0, a, None) == At(cut, None, 2);
    OffsetStep(cut, 2);
    assert cut[2].Text? ==> cut[2].s != "abc";
    assert Decide(job, 0, cut, 2) == Skip(2);
    assert Visit(job, 0, cut, 2, None) == At(cut, None, 3);
    assert Walk(job, 0, cut, 3, None) == Outcome(cut, None, false);
    assert Walk(job, 0, cut, 2, None) == Outcome(cut, None, false);
  }

  /** A match touches more than one piece exactly when it takes out a token: only then are the
      earlier patterns tried again. */
  lemma RematchOnlyAfterLostToken(job: Job, j: nat, ps: seq<Piece>, i: nat)
    requires job.Valid() && j < |job.steps| && Tiles(job, ps) && i < |ps|
    requires Decide(job, j, ps, i).Cut?
    ensures var a := Decide(job, j, ps, i);
            a.to > a.from + 1 <==> exists k :: a.from <= k < a.to && ps[k].Token?
  {
    hide Tiles, FlattenAll, Offset, Reported, Decide;
    var a := Decide(job, j, ps, i);
    if a.to > a.from + 1 {
      assert ps[a.from + 1].Token?;
    }
  }

  // ----- a match across the edge of a token

  /** From `from` on nothing more is reported for a pattern. */
  ghost predicate NoneFrom(job: Job, j: nat, from: nat)
    requires job.Valid() && j < |job.steps|
  {
    forall q: nat | from <= q <= |job.text| :: MatchPattern(job.rx, job.steps[j].pattern, q, job.text) == None
  }

  lemma {:induction false} NothingMore(job: Job, j: nat, ps: seq<Piece>, i: nat, reach: Option<nat>)
    requires job.Valid() && j < |job.steps| && Tiles(job, ps) && i <= |ps| <= |job.text|
    requires job.steps[j].pattern.greedy && NoneFrom(job, j, Offset(ps, i))
    ensures Walk(job, j, ps, i, reach) == Outcome(ps, reach, false)
    decreases |ps| - i
  {
    hide Tiles, Visit, NoneFrom;
    VisitNothing(job, j, ps, i, reach);
    if Visit(job, j, ps, i, reach).At? {
      LaterNone(job, j, ps, i);
      NothingMore(job, j, ps, i + 1, reach);
    }
  }

  lemma VisitNothing(job: Job, j: nat, ps: seq<Piece>, i: nat, reach: Option<nat>)
    requires job.Valid() && j < |job.steps| && Tiles(job, ps) && i <= |ps| <= |job.text|
    requires job.steps[j].pattern.greedy && NoneFrom(job, j, Offset(ps, i))
    ensures var s := Visit(job, j, ps, i, reach);
            s == Done(ps, reach, false) || (i < |ps| && s == At(ps, reach, i + 1))
  {
    hide Solid, Sourced, AllNamed, AllSized, NoAdjacentText;
    FlattenSlice(ps, i, |ps|);
  }

  lemma LaterNone(job: Job, j: nat, ps: seq<Piece>, i: nat)
    requires job.Valid() && j < |job.steps| && i < |ps| && NoneFrom(job, j, Offset(ps, i))
    ensures NoneFrom(job, j, Offset(ps, i + 1))
  {
    OffsetStep(ps, i);
  }

  /** The pieces with a match put in place of all from `i` on. */
  function Ended(job: Job, j: nat, ps: seq<Piece>, i: nat, m: Match): seq<Piece>
    requires job.Valid() && j < |job.steps| && i <= |ps|
    requires Offset(ps, i) <= m.index && m.index + m.length <= |job.text|
  {
    var end := m.index + m.length;
    var tok := NewToken(job, job.steps[j], job.text[m.index..end]);
    ps[..i] + (Plain(job.text[Offset(ps, i)..m.index]) + [tok] + Plain(job.text[end..]))
  }

  /** The greedy pattern, looked for at piece `i`, matches within it. */
  ghost predicate MatchesAt(job: Job, j: nat, ps: seq<Piece>, i: nat, m: Match)
    requires job.Valid() && j < |job.steps| && i < |ps|
  {
    && Tiles(job, ps) && ps[i].Text? && job.steps[j].pattern.greedy
    && Offset(ps, i) <= m.index < Offset(ps, i + 1) && m.index + m.length <= |job.text|
    && Offset(ps, i) <= |job.text|
    && MatchPattern(job.rx, job.steps[j].pattern, Offset(ps, i), job.text) == Some(m)
  }

  lemma DecidesToEnd(job: Job, j: nat, ps: seq<Piece>, i: nat, m: Match)
    requires job.Valid() && j < |job.steps| && i < |ps| && MatchesAt(job, j, ps, i, m)
    requires AffectedEnd(ps, i, m.index + m.length) == |ps|
    ensures Decide(job, j, ps, i) == Cut(i, |ps|, m.index - Offset(ps, i), m.length)
  {
    hide Solid, Sourced, AllNamed, AllSized, Offset;
    FlattenSlice(ps, i + 1, |ps|);
    assert Containing(ps, i, m.index) == i;
  }

  lemma SplicedLast(text: string, ps: seq<Piece>, a: Action, tok: Piece)
    requires FlattenAll(ps) == text && Within(ps, a) && a.to == |ps|
    ensures Spliced(text, ps, a, tok) == ps[..a.from] + Middle(text, ps, a, tok)
  {
    hide FlattenAll, Offset, Middle;
    assert ps[a.to..] == [];
  }

  lemma MiddleOf(text: string, ps: seq<Piece>, a: Action, tok: Piece)
    requires FlattenAll(ps) == text && Within(ps, a)
    ensures var str := CutText(text, ps, a);
            a.at + a.len <= |str|
            && Middle(text, ps, a, tok) == Plain(str[..a.at]) + [tok] + Plain(str[a.at + a.len..])
  {
    hide FlattenAll, Plain, Offset;
  }

  lemma CutTextToEnd(text: string, ps: seq<Piece>, a: Action)
    requires FlattenAll(ps) == text && Within(ps, a) && a.to == |ps|
    ensures CutText(text, ps, a) == text[Offset(ps, a.from)..]
    ensures Offset(ps, a.from) + a.at + a.len <= |text|
  {
    hide FlattenAll;
    OffsetEnds(ps);
  }

  lemma TailSlices(text: string, o: nat, at: nat, len: nat)
    requires o + at + len <= |text|
    ensures text[o..][..at] == text[o..o + at] && text[o..][at..at + len] == text[o + at..o + at + len]
    ensures text[o..][at + len..] == text[o + at + len..]
  {
  }

  /** A match that affects all pieces from `i` on. */
  lemma CutToEnd(job: Job, j: nat, ps: seq<Piece>, i: nat, m: Match)
    requires job.Valid() && j < |job.steps| && i < |ps| && MatchesAt(job, j, ps, i, m)
    requires AffectedEnd(ps, i, m.index + m.length) == |ps|
    ensures var a := Cut(i, |ps|, m.index - Offset(ps, i), m.length);
            Decide(job, j, ps, i) == a && Cutting(job, j, ps, i, a) == Ended(job, j, ps, i, m)
  {
    hide Tiles, Decide, NewToken, Plain, Offset, FlattenAll, Applies, Spliced, CutText, Middle;
    DecidesToEnd(job, j, ps, i, m);
    var a := Cut(i, |ps|, m.index - Offset(ps, i), m.length);
    CutWithin(job, j, ps, i, a);
    TextOf(job, ps);
    var tok := NewToken(job, job.steps[j], job.text[m.index..m.index + m.length]);
    CutTextToEnd(job.text, ps, a);
    TailSlices(job.text, Offset(ps, i), a.at, a.len);
    SplicedLast(job.text, ps, a, tok);
    MiddleOf(job.text, ps, a, tok);
  }

  lemma AffectsLast(ps: seq<Piece>, i: nat, to: nat)
    requires i + 1 == |ps| && ps[i].Text? && to <= |FlattenAll(ps)|
    ensures AffectedEnd(ps, i, to) == |ps|
  {
    assert AffectedEnd(ps, i, to) == AffectedEnd(ps, i + 1, to);
  }

  lemma LastVisit(job: Job, j: nat, ps: seq<Piece>, i: nat, m: Match, reach: Option<nat>)
    requires job.Valid() && j < |job.steps| && i + 1 == |ps| && MatchesAt(job, j, ps, i, m)
    requires |ps| <= |job.text| && (reach.Some? ==> Offset(ps, i) < reach.value)
    ensures var r, t := Ended(job, j, ps, i, m), if m.index == Offset(ps, i) then i else i + 1;
            && Tiles(job, r) && t < |r| && Offset(r, t + 1) == m.index + m.length
            && Visit(job, j, ps, i, reach) == At(r, Raise(reach, |job.text|), t + 1)
  {
    hide Tiles, Ended, Decide, Cutting, AffectedEnd;
    TextOf(job, ps);
    AffectsLast(ps, i, m.index + m.length);
    CutToEnd(job, j, ps, i, m);
    hide FlattenAll;
    OffsetEnds(ps);
    var a := Cut(i, |ps|, m.index - Offset(ps, i), m.length);
    var cut := Cutting(job, j, ps, i, a);
    assert Replaced(job, j, ps, i, a) == Rematched(job, j, cut, a, |job.text|);
    assert Visit(job, j, ps, i, reach) == Landed(job, j, ps, i, a, reach);
  }

  /** A match in the last piece, and no more behind it. */
  lemma LastMatch(job: Job, j: nat, ps: seq<Piece>, i: nat, m: Match, reach: Option<nat>)
    requires job.Valid() && j < |job.steps| && i + 1 == |ps| && MatchesAt(job, j, ps, i, m)
    requires NoneFrom(job, j, m.index + m.length) && Regular(job)
    requires reach.Some? ==> Offset(ps, i) < reach.value
    ensures Tiles(job, Ended(job, j, ps, i, m))
    ensures Walk(job, j, ps, i, reach)
            == Outcome(Ended(job, j, ps, i, m), Raise(reach, |job.text|), false)
  {
    hide Tiles, Regular, NoneFrom, Ended, Offset, Visit;
    TextOf(job, ps);
    OffsetEnds(ps);
    SolidFits(job, ps);
    LastVisit(job, j, ps, i, m, reach);
    var r, t := Ended(job, j, ps, i, m), if m.index == Offset(ps, i) then i else i + 1;
    SolidFits(job, r);
    NothingMore(job, j, r, t + 1, Raise(reach, |job.text|));
  }

  /** A token and one plain piece end the list. */
  ghost predicate TokenThenText(job: Job, ps: seq<Piece>, t: nat, from: nat, end: nat)
    requires job.Valid()
  {
    && Tiles(job, ps) && t + 2 == |ps| && ps[t].Token? && ps[t + 1].Text?
    && Offset(ps, t) == from && Offset(ps, t + 1) == end < |job.text|
  }

  lemma EndedShape(job: Job, j: nat, ps: seq<Piece>, m: Match)
    requires job.Valid() && j < |job.steps| && ps != []
    requires m.index + m.length < |job.text| && Tiles(job, Ended(job, j, ps, 0, m))
    ensures TokenThenText(job, Ended(job, j, ps, 0, m), if m.index == 0 then 0 else 1, m.index, m.index + m.length)
  {
    hide Tiles, NewToken, Plain, FlattenAll;
    OffsetEnds(ps);
    var r, t, end := Ended(job, j, ps, 0, m), if m.index == 0 then 0 else 1, m.index + m.length;
    var before, behind := job.text[..m.index], job.text[end..];
    var tok := NewToken(job, job.steps[j], job.text[m.index..end]);
    assert job.text[0..m.index] == before;
    PlainOne(before);
    PlainOne(behind);
    assert r == Plain(before) + [tok] + Plain(behind);
    assert r[..t] == Plain(before) && r[t] == tok && r[t + 1] == Plain(behind)[0];
    PlainText(before);
    OffsetStep(r, t);
  }

  lemma PlainOne(s: string)
    ensures |Plain(s)| == if s == "" then 0 else 1
    ensures s != "" ==> Plain(s)[0].Text?
  {
  }

  lemma EndedFront(job: Job, j: nat, ps: seq<Piece>, i: nat, m: Match)
    requires job.Valid() && j < |job.steps| && i <= |ps|
    requires Offset(ps, i) <= m.index && m.index + m.length <= |job.text|
    ensures |Ended(job, j, ps, i, m)| > i && Ended(job, j, ps, i, m)[..i] == ps[..i]
  {
  }

  /** The rematch behind a token: it passes the token and finds the match in the plain piece. */
  lemma RematchFinds(job: Job, ps: seq<Piece>, t: nat, from: nat, end: nat, next: Match)
    requires job.Valid() && |job.steps| > 0 && Regular(job) && TokenThenText(job, ps, t, from, end)
    requires job.steps[0].pattern.greedy && next.index < |job.text|
    requires MatchPattern(job.rx, job.steps[0].pattern, end, job.text) == Some(next)
    requires NoneFrom(job, 0, next.index + next.length)
    ensures var last := Ended(job, 0, ps, t + 1, next);
            && Tiles(job, last) && last[..t + 1] == ps[..t + 1]
            && MatchAll(job, 0, 1, ps, t, Some(|job.text|)) == Outcome(last, Some(|job.text|), false)
  {
    hide Tiles, Regular, NoneFrom, Ended, AffectedEnd, Cutting;
    EndedFront(job, 0, ps, t + 1, next);
    OffsetEnds(ps);
    OffsetStep(ps, t);
    SolidFits(job, ps);
    assert Visit(job, 0, ps, t, Some(|job.text|)) == At(ps, Some(|job.text|), t + 1);
    assert MatchesAt(job, 0, ps, t + 1, next) by {
      TextOf(job, ps);
    }
    LastMatch(job, 0, ps, t + 1, next, Some(|job.text|));
    assert MatchAll(job, 1, 1, Ended(job, 0, ps, t + 1, next), t, Some(|job.text|)).aborted == false;
  }

  lemma TextOf(job: Job, ps: seq<Piece>)
    requires job.Valid() && Tiles(job, ps)
    ensures FlattenAll(ps) == job.text
  {
  }

  lemma SwallowedVisit(job: Job, ps: seq<Piece>, m: Match, last: seq<Piece>, t: nat)
    requires job.Valid() && |job.steps| == 2 && CauseIndex(job.steps, 1) == 1
    requires 1 < |ps| <= |job.text| && MatchesAt(job, 1, ps, 0, m)
    requires AffectedEnd(ps, 0, m.index + m.length) == |ps|
    requires t == if m.index == 0 then 0 else 1
    requires var cut := Ended(job, 1, ps, 0, m);
             && Tiles(job, cut) && t < |cut|
             && MatchAll(job, 0, 1, cut, t, Some(|job.text|)) == Outcome(last, Some(|job.text|), false)
    ensures Visit(job, 1, ps, 0, None) == At(last, None, t + 1)
  {
    hide Tiles, Ended, Decide, Cutting, AffectedEnd, MatchAll;
    var a, cut := Cut(0, |ps|, m.index, m.length), Ended(job, 1, ps, 0, m);
    TextOf(job, ps);
    OffsetEnds(ps);
    CutToEnd(job, 1, ps, 0, m);
    assert Replaced(job, 1, ps, 0, a) == Rematched(job, 1, cut, a, |job.text|) == Change(last, |job.text|);
    assert Visit(job, 1, ps, 0, None) == Landed(job, 1, ps, 0, a, None) == At(last, None, t + 1);
  }

  /** A match of the second pattern runs into a token of the first, and takes it out; the rematch
      it causes finds the match of the first pattern behind it. */
  lemma Swallowed(job: Job, ps: seq<Piece>, m: Match, next: Match, t: nat)
    requires job.Valid() && |job.steps| == 2 && CauseIndex(job.steps, 1) == 1 && Regular(job)
    requires 1 < |ps| && MatchesAt(job, 1, ps, 0, m) && m.index + m.length < |job.text|
    requires AffectedEnd(ps, 0, m.index + m.length) == |ps|
    requires job.steps[0].pattern.greedy && next.index < |job.text|
    requires MatchPattern(job.rx, job.steps[0].pattern, m.index + m.length, job.text) == Some(next)
    requires NoneFrom(job, 0, next.index + next.length) && NoneFrom(job, 1, m.index + m.length)
    requires t == if m.index == 0 then 0 else 1
    ensures var cut := Ended(job, 1, ps, 0, m);
            && TokenThenText(job, cut, t, m.index, m.index + m.length)
            && Walk(job, 1, ps, 0, None) == Outcome(Ended(job, 0, cut, t + 1, next), None, false)
  {
    hide Tiles, Regular, NoneFrom, Ended, Decide, Cutting, AffectedEnd, MatchAll, Visit;
    SolidFits(job, ps);
    CutToEnd(job, 1, ps, 0, m);
    EndedShape(job, 1, ps, m);
    var cut := Ended(job, 1, ps, 0, m);
    RematchFinds(job, cut, t, m.index, m.index + m.length, next);
    var last := Ended(job, 0, cut, t + 1, next);
    SwallowedVisit(job, ps, m, last, t);
    SolidFits(job, last);
    NothingMore(job, 1, last, t + 1, None);
  }

  lemma AffectsAll(ps: seq<Piece>, to: nat)
    requires 2 <= |ps| <= 3 && ps[0].Text? && (|ps| == 3 ==> ps[2].Text?)
    requires Offset(ps, 1) < to <= |FlattenAll(ps)|
    ensures AffectedEnd(ps, 0, to) == |ps|
  {
    hide Offset, FlattenAll;
    assert AffectedEnd(ps, 2, to) == |ps|;
    assert AffectedEnd(ps, 0, to) == AffectedEnd(ps, 1, to) == AffectedEnd(ps, 2, to);
  }

  /** The list after the first pattern: all of it is affected by a match that begins in its first
      piece and runs into its token. */
  lemma AllAffected(job: Job, text: seq<Piece>, first: Match, to: nat)
    requires job.Valid() && |job.steps| > 0 && text == [Text(job.text)]
    requires 0 < first.index < to <= |job.text| && first.index + first.length <= |job.text|
    requires Tiles(job, Ended(job, 0, text, 0, first))
    ensures var ps := Ended(job, 0, text, 0, first);
            && |ps| > 1 && ps[0].Text? && Offset(ps, 1) == first.index
            && AffectedEnd(ps, 0, to) == |ps|
  {
    hide Tiles, NewToken, FlattenAll, AffectedEnd;
    var end := first.index + first.length;
    var tok := NewToken(job, job.steps[0], job.text[first.index..end]);
    OffsetEnds(text);
    var ps := Ended(job, 0, text, 0, first);
    assert job.text[0..first.index] == job.text[..first.index];
    assert ps == [Text(job.text[..first.index]), tok] + Plain(job.text[end..]);
    TextOf(job, ps);
    OffsetEnds(ps);
    OffsetStep(ps, 0);
    AffectsAll(ps, to);
  }

  /** With two greedy patterns, when a match of the second begins before the first match of the
      first and runs into it, the second's token stands, and the first pattern is matched anew
      behind it. So a quote inside a comment does not hide the string that follows, although
      strings are looked for first. */
  lemma SwallowedThenFound(rx: Oracle, text: string, g: Grammar, first: Match, m: Match, next: Match)
    requires InRange(rx) && DistinctNames(Merged(g)) && |Steps(Merged(g))| == 2
    requires var job := JobFor(rx, text, g);
             && Regular(job) && job.steps[0].pattern.greedy && job.steps[1].pattern.greedy
             && MatchPattern(rx, job.steps[0].pattern, 0, text) == Some(first)
             && MatchPattern(rx, job.steps[1].pattern, 0, text) == Some(m)
             && m.index < first.index < m.index + m.length < |text|
             && MatchPattern(rx, job.steps[0].pattern, m.index + m.length, text) == Some(next)
             && next.index < |text|
             && NoneFrom(job, 0, first.index + first.length) && NoneFrom(job, 0, next.index + next.length)
             && NoneFrom(job, 1, m.index + m.length)
    ensures var job := JobFor(rx, text, g);
            Tokenize(rx, text, g)
            == Plain(text[..m.index])
               + [NewToken(job, job.steps[1], text[m.index..m.index + m.length])]
               + Plain(text[m.index + m.length..next.index])
               + [NewToken(job, job.steps[0], text[next.index..next.index + next.length])]
               + Plain(text[next.index + next.length..])
  {
    hide Tiles, Regular, NoneFrom, AffectedEnd, NewToken, Ended;
    var job, ps := JobFor(rx, text, g), [Text(text)];
    var t := if m.index == 0 then 0 else 1;
    RematchStopsAtCause(Merged(g), 1);
    OneText(job);
    OffsetEnds(ps);
    assert Offset(ps, 1) == |text|;
    LastMatch(job, 0, ps, 0, first, None);
    var ps1 := Ended(job, 0, ps, 0, first);
    AllAffected(job, ps, first, m.index + m.length);
    Swallowed(job, ps1, m, next, t);
    var last := Ended(job, 0, Ended(job, 1, ps1, 0, m), t + 1, next);
    assert MatchAll(job, 2, 2, last, 0, None).ps == last;
    assert MatchAll(job, 1, 2, ps1, 0, None).ps == last;
    assert MatchAll(job, 0, 2, ps, 0, None).ps == last;
    EndedTwice(job, ps1, m, next, t);
  }

  lemma EndedTwice(job: Job, ps: seq<Piece>, m: Match, next: Match, t: nat)
    requires job.Valid() && |job.steps| == 2 && ps != [] && t == if m.index == 0 then 0 else 1
    requires m.index + m.length <= next.index && next.index + next.length <= |job.text|
    requires m.index + m.length < |job.text|
    requires var cut := Ended(job, 1, ps, 0, m); t + 2 == |cut| && Offset(cut, t + 1) == m.index + m.length
    ensures Ended(job, 0, Ended(job, 1, ps, 0, m), t + 1, next)
            == Plain(job.text[..m.index])
               + [NewToken(job, job.steps[1], job.text[m.index..m.index + m.length])]
               + Plain(job.text[m.index + m.length..next.index])
               + [NewToken(job, job.steps[0], job.text[next.index..next.index + next.length])]
               + Plain(job.text[next.index + next.length..])
  {
    hide NewToken, Plain;
    var cut, end := Ended(job, 1, ps, 0, m), m.index + m.length;
    var tok := NewToken(job, job.steps[1], job.text[m.index..end]);
    var tok' := NewToken(job, job.steps[0], job.text[next.index..next.index + next.length]);
    OffsetEnds(ps);
    assert job.text[0..m.index] == job.text[..m.index];
    PlainOne(job.text[..m.index]);
    PlainOne(job.text[end..]);
    TwoTokens(cut, t, Plain(job.text[..m.index]), tok, Plain(job.text[end..]),
              Plain(job.text[end..next.index]), tok', Plain(job.text[next.index + next.length..]));
  }

  lemma TwoTokens<T>(cut: seq<T>, t: nat, a: seq<T>, x: T, b: seq<T>, c: seq<T>, y: T, d: seq<T>)
    requires cut == a + [x] + b && t == |a|
    ensures cut[..t + 1] + (c + [y] + d) == a + [x] + c + [y] + d
  {
    assert cut[..t + 1] == a + [x];
  }
}
