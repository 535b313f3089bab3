/** No reported match is passed over: what a walk makes of every plain piece, from what the oracle
    reports on it. */
module PrismComplete {
  import opened Wrappers
  import opened PrismTokens
  import opened PrismGrammar
  import opened PrismWalk
  import opened PrismTheorems

  /** The token of a step for some text: with a grammar inside, its content is tokenized in turn. */
  ghost predicate IsToken(job: Job, st: Step, p: Piece, str: string)
    requires job.Valid()
  {
    && p.Token? && p.kind == st.kind && p.alias == st.pattern.alias && p.length == |str|
    && match st.pattern.inside
       case None => p.content == Leaf(str)
       case Some(g) => p.content == Nested(Tokenize(job.rx, str, g))
  }

  lemma NewTokenIs(job: Job, j: nat, str: string)
    requires job.Valid() && j < |job.steps|
    ensures IsToken(job, job.steps[j], NewToken(job, job.steps[j], str), str)
  {
  }

  lemma TokenText(job: Job, st: Step, p: Piece, str: string)
    requires job.Valid() && IsToken(job, st, p, str)
    ensures Flatten(p) == str
  {
  }

  // ----- patterns that look at one piece

  /** What a step without `greedy` makes of a plain text: the text before its match, the token, and
      what it makes of the text behind; all of the text when nothing is reported. */
  ghost predicate Worked(job: Job, st: Step, s: string, qs: seq<Piece>)
    requires job.Valid()
    decreases |qs|
  {
    match MatchPattern(job.rx, st.pattern, 0, s)
    case None => qs == [Text(s)]
    case Some(m) =>
      var end, before := m.index + m.length, Plain(s[..m.index]);
      && |qs| > |before| && qs[..|before|] == before
      && IsToken(job, st, qs[|before|], s[m.index..end])
      && (if end == |s| then |qs| == |before| + 1 else Worked(job, st, s[end..], qs[|before| + 1..]))
  }

  /** What it makes of a list: tokens stay, and every plain piece is worked on. */
  ghost predicate WorkedAll(job: Job, st: Step, ps: seq<Piece>, r: seq<Piece>)
    requires job.Valid()
    decreases |ps|
  {
    if ps == [] then r == []
    else
      exists qs, rest :: r == qs + rest && WorkedOne(job, st, ps[0], qs) && WorkedAll(job, st, ps[1..], rest)
  }

  ghost predicate WorkedOne(job: Job, st: Step, p: Piece, qs: seq<Piece>)
    requires job.Valid()
  {
    if p.Token? then qs == [p] else Worked(job, st, p.s, qs)
  }

  lemma WorkedAllMore(job: Job, st: Step, p: Piece, ps: seq<Piece>, qs: seq<Piece>, rest: seq<Piece>)
    requires job.Valid() && WorkedOne(job, st, p, qs) && WorkedAll(job, st, ps, rest)
    ensures WorkedAll(job, st, [p] + ps, qs + rest)
  {
    hide WorkedOne;
    assert ([p] + ps)[1..] == ps;
  }

  lemma WorkedAllFirst(job: Job, st: Step, p: Piece, ps: seq<Piece>, r: seq<Piece>)
    returns (qs: seq<Piece>, rest: seq<Piece>)
    requires job.Valid() && WorkedAll(job, st, [p] + ps, r)
    ensures r == qs + rest && WorkedOne(job, st, p, qs) && WorkedAll(job, st, ps, rest)
  {
    hide WorkedOne;
    assert ([p] + ps)[1..] == ps;
    qs, rest :| r == qs + rest && WorkedOne(job, st, p, qs) && WorkedAll(job, st, ps, rest);
  }

  lemma WorkedMatch(job: Job, st: Step, s: string, m: Match, tok: Piece, qs: seq<Piece>)
    requires job.Valid() && MatchPattern(job.rx, st.pattern, 0, s) == Some(m)
    requires IsToken(job, st, tok, s[m.index..m.index + m.length])
    requires if m.index + m.length == |s| then qs == [] else Worked(job, st, s[m.index + m.length..], qs)
    ensures Worked(job, st, s, Plain(s[..m.index]) + [tok] + qs)
  {
    hide IsToken, Plain;
    var before := Plain(s[..m.index]);
    var r := before + [tok] + qs;
    assert r[..|before|] == before && r[|before|] == tok && r[|before| + 1..] == qs;
  }

  /** One turn of the walk at a plain piece with a match. */
  lemma CutTurn(job: Job, j: nat, ps: seq<Piece>, i: nat, m: Match) returns (tok: Piece, next: seq<Piece>)
    requires job.Valid() && j < |job.steps| && !job.steps[j].pattern.greedy
    requires Tiles(job, ps) && i < |ps| <= |job.text| && ps[i].Text?
    requires MatchPattern(job.rx, job.steps[j].pattern, 0, ps[i].s) == Some(m)
    ensures var s, end := ps[i].s, m.index + m.length;
            && end <= |s| && IsToken(job, job.steps[j], tok, s[m.index..end])
            && next == ps[..i] + (Plain(s[..m.index]) + [tok] + Plain(s[end..])) + ps[i + 1..]
            && Visit(job, j, ps, i, None) == At(next, None, i + |Plain(s[..m.index])| + 1)
  {
    hide Tiles, Decide, Cutting, NewToken, IsToken, FlattenAll;
    var a, s := Cut(i, i + 1, m.index, m.length), ps[i].s;
    CutDecided(job, j, ps, i, m);
    tok := NewToken(job, job.steps[j], s[m.index..m.index + m.length]);
    NewTokenIs(job, j, s[m.index..m.index + m.length]);
    next := Cutting(job, j, ps, i, a);
    CutSpelled(job, j, ps, i, m);
    assert Replaced(job, j, ps, i, a) == Rematched(job, j, next, a, Offset(ps, i + 1));
    assert Visit(job, j, ps, i, None) == Landed(job, j, ps, i, a, None);
  }

  lemma CutDecided(job: Job, j: nat, ps: seq<Piece>, i: nat, m: Match)
    requires job.Valid() && j < |job.steps| && !job.steps[j].pattern.greedy
    requires Tiles(job, ps) && i < |ps| && ps[i].Text?
    requires MatchPattern(job.rx, job.steps[j].pattern, 0, ps[i].s) == Some(m)
    ensures Decide(job, j, ps, i) == Cut(i, i + 1, m.index, m.length)
    ensures m.index + m.length <= |ps[i].s|
  {
  }

  lemma CutSpelled(job: Job, j: nat, ps: seq<Piece>, i: nat, m: Match)
    requires job.Valid() && j < |job.steps| && Tiles(job, ps) && i < |ps| && ps[i].Text?
    requires m.index + m.length <= |ps[i].s| && Applies(job, j, ps, i, Cut(i, i + 1, m.index, m.length))
    ensures var s, end := ps[i].s, m.index + m.length;
            Cutting(job, j, ps, i, Cut(i, i + 1, m.index, m.length))
            == ps[..i] + (Plain(s[..m.index]) + [NewToken(job, job.steps[j], s[m.index..end])] + Plain(s[end..]))
               + ps[i + 1..]
  {
    hide NewToken, Applies, Plain, FlattenAll, Offset;
    var a := Cut(i, i + 1, m.index, m.length);
    TextOf(job, ps);
    OffsetStep(ps, i);
    hide Tiles;
    CutWithin(job, j, ps, i, a);
    assert CutText(job.text, ps, a) == ps[i].s;
  }

  lemma SkipTurn(job: Job, j: nat, ps: seq<Piece>, i: nat)
    requires job.Valid() && j < |job.steps| && !job.steps[j].pattern.greedy
    requires Tiles(job, ps) && i < |ps| <= |job.text|
    requires ps[i].Text? ==> MatchPattern(job.rx, job.steps[j].pattern, 0, ps[i].s) == None
    ensures Visit(job, j, ps, i, None) == At(ps, None, i + 1)
  {
  }

  /** A walk that runs to its end works on every piece from where it begins. */
  lemma {:induction false} WalkWorks(job: Job, j: nat, ps: seq<Piece>, i: nat)
    requires job.Valid() && j < |job.steps| && !job.steps[j].pattern.greedy
    requires Tiles(job, ps) && i <= |ps| && !Walk(job, j, ps, i, None).aborted
    ensures var r := Walk(job, j, ps, i, None).ps;
            |r| >= i && r[..i] == ps[..i] && WorkedAll(job, job.steps[j], ps[i..], r[i..])
    decreases TextLeft(job, ps, i), Slack(job, ps), |ps| - i
  {
    hide Tiles, Worked, IsToken, Visit, FlattenAll, MatchPattern, Plain;
    var st, r := job.steps[j], Walk(job, j, ps, i, None).ps;
    if i == |ps| {
      WalkEnds(job, j, ps);
    } else {
      NotAborted(job, j, ps, i);
      if ps[i].Text? && MatchPattern(job.rx, st.pattern, 0, ps[i].s).Some? {
        MatchWorks(job, j, ps, i);
      } else {
        SkipTurn(job, j, ps, i);
        WalkWorks(job, j, ps, i + 1);
        SkipWorks(job, st, ps, i, r);
      }
    }
  }

  lemma WalkEnds(job: Job, j: nat, ps: seq<Piece>)
    requires job.Valid() && j < |job.steps| && Tiles(job, ps)
    ensures Walk(job, j, ps, |ps|, None) == Outcome(ps, None, false)
  {
  }

  lemma NotAborted(job: Job, j: nat, ps: seq<Piece>, i: nat)
    requires job.Valid() && j < |job.steps| && Tiles(job, ps) && i < |ps|
    requires !Walk(job, j, ps, i, None).aborted
    ensures |ps| <= |job.text|
  {
  }

  lemma SkipWorks(job: Job, st: Step, ps: seq<Piece>, i: nat, r: seq<Piece>)
    requires job.Valid() && i < |ps| && i < |r| && r[..i + 1] == ps[..i + 1]
    requires ps[i].Text? ==> MatchPattern(job.rx, st.pattern, 0, ps[i].s) == None
    requires WorkedAll(job, st, ps[i + 1..], r[i + 1..])
    ensures r[..i] == ps[..i] && WorkedAll(job, st, ps[i..], r[i..])
  {
    hide WorkedAll;
    assert r[..i] == r[..i + 1][..i] && ps[..i] == ps[..i + 1][..i];
    assert r[i] == r[..i + 1][i] == ps[..i + 1][i] == ps[i];
    WorkedAllMore(job, st, ps[i], ps[i + 1..], [ps[i]], r[i + 1..]);
    assert [ps[i]] + ps[i + 1..] == ps[i..] && [ps[i]] + r[i + 1..] == r[i..];
  }

  lemma {:induction false} MatchWorks(job: Job, j: nat, ps: seq<Piece>, i: nat)
    requires job.Valid() && j < |job.steps| && !job.steps[j].pattern.greedy
    requires Tiles(job, ps) && i < |ps| <= |job.text| && !Walk(job, j, ps, i, None).aborted
    requires ps[i].Text? && MatchPattern(job.rx, job.steps[j].pattern, 0, ps[i].s).Some?
    ensures var r := Walk(job, j, ps, i, None).ps;
            |r| >= i && r[..i] == ps[..i] && WorkedAll(job, job.steps[j], ps[i..], r[i..])
    decreases TextLeft(job, ps, i), Slack(job, ps), |ps| - i, 0
  {
    hide Tiles, Worked, WorkedAll, IsToken, Visit, FlattenAll, MatchPattern, Plain;
    var st, s := job.steps[j], ps[i].s;
    var m := MatchPattern(job.rx, st.pattern, 0, s).value;
    var tok, next := CutTurn(job, j, ps, i, m);
    var t := i + |Plain(s[..m.index])| + 1;
    assert Tiles(job, next) && t <= |next| && Onward(job, ps, i, next, t) by {
      assert Visit(job, j, ps, i, None) == At(next, None, t);
    }
    var w := Walk(job, j, next, t, None);
    assert Walk(job, j, ps, i, None).ps == w.ps && !w.aborted by {
      WalkGoesOn(job, j, ps, i, None, next, t, None);
    }
    WalkWorks(job, j, next, t);
    MatchJoins(job, st, ps, i, m, tok, next, w.ps);
  }

  lemma WalkGoesOn(job: Job, j: nat, ps: seq<Piece>, i: nat, reach: Option<nat>,
      next: seq<Piece>, t: nat, reach': Option<nat>)
    requires job.Valid() && j < |job.steps| && Tiles(job, ps) && i <= |ps|
    requires Visit(job, j, ps, i, reach) == At(next, reach', t)
    ensures Tiles(job, next) && t <= |next|
    ensures Walk(job, j, ps, i, reach) == Walk(job, j, next, t, reach')
  {
    hide Tiles, Visit, Kept, Onward;
  }

  lemma MatchJoins(job: Job, st: Step, ps: seq<Piece>, i: nat, m: Match, tok: Piece, next: seq<Piece>, r: seq<Piece>)
    requires job.Valid() && i < |ps| && ps[i].Text?
    requires MatchPattern(job.rx, st.pattern, 0, ps[i].s) == Some(m)
    requires var s, end := ps[i].s, m.index + m.length;
             && IsToken(job, st, tok, s[m.index..end])
             && next == ps[..i] + (Plain(s[..m.index]) + [tok] + Plain(s[end..])) + ps[i + 1..]
             && var t := i + |Plain(s[..m.index])| + 1;
                |r| >= t && r[..t] == next[..t] && WorkedAll(job, st, next[t..], r[t..])
    ensures |r| >= i && r[..i] == ps[..i] && WorkedAll(job, st, ps[i..], r[i..])
  {
    hide WorkedAll, Worked, IsToken;
    var s, end := ps[i].s, m.index + m.length;
    var before, after := Plain(s[..m.index]), Plain(s[end..]);
    var t := i + |before| + 1;
    FrontsAgree(ps[..i], before, tok, after, ps[i + 1..], next, r, t);
    var qs, rest;
    if end == |s| {
      qs, rest := [], r[t..];
      assert after + ps[i + 1..] == ps[i + 1..];
    } else {
      qs, rest := WorkedAllFirst(job, st, Text(s[end..]), ps[i + 1..], r[t..]);
      assert after == [Text(s[end..])];
    }
    WorkedMatch(job, st, s, m, tok, qs);
    WorkedAllMore(job, st, ps[i], ps[i + 1..], before + [tok] + qs, rest);
    assert |ps[..i]| == i && [ps[i]] + ps[i + 1..] == ps[i..];
    assert r[t..] == qs + rest;
    assert before + [tok] + qs + rest == before + [tok] + (qs + rest) == r[i..];
  }

  lemma FrontsAgree<T>(f: seq<T>, b: seq<T>, x: T, a: seq<T>, rest: seq<T>, next: seq<T>, r: seq<T>, t: nat)
    requires next == f + (b + [x] + a) + rest && t == |f| + |b| + 1
    requires |r| >= t && r[..t] == next[..t]
    ensures next[t..] == a + rest && r[..|f|] == f && r[|f|..] == b + [x] + r[t..]
  {
    assert next[..t] == f + b + [x];
    assert r == r[..t] + r[t..];
  }

  // ----- what that means for every plain piece

  lemma {:induction false} WorkedText(job: Job, st: Step, s: string, qs: seq<Piece>)
    requires job.Valid() && Worked(job, st, s, qs)
    ensures FlattenAll(qs) == s
    decreases |qs|
  {
    hide IsToken, Plain;
    match MatchPattern(job.rx, st.pattern, 0, s)
    case None => FlattenOne(Text(s));
    case Some(m) =>
      var end, before := m.index + m.length, Plain(s[..m.index]);
      var tok, rest := qs[|before|], qs[|before| + 1..];
      TokenText(job, st, tok, s[m.index..end]);
      PlainText(s[..m.index]);
      FlattenOne(tok);
      FlattenThree(before, [tok], rest);
      assert qs == before + [tok] + rest;
      if end < |s| {
        WorkedText(job, st, s[end..], rest);
      } else {
        assert rest == [] && FlattenAll(rest) == "";
      }
      assert s == s[..m.index] + s[m.index..end] + s[end..];
  }

  lemma WorkedOneText(job: Job, st: Step, p: Piece, qs: seq<Piece>)
    requires job.Valid() && WorkedOne(job, st, p, qs)
    ensures FlattenAll(qs) == Flatten(p)
  {
    hide Worked;
    if p.Token? {
      FlattenOne(p);
    } else {
      WorkedText(job, st, p.s, qs);
    }
  }

  /** Piece `k` is worked on where it stood: the list is made of what comes of those before it, of
      it, and of those behind it. */
  lemma {:induction false} WorkedAt(job: Job, st: Step, ps: seq<Piece>, r: seq<Piece>, k: nat)
    returns (before: seq<Piece>, qs: seq<Piece>, behind: seq<Piece>)
    requires job.Valid() && WorkedAll(job, st, ps, r) && k < |ps|
    ensures r == before + qs + behind && WorkedOne(job, st, ps[k], qs)
    ensures |FlattenAll(before)| == Offset(ps, k)
    decreases |ps|
  {
    hide WorkedOne, FlattenAll;
    var first, rest :| r == first + rest && WorkedOne(job, st, ps[0], first) && WorkedAll(job, st, ps[1..], rest);
    if k == 0 {
      before, qs, behind := [], first, rest;
      NoText();
      assert r == [] + first + rest && ps[..0] == [];
    } else {
      var front;
      front, qs, behind := WorkedAt(job, st, ps[1..], rest, k - 1);
      before := first + front;
      assert r == first + front + qs + behind;
      WorkedOneText(job, st, ps[0], first);
      FlattenConcat(first, front);
      FlattenConcat([ps[0]], ps[1..][..k - 1]);
      FlattenOne(ps[0]);
      assert ps[..k] == [ps[0]] + ps[1..][..k - 1];
    }
  }

  lemma NoText()
    ensures FlattenAll([]) == ""
  {
  }

  /** The result holds the token of a step for `str` at `o`. */
  ghost predicate HoldsToken(job: Job, st: Step, r: seq<Piece>, o: nat, str: string)
    requires job.Valid()
  {
    exists n: nat :: n < |r| && Offset(r, n) == o && IsToken(job, st, r[n], str)
  }

  /** The result holds the piece at `o`. */
  predicate HoldsPiece(r: seq<Piece>, o: nat, p: Piece) {
    exists n: nat :: n < |r| && Offset(r, n) == o && r[n] == p
  }

  lemma OffsetWithin(before: seq<Piece>, qs: seq<Piece>, behind: seq<Piece>, n: nat)
    requires n <= |qs|
    ensures Offset(before + qs + behind, |before| + n) == |FlattenAll(before)| + |FlattenAll(qs[..n])|
  {
    hide FlattenAll;
    FlattenConcat(before, qs[..n]);
    assert (before + qs + behind)[..|before| + n] == before + qs[..n];
  }

  /** Over every walk from the first piece on that runs to its end: where a pattern without `greedy`
      is reported to match the text of a plain piece, the result holds the token of that match, in
      its place; where it is not, the piece itself; and every token is kept. */
  lemma NoMatchPassedOver(job: Job, j: nat, ps: seq<Piece>, k: nat)
    requires job.Valid() && j < |job.steps| && !job.steps[j].pattern.greedy
    requires Tiles(job, ps) && k < |ps| && !Walk(job, j, ps, 0, None).aborted
    ensures var r, st := Walk(job, j, ps, 0, None).ps, job.steps[j];
            if ps[k].Token? then HoldsPiece(r, Offset(ps, k), ps[k])
            else match MatchPattern(job.rx, st.pattern, 0, ps[k].s)
                 case None => HoldsPiece(r, Offset(ps, k), ps[k])
                 case Some(m) =>
                   HoldsToken(job, st, r, Offset(ps, k) + m.index, ps[k].s[m.index..m.index + m.length])
  {
    hide Tiles, WorkedAll, FlattenAll, IsToken, Plain, Walk, MatchPattern, Offset;
    var r, st := Walk(job, j, ps, 0, None).ps, job.steps[j];
    WalkWorks(job, j, ps, 0);
    assert ps[0..] == ps && r[0..] == r;
    var before, qs, behind := WorkedAt(job, st, ps, r, k);
    var n := if ps[k].Text? && MatchPattern(job.rx, st.pattern, 0, ps[k].s).Some?
             then |Plain(ps[k].s[..MatchPattern(job.rx, st.pattern, 0, ps[k].s).value.index])| else 0;
    OffsetWithin(before, qs, behind, n);
    if n > 0 || (ps[k].Text? && MatchPattern(job.rx, st.pattern, 0, ps[k].s).Some?) {
      PlainText(ps[k].s[..MatchPattern(job.rx, st.pattern, 0, ps[k].s).value.index]);
    } else {
      assert qs[..0] == [];
      NoText();
    }
    assert r[|before| + n] == qs[n];
  }

  // ----- all patterns without `greedy`

  /** The lists after each pattern. */
  ghost predicate WorkedThrough(job: Job, pss: seq<seq<Piece>>)
    requires job.Valid()
  {
    |pss| == |job.steps| + 1 && forall j | 0 <= j < |job.steps| :: WorkedAll(job, job.steps[j], pss[j], pss[j + 1])
  }

  lemma {:induction false} MatchAllWorks(job: Job, j: nat, ps: seq<Piece>) returns (pss: seq<seq<Piece>>)
    requires job.Valid() && j <= |job.steps| && Tiles(job, ps) && Regular(job) && job.text != ""
    requires forall n | j <= n < |job.steps| :: !job.steps[n].pattern.greedy
    ensures |pss| == |job.steps| + 1 - j && pss[0] == ps
    ensures forall n | j <= n < |job.steps| :: WorkedAll(job, job.steps[n], pss[n - j], pss[n - j + 1])
    ensures MatchAll(job, j, |job.steps|, ps, 0, None).ps == pss[|pss| - 1]
    decreases |job.steps| - j
  {
    hide Tiles, Regular, WorkedAll, Walk;
    if j == |job.steps| {
      pss := [ps];
    } else {
      var w := Walk(job, j, ps, 0, None);
      AbortNeverFires(job, j, |job.steps|, ps, 0, None);
      WalkWorks(job, j, ps, 0);
      assert ps[0..] == ps && w.ps[0..] == w.ps;
      assert w.reach == None;
      var rest := MatchAllWorks(job, j + 1, w.ps);
      pss := [ps] + rest;
      forall n | j <= n < |job.steps| ensures WorkedAll(job, job.steps[n], pss[n - j], pss[n - j + 1]) {
        if n > j {
          assert pss[n - j] == rest[n - (j + 1)] && pss[n - j + 1] == rest[n - (j + 1) + 1];
        }
      }
    }
  }

  /** A nonempty text under a grammar whose patterns are all without `greedy` and none of which
      matches the empty string: tokenizing works through the patterns one after the other, each on
      every plain piece the ones before have left. */
  lemma TokenizeWorks(rx: Oracle, text: string, g: Grammar) returns (pss: seq<seq<Piece>>)
    requires InRange(rx) && text != "" && Regular(JobFor(rx, text, g))
    requires forall st | st in Steps(Merged(g)) :: !st.pattern.greedy
    ensures WorkedThrough(JobFor(rx, text, g), pss)
    ensures pss[0] == [Text(text)] && pss[|pss| - 1] == Tokenize(rx, text, g)
  {
    hide WorkedAll, Tiles, Regular;
    var job := JobFor(rx, text, g);
    OneText(job);
    pss := MatchAllWorks(job, 0, [Text(text)]);
  }

  /** With a single pattern the result is what that pattern makes of the text. */
  lemma TokenizeOne(rx: Oracle, text: string, g: Grammar)
    requires InRange(rx) && text != "" && Regular(JobFor(rx, text, g))
    requires |Steps(Merged(g))| == 1 && !Steps(Merged(g))[0].pattern.greedy
    ensures Worked(JobFor(rx, text, g), Steps(Merged(g))[0], text, Tokenize(rx, text, g))
  {
    hide Worked, Tiles, Regular;
    var job := JobFor(rx, text, g);
    var pss := TokenizeWorks(rx, text, g);
    assert WorkedAll(job, job.steps[0], pss[0], pss[1]);
    assert [Text(text)] == [Text(text)] + [];
    var qs, rest := WorkedAllFirst(job, job.steps[0], Text(text), [], pss[1]);
    assert rest == [] && qs + [] == qs;
  }

  // ----- greedy patterns

  /** The greedy pattern, asked from a plain piece on, is reported nowhere in the text. */
  ghost predicate ReportedNowhere(job: Job, j: nat, o: nat)
    requires job.Valid() && j < |job.steps| && o <= |job.text|
  {
    var m := MatchPattern(job.rx, job.steps[j].pattern, o, job.text);
    m.None? || m.value.index >= |job.text|
  }

  /** Then the pattern is done. */
  lemma GreedyNowhere(job: Job, j: nat, ps: seq<Piece>, i: nat, reach: Option<nat>)
    requires job.Valid() && j < |job.steps| && job.steps[j].pattern.greedy
    requires Tiles(job, ps) && i < |ps| <= |job.text| && ps[i].Text? && Offset(ps, i) <= |job.text|
    requires ReportedNowhere(job, j, Offset(ps, i))
    ensures Walk(job, j, ps, i, reach) == Outcome(ps, reach, false)
  {
    hide Sourced, AllSized, AllNamed, Solid;
    assert Visit(job, j, ps, i, reach) == Done(ps, reach, false);
  }

  lemma ContainingIs(ps: seq<Piece>, i: nat, k: nat, at: nat)
    requires i <= k < |ps| && Offset(ps, k) <= at < Offset(ps, k + 1)
    ensures Offset(ps, i) <= at < |FlattenAll(ps)| && Containing(ps, i, at) == k
    decreases k - i
  {
    hide FlattenAll;
    OffsetEnds(ps);
    FlattenSlice(ps, i, k);
    FlattenSlice(ps, k + 1, |ps|);
    if i < k {
      FlattenSlice(ps, i + 1, k);
      ContainingIs(ps, i + 1, k, at);
    }
  }

  /** When the match begins in a token, the walk goes on behind that token. */
  lemma GreedyInToken(job: Job, j: nat, ps: seq<Piece>, i: nat, k: nat, m: Match, reach: Option<nat>)
    requires job.Valid() && j < |job.steps| && job.steps[j].pattern.greedy
    requires Tiles(job, ps) && i <= k < |ps| <= |job.text| && ps[i].Text? && ps[k].Token?
    requires Offset(ps, i) <= |job.text| && (reach.Some? ==> Offset(ps, i) < reach.value)
    requires MatchPattern(job.rx, job.steps[j].pattern, Offset(ps, i), job.text) == Some(m)
    requires Offset(ps, k) <= m.index < Offset(ps, k + 1)
    ensures Walk(job, j, ps, i, reach) == Walk(job, j, ps, k + 1, reach)
  {
    hide Tiles, Decide, Visit, Walk, FlattenAll, Offset;
    SkipDecided(job, j, ps, i, k, m);
    VisitSkips(job, j, ps, i, k, reach);
    WalkGoesOn(job, j, ps, i, reach, ps, k + 1, reach);
  }

  lemma VisitSkips(job: Job, j: nat, ps: seq<Piece>, i: nat, k: nat, reach: Option<nat>)
    requires job.Valid() && j < |job.steps| && Tiles(job, ps) && i <= k < |ps| <= |job.text|
    requires Decide(job, j, ps, i) == Skip(k) && (reach.Some? ==> Offset(ps, i) < reach.value)
    ensures Visit(job, j, ps, i, reach) == At(ps, reach, k + 1)
  {
    hide Tiles, Decide, FlattenAll, Offset, Kept, Onward, Heeds, Applies;
  }

  lemma SkipDecided(job: Job, j: nat, ps: seq<Piece>, i: nat, k: nat, m: Match)
    requires job.Valid() && j < |job.steps| && job.steps[j].pattern.greedy
    requires Tiles(job, ps) && i <= k < |ps| && ps[i].Text? && ps[k].Token? && Offset(ps, i) <= |job.text|
    requires MatchPattern(job.rx, job.steps[j].pattern, Offset(ps, i), job.text) == Some(m)
    requires Offset(ps, k) <= m.index < Offset(ps, k + 1)
    ensures Decide(job, j, ps, i) == Skip(k)
  {
    TextOf(job, ps);
    ContainingIs(ps, i, k, m.index);
    hide FlattenAll, Offset, Applies, Heeds, MatchPattern;
  }

  /** When it begins in a plain piece, the result of the walk holds the token of the match. */
  lemma GreedyInPlain(job: Job, j: nat, ps: seq<Piece>, i: nat, k: nat, m: Match, reach: Option<nat>)
    requires job.Valid() && j < |job.steps| && job.steps[j].pattern.greedy
    requires Tiles(job, ps) && i <= k < |ps| <= |job.text| && ps[i].Text? && ps[k].Text?
    requires Offset(ps, i) <= |job.text| && (reach.Some? ==> Offset(ps, i) < reach.value)
    requires MatchPattern(job.rx, job.steps[j].pattern, Offset(ps, i), job.text) == Some(m)
    requires Offset(ps, k) <= m.index < Offset(ps, k + 1)
    ensures HoldsToken(job, job.steps[j], Walk(job, j, ps, i, reach).ps, m.index,
                       job.text[m.index..m.index + m.length])
  {
    hide Tiles, Offset, IsToken, Decide, Cutting, FlattenAll, Applies, Visit;
    var a := GreedyCut(job, j, ps, i, k, m);
    var t, cut := TokenIndex(a), Cutting(job, j, ps, i, a);
    GreedyToken(job, j, ps, i, m, a);
    var s := CutVisit(job, j, ps, i, reach);
    var r := Walk(job, j, ps, i, reach).ps;
    assert r[..t + 1] == s.ps[..t + 1] == cut[..t + 1];
    KeptFront(cut, r, t);
  }

  lemma CutVisit(job: Job, j: nat, ps: seq<Piece>, i: nat, reach: Option<nat>) returns (s: Stand)
    requires job.Valid() && j < |job.steps| && Tiles(job, ps) && i < |ps| <= |job.text|
    requires Decide(job, j, ps, i).Cut? && (reach.Some? ==> Offset(ps, i) < reach.value)
    ensures s == Visit(job, j, ps, i, reach) && s.At?
    ensures var a := Decide(job, j, ps, i);
            var cut, t := Cutting(job, j, ps, i, a), TokenIndex(a);
            && s.next == t + 1 && t < |cut| && t < |s.ps| && s.ps[..t + 1] == cut[..t + 1]
  {
    hide Tiles, Offset, Decide, Cutting, FlattenAll, Applies, MatchAll;
    var a := Decide(job, j, ps, i);
    CutWithin(job, j, ps, i, a);
    s := Visit(job, j, ps, i, reach);
    assert s == Landed(job, j, ps, i, a, reach);
    var c := Replaced(job, j, ps, i, a);
    assert c == Rematched(job, j, Cutting(job, j, ps, i, a), a, Offset(ps, a.to));
  }

  lemma KeptFront(ps: seq<Piece>, r: seq<Piece>, t: nat)
    requires t < |ps| && t < |r| && r[..t + 1] == ps[..t + 1]
    ensures r[t] == ps[t] && Offset(r, t) == Offset(ps, t)
  {
    assert r[t] == r[..t + 1][t] == ps[..t + 1][t];
    assert r[..t] == r[..t + 1][..t] == ps[..t + 1][..t] == ps[..t];
  }

  lemma GreedyCut(job: Job, j: nat, ps: seq<Piece>, i: nat, k: nat, m: Match) returns (a: Action)
    requires job.Valid() && j < |job.steps| && job.steps[j].pattern.greedy
    requires Tiles(job, ps) && i <= k < |ps| && ps[i].Text? && ps[k].Text? && Offset(ps, i) <= |job.text|
    requires MatchPattern(job.rx, job.steps[j].pattern, Offset(ps, i), job.text) == Some(m)
    requires Offset(ps, k) <= m.index < Offset(ps, k + 1)
    ensures a == Decide(job, j, ps, i) && a.Cut? && a.from == k
    ensures a.at == m.index - Offset(ps, k) && a.len == m.length
  {
    hide Sourced, AllSized, AllNamed, Solid, Offset, FlattenAll;
    TextOf(job, ps);
    ContainingIs(ps, i, k, m.index);
    a := Decide(job, j, ps, i);
  }

  lemma PartOf(text: string, o: nat, end: nat, at: nat, len: nat)
    requires o + at + len <= end <= |text|
    ensures text[o..end][at..at + len] == text[o + at..o + at + len]
  {
    var a, b := text[o..end][at..at + len], text[o + at..o + at + len];
    forall k | 0 <= k < len ensures a[k] == b[k] {
      assert a[k] == text[o..end][at + k] == text[o + (at + k)];
    }
  }

  lemma GreedyToken(job: Job, j: nat, ps: seq<Piece>, i: nat, m: Match, a: Action)
    requires job.Valid() && j < |job.steps| && Tiles(job, ps)
    requires a.Cut? && Applies(job, j, ps, i, a) && m.index + m.length <= |job.text|
    requires a.at == m.index - Offset(ps, a.from) && a.len == m.length
    ensures var cut, t := Cutting(job, j, ps, i, a), TokenIndex(a);
            && t < |cut| && Offset(cut, t) == m.index
            && IsToken(job, job.steps[j], cut[t], job.text[m.index..m.index + m.length])
  {
    hide Applies, FlattenAll, NewToken, IsToken;
    TextOf(job, ps);
    CutWithin(job, j, ps, i, a);
    hide Tiles;
    var str := CutText(job.text, ps, a);
    PartOf(job.text, Offset(ps, a.from), Offset(ps, a.to), a.at, a.len);
    var tok := NewToken(job, job.steps[j], str[a.at..a.at + a.len]);
    NewTokenIs(job, j, str[a.at..a.at + a.len]);
    SplicedToken(job.text, ps, a, tok);
  }
}
