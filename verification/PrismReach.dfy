/** What a rematch leaves alone to its right: every piece that begins at or behind its reach. */
module PrismReach {
  import opened Wrappers
  import opened PrismTokens
  import opened PrismGrammar
  import opened PrismWalk

  /** The pieces from the `k`-th on still end the list. */
  predicate TailKept(ps: seq<Piece>, ps': seq<Piece>, k: nat)
    requires k <= |ps|
  {
    |ps| - k <= |ps'| && ps'[|ps'| - (|ps| - k)..] == ps[k..]
  }

  /** Every piece that begins at or behind `reach` is left alone, with all that follow it. */
  ghost predicate KeptBehind(ps: seq<Piece>, ps': seq<Piece>, reach: Option<nat>) {
    reach.Some? ==> forall k | 0 <= k <= |ps| && Offset(ps, k) >= reach.value :: TailKept(ps, ps', k)
  }

  lemma KeptBehindSame(ps: seq<Piece>, reach: Option<nat>)
    ensures KeptBehind(ps, ps, reach)
  {
  }

  /** A kept tail stands where it stood. */
  lemma TailOffset(ps: seq<Piece>, ps': seq<Piece>, k: nat)
    requires k <= |ps| && TailKept(ps, ps', k) && FlattenAll(ps) == FlattenAll(ps')
    ensures Offset(ps', |ps'| - (|ps| - k)) == Offset(ps, k)
  {
    hide FlattenAll;
    OffsetFromEnd(ps, k);
    OffsetFromEnd(ps', |ps'| - (|ps| - k));
  }

  lemma OffsetFromEnd(ps: seq<Piece>, k: nat)
    requires k <= |ps|
    ensures Offset(ps, k) + |FlattenAll(ps[k..])| == |FlattenAll(ps)|
  {
    hide FlattenAll;
    FlattenConcat(ps[..k], ps[k..]);
    assert ps[..k] + ps[k..] == ps;
  }

  lemma TailTwice(ps: seq<Piece>, ps': seq<Piece>, ps'': seq<Piece>, k: nat)
    requires k <= |ps| && TailKept(ps, ps', k)
    requires TailKept(ps', ps'', |ps'| - (|ps| - k))
    ensures TailKept(ps, ps'', k)
  {
  }

  lemma KeptBehindTwice(ps: seq<Piece>, ps': seq<Piece>, ps'': seq<Piece>, r: Option<nat>, r': Option<nat>)
    requires FlattenAll(ps) == FlattenAll(ps') && Grows(r, r')
    requires KeptBehind(ps, ps', r) && KeptBehind(ps', ps'', r')
    ensures KeptBehind(ps, ps'', r')
  {
    hide FlattenAll, TailKept, Offset;
    if r'.Some? {
      forall k | 0 <= k <= |ps| && Offset(ps, k) >= r'.value ensures TailKept(ps, ps'', k) {
        assert TailKept(ps, ps', k);
        TailFits(ps, ps', k);
        TailOffset(ps, ps', k);
        TailTwice(ps, ps', ps'', k);
      }
    }
  }

  lemma TailFits(ps: seq<Piece>, ps': seq<Piece>, k: nat)
    requires k <= |ps| && TailKept(ps, ps', k)
    ensures 0 <= |ps'| - (|ps| - k) <= |ps'|
  {
  }

  /** The last piece a cut takes out has some text. */
  lemma CutEndsLater(job: Job, j: nat, ps: seq<Piece>, i: nat)
    requires job.Valid() && j < |job.steps| && Tiles(job, ps) && job.text != ""
    requires i < |ps| && Decide(job, j, ps, i).Cut?
    ensures var a := Decide(job, j, ps, i); a.to <= |ps| && Offset(ps, a.to - 1) < Offset(ps, a.to)
  {
    hide Tiles, Applies, FlattenAll;
    var a := Decide(job, j, ps, i);
    CutWithin(job, j, ps, i, a);
    OffsetStep(ps, a.to - 1);
    if ps[a.to - 1].Token? {
      TokenLast(job, j, ps, i);
    } else {
      PlainSome(job, ps, a.to - 1);
    }
  }

  lemma PlainSome(job: Job, ps: seq<Piece>, k: nat)
    requires job.Valid() && Tiles(job, ps) && job.text != "" && k < |ps| && ps[k].Text?
    ensures Flatten(ps[k]) != ""
  {
  }

  /** When a token is the last piece cut out, the match ends in it. */
  lemma TokenLast(job: Job, j: nat, ps: seq<Piece>, i: nat)
    requires job.Valid() && j < |job.steps| && Tiles(job, ps)
    requires i < |ps| && Decide(job, j, ps, i).Cut?
    requires var a := Decide(job, j, ps, i); 0 < a.to <= |ps| && ps[a.to - 1].Token?
    ensures var a := Decide(job, j, ps, i); Offset(ps, a.to - 1) < Offset(ps, a.to)
  {
    hide Sourced, AllSized, AllNamed, Solid, Offset;
    var a := Decide(job, j, ps, i);
    var end := Offset(ps, a.from) + a.at + a.len;
    AffectedLast(ps, a.from, end);
  }

  lemma {:induction false} AffectedLast(ps: seq<Piece>, e: nat, to: nat)
    requires e < |ps| && to <= |FlattenAll(ps)| && AffectedEnd(ps, e, to) > e
    ensures var r := AffectedEnd(ps, e, to); ps[r - 1].Text? || Offset(ps, r - 1) < to <= Offset(ps, r)
  {
    hide FlattenAll, Offset;
    var r := AffectedEnd(ps, e, to);
    assert Offset(ps, r - 1) < to || ps[r - 1].Text?;
  }

  /** Pieces that begin at or behind the end of a cut come after it. */
  lemma BehindCut(ps: seq<Piece>, k: nat, to: nat)
    requires 0 < to <= |ps| && k <= |ps| && Offset(ps, to - 1) < Offset(ps, to) <= Offset(ps, k)
    ensures to <= k
  {
    if k < to {
      FlattenSlice(ps, k, to - 1);
    }
  }

  lemma SplicedTail(job: Job, j: nat, ps: seq<Piece>, i: nat)
    requires job.Valid() && j < |job.steps| && Tiles(job, ps) && job.text != ""
    requires i < |ps| && Decide(job, j, ps, i).Cut?
    ensures var a := Decide(job, j, ps, i);
            a.to <= |ps| && KeptBehind(ps, Cutting(job, j, ps, i, a), Some(Offset(ps, a.to)))
  {
    hide Tiles, Decide, Offset, NewToken, Applies;
    var a := Decide(job, j, ps, i);
    CutEndsLater(job, j, ps, i);
    CutWithin(job, j, ps, i, a);
    var r := Cutting(job, j, ps, i, a);
    forall k | 0 <= k <= |ps| && Offset(ps, k) >= Offset(ps, a.to) ensures TailKept(ps, r, k) {
      BehindCut(ps, k, a.to);
      BackKept(ps, r, a.to, k);
    }
  }

  lemma BackKept(ps: seq<Piece>, r: seq<Piece>, to: nat, k: nat)
    requires to <= k <= |ps| && |ps| - to <= |r| && r[|r| - (|ps| - to)..] == ps[to..]
    ensures TailKept(ps, r, k)
  {
    assert r[|r| - (|ps| - k)..] == r[|r| - (|ps| - to)..][k - to..];
    assert ps[k..] == ps[to..][k - to..];
  }

  // ----- over the whole walk

  lemma TextKept(job: Job, ps: seq<Piece>)
    requires job.Valid() && Tiles(job, ps)
    ensures FlattenAll(ps) == job.text
  {
  }

  /** A replacement leaves alone what begins at or behind the position it reports. */
  lemma ReplacedBehind(job: Job, j: nat, ps: seq<Piece>, i: nat)
    requires job.Valid() && j < |job.steps| && Tiles(job, ps) && i < |ps| <= |job.text|
    requires ps[i].Text? && Decide(job, j, ps, i).Cut?
    ensures var c := Replaced(job, j, ps, i, Decide(job, j, ps, i)); KeptBehind(ps, c.ps, Some(c.raised))
    decreases job.depth, j, 1, 0
  {
    hide Tiles, Decide, KeptBehind, FlattenAll, Applies, Offset, Cutting, MatchAll;
    var a := Decide(job, j, ps, i);
    SplicedTail(job, j, ps, i);
    var cut, end := Cutting(job, j, ps, i, a), Offset(ps, a.to);
    var c := Rematched(job, j, cut, a, end);
    assert Replaced(job, j, ps, i, a) == c;
    TextKept(job, ps);
    TextKept(job, cut);
    if a.to > a.from + 1 {
      MatchAllBehind(job, 0, CauseIndex(job.steps, j), cut, TokenIndex(a), Some(end));
      KeptBehindTwice(ps, cut, c.ps, Some(end), Some(c.raised));
    }
  }

  lemma VisitBehind(job: Job, j: nat, ps: seq<Piece>, i: nat, reach: Option<nat>)
    requires job.Valid() && j < |job.steps| && Tiles(job, ps) && i <= |ps|
    ensures var s := Visit(job, j, ps, i, reach); KeptBehind(ps, s.ps, s.reach)
    decreases job.depth, j, 1, 1
  {
    hide Tiles, KeptBehind, Replaced, Applies, Offset;
    var s := Visit(job, j, ps, i, reach);
    KeptBehindSame(ps, s.reach);
    if i < |ps| <= |job.text| && !(reach.Some? && Offset(ps, i) >= reach.value) {
      var a := Decide(job, j, ps, i);
      if a.Cut? {
        ReplacedBehind(job, j, ps, i);
        var c := Replaced(job, j, ps, i, a);
        assert s == Landed(job, j, ps, i, a, reach);
        KeptMore(ps, c.ps, c.raised, s.reach);
      }
    }
  }

  lemma KeptMore(ps: seq<Piece>, ps': seq<Piece>, at: nat, reach: Option<nat>)
    requires KeptBehind(ps, ps', Some(at)) && (reach.Some? ==> at <= reach.value)
    ensures KeptBehind(ps, ps', reach)
  {
  }

  lemma {:induction false} WalkBehind(job: Job, j: nat, ps: seq<Piece>, i: nat, reach: Option<nat>)
    requires job.Valid() && j < |job.steps| && Tiles(job, ps) && i <= |ps|
    ensures var r := Walk(job, j, ps, i, reach); KeptBehind(ps, r.ps, r.reach)
    decreases job.depth, j, 2, TextLeft(job, ps, i), Slack(job, ps), |ps| - i
  {
    hide Tiles, KeptBehind, Visit, Kept, FlattenAll;
    VisitBehind(job, j, ps, i, reach);
    var s := Visit(job, j, ps, i, reach);
    if s.At? {
      var r := Walk(job, j, s.ps, s.next, s.reach);
      WalkBehind(job, j, s.ps, s.next, s.reach);
      TextKept(job, ps);
      TextKept(job, s.ps);
      KeptBehindTwice(ps, s.ps, r.ps, s.reach, r.reach);
    }
  }

  /** The patterns from `j` up to `limit`, in a rematch: every piece that begins at or behind the
      reach they end with is left alone. */
  lemma {:induction false} MatchAllBehind(job: Job, j: nat, limit: nat, ps: seq<Piece>, i: nat, reach: Option<nat>)
    requires job.Valid() && j <= limit <= |job.steps| && Tiles(job, ps) && i <= |ps|
    ensures var r := MatchAll(job, j, limit, ps, i, reach); KeptBehind(ps, r.ps, r.reach)
    decreases job.depth, limit, 0, 2, limit - j
  {
    hide Tiles, KeptBehind, Walk, FlattenAll;
    KeptBehindSame(ps, reach);
    if j < limit {
      WalkBehind(job, j, ps, i, reach);
      var w := Walk(job, j, ps, i, reach);
      if !w.aborted {
        var r := MatchAll(job, j + 1, limit, w.ps, i, w.reach);
        MatchAllBehind(job, j + 1, limit, w.ps, i, w.reach);
        TextKept(job, ps);
        TextKept(job, w.ps);
        KeptBehindTwice(ps, w.ps, r.ps, w.reach, r.reach);
      }
    }
  }

  /** A rematch leaves alone every piece that begins at or behind the position it reports. */
  lemma RematchedBehind(job: Job, j: nat, cut: seq<Piece>, a: Action, end: nat)
    requires job.Valid() && j < |job.steps| && Tiles(job, cut) && a.Cut?
    requires TokenIndex(a) < |cut| && cut[TokenIndex(a)].Token?
    ensures var c := Rematched(job, j, cut, a, end); KeptBehind(cut, c.ps, Some(c.raised))
  {
    hide Tiles, KeptBehind, MatchAll;
    KeptBehindSame(cut, Some(end));
    MatchAllBehind(job, 0, CauseIndex(job.steps, j), cut, TokenIndex(a), Some(end));
  }

  /** A rematch stops at its reach: from there on it does not look at any piece. */
  lemma BeyondReach(job: Job, j: nat, ps: seq<Piece>, i: nat, reach: nat)
    requires job.Valid() && j < |job.steps| && Tiles(job, ps) && i <= |ps| && Offset(ps, i) >= reach
    ensures Walk(job, j, ps, i, Some(reach)) == Outcome(ps, Some(reach), false)
  {
    hide Tiles;
    assert Visit(job, j, ps, i, Some(reach)) == Done(ps, Some(reach), false);
  }

  /** With distinct names a match that takes out a token has exactly the patterns before its own tried
      again, from its token on and up to where the pieces it took out ended, or further as changes
      go; any other has none. */
  lemma RematchedIs(job: Job, es: seq<Entry>, j: nat, cut: seq<Piece>, a: Action, end: nat)
    requires job.Valid() && job.steps == Steps(es) && DistinctNames(es) && j < |job.steps|
    requires Tiles(job, cut) && a.Cut? && TokenIndex(a) < |cut| && cut[TokenIndex(a)].Token?
    ensures var c := Rematched(job, j, cut, a, end);
            if a.to > a.from + 1 then
              var r := MatchAll(job, 0, j, cut, TokenIndex(a), Some(end));
              c.ps == r.ps && Some(c.raised) == r.reach
            else c == Change(cut, end)
  {
    hide Tiles, MatchAll;
    RematchStopsAtCause(es, j);
  }
}
