/** `tokenize` as it runs: cursors over the linked list, positions counted up, and a rematch
    record updated in place. Every method is proved to compute what PrismWalk says. */
module PrismTokenizer {
  import opened Wrappers
  import opened PrismTokens
  import opened PrismGrammar
  import opened PrismWalk
  import opened PrismList

  class Rematch {
    const cause: string
    var reach: nat

    constructor (cause: string, reach: nat)
      ensures this.cause == cause && this.reach == reach
    {
      this.cause := cause;
      this.reach := reach;
    }
  }

  ghost function ReachOf(g: Rematch?): Option<nat>
    reads g
  {
    if g == null then None else Some(g.reach)
  }

  /** The cursor stands on piece `i`, at its offset. */
  ghost predicate CursorAt(list: TokenList, node: Node, pos: nat, i: nat)
    reads list, list.repr
  {
    && list.Valid()
    && i <= |list.Pieces()|
    && list.nodes[i + 1] == node
    && pos == Offset(list.Pieces(), i)
  }

  /** A cursor reads the piece it stands on; the sentinel is met exactly at the end. */
  lemma CursorValue(list: TokenList, node: Node, pos: nat, i: nat)
    requires CursorAt(list, node, pos, i)
    ensures node == list.tail <==> i == |list.Pieces()|
    ensures i < |list.Pieces()| ==> node.value == Some(list.Pieces()[i])
    ensures i < |list.Pieces()| ==> node.next == list.nodes[i + 2]
  {
    assert list.nodes[|list.nodes| - 1] == list.tail;
    if i < |list.Pieces()| {
      assert list.nodes[1..|list.nodes| - 1][i] == node;
    }
  }

  /** The step of the walk's loop: on to the next node, and by its length in the text. */
  method Advance(list: TokenList, node: Node, pos: nat, ghost i: nat)
    returns (node': Node, pos': nat)
    requires CursorAt(list, node, pos, i) && AllSized(list.Pieces())
    requires i < |list.Pieces()|
    ensures CursorAt(list, node', pos', i + 1)
  {
    CursorValue(list, node, pos, i);
    OffsetStep(list.Pieces(), i);
    LengthIsTextLength(list.Pieces()[i]);
    node' := node.next;
    pos' := pos + Length(node.value.value);
  }

  /** Moves on to the node that holds character `at`. The search stays clear of the tail sentinel,
      which has no length to read. */
  method FindContaining(list: TokenList, node: Node, pos: nat, at: nat, ghost i: nat)
    returns (node': Node, pos': nat, ghost k: nat)
    requires CursorAt(list, node, pos, i) && AllSized(list.Pieces())
    requires i < |list.Pieces()| && pos <= at < |FlattenAll(list.Pieces())|
    ensures k == Containing(list.Pieces(), i, at)
    ensures CursorAt(list, node', pos', k)
  {
    ghost var ps := list.Pieces();
    node', k := node, i;
    CursorValue(list, node', pos, k);
    OffsetStep(ps, k);
    LengthIsTextLength(ps[k]);
    var p := pos + Length(node'.value.value);
    while at >= p
      invariant i <= k < |ps| && CursorAt(list, node', Offset(ps, k), k)
      invariant p == Offset(ps, k + 1)
      invariant Offset(ps, k) <= at
      invariant Containing(ps, k, at) == Containing(ps, i, at)
      decreases |ps| - k
    {
      OffsetEnds(ps);
      CursorValue(list, node', Offset(ps, k), k);
      node' := node'.next;
      k := k + 1;
      CursorValue(list, node', p, k);
      OffsetStep(ps, k);
      LengthIsTextLength(ps[k]);
      p := p + Length(node'.value.value);
    }
    CursorValue(list, node', Offset(ps, k), k);
    OffsetStep(ps, k);
    LengthIsTextLength(ps[k]);
    pos' := p - Length(node'.value.value);
  }

  /** Counts the nodes from `node` on that the match up to `to` affects. */
  method CountAffected(list: TokenList, node: Node, pos: nat, to: nat, ghost k: nat)
    returns (count: nat, end: nat)
    requires CursorAt(list, node, pos, k) && AllSized(list.Pieces())
    requires to <= |FlattenAll(list.Pieces())|
    ensures k + count == AffectedEnd(list.Pieces(), k, to)
    ensures end == Offset(list.Pieces(), k + count)
  {
    hide FlattenAll, Sized;
    ghost var ps := list.Pieces();
    var n := node;
    count, end := 0, pos;
    CursorValue(list, n, end, k);
    while n != list.tail && (end < to || n.value.value.Text?)
      invariant CursorAt(list, n, end, k + count)
      invariant n == list.tail <==> k + count == |ps|
      invariant n != list.tail ==> n.value == Some(ps[k + count])
      invariant AffectedEnd(ps, k + count, to) == AffectedEnd(ps, k, to)
      decreases |ps| - (k + count)
    {
      n, end := Advance(list, n, end, k + count);
      count := count + 1;
      CursorValue(list, n, end, k + count);
    }
  }

  /** Links plain text in behind `n`, unless it is empty. */
  method AddPlain(list: TokenList, n: Node, s: string, ghost k: nat) returns (last: Node)
    requires list.Valid() && k < |list.nodes| - 1 && list.nodes[k] == n
    modifies list, list.repr
    ensures list.Valid() && old(list.repr) <= list.repr && fresh(list.repr - old(list.repr))
    ensures list.Pieces() == old(list.Pieces()[..k]) + Plain(s) + old(list.Pieces()[k..])
    ensures |list.nodes| > k + 1 && list.nodes[..k + 1] == old(list.nodes[..k + 1])
    ensures k + |Plain(s)| < |list.nodes| - 1 && last == list.nodes[k + |Plain(s)|]
  {
    last := n;
    if s != "" {
      last := list.AddAfter(n, Text(s), k);
    }
  }

  lemma Prefix<T>(p: seq<T>, q: seq<T>, k: nat, m: nat)
    requires k <= m <= |p| && m <= |q| && p[..m] == q[..m]
    ensures p[..k] == q[..k]
  {
    assert p[..k] == p[..m][..k] && q[..k] == q[..m][..k];
  }

  /** Puts a token in the place of `count` pieces behind node `n`. */
  method SwapIn(list: TokenList, n: Node, count: nat, tok: Piece, ghost k: nat) returns (node: Node)
    requires list.Valid() && k + count < |list.nodes| - 1 && list.nodes[k] == n
    modifies list, list.repr
    ensures list.Valid() && old(list.repr) <= list.repr && fresh(list.repr - old(list.repr))
    ensures list.Pieces() == old(list.Pieces()[..k]) + [tok] + old(list.Pieces()[k + count..])
    ensures |list.nodes| > k + 2 && list.nodes[..k + 1] == old(list.nodes[..k + 1])
    ensures node == list.nodes[k + 1]
  {
    ghost var p := list.Pieces();
    list.RemoveRange(n, count, k);
    assert list.Pieces()[..k] == p[..k] && list.Pieces()[k..] == p[k + count..];
    node := list.AddAfter(n, tok, k);
  }

  lemma SpliceSteps<T>(p: seq<T>, k: nat, c: nat, b: seq<T>, t: T, a: seq<T>,
      p1: seq<T>, p2: seq<T>, p3: seq<T>)
    requires k + c <= |p| && p1 == p[..k] + b + p[k..]
    requires p2 == p1[..k + |b|] + [t] + p1[k + |b| + c..]
    requires p3 == p2[..k + |b| + 1] + a + p2[k + |b| + 1..]
    ensures p3 == p[..k] + (b + [t] + a) + p[k + c..]
  {
    assert p2 == p[..k] + b + [t] + p[k + c..];
  }

  lemma SpliceNodes<T>(n0: seq<T>, n1: seq<T>, n2: seq<T>, n3: seq<T>, k: nat, k1: nat)
    requires k <= k1 && k < |n0| && k1 < |n1| && k1 + 1 < |n2| && k1 + 1 < |n3|
    requires n1[..k + 1] == n0[..k + 1] && n2[..k1 + 1] == n1[..k1 + 1] && n3[..k1 + 2] == n2[..k1 + 2]
    ensures n3[..k + 1] == n0[..k + 1] && n3[k1 + 1] == n2[k1 + 1]
  {
    Prefix(n2, n1, k + 1, k1 + 1);
    Prefix(n3, n2, k + 1, k1 + 2);
    assert n3[k1 + 1] == n3[..k1 + 2][k1 + 1];
  }

  /** Replaces `count` pieces behind node `n` by the text before a match, its token, and the text
      behind it. */
  method SpliceList(list: TokenList, n: Node, count: nat, before: string, tok: Piece, after: string,
      ghost k: nat)
    returns (node: Node)
    requires list.Valid() && k + count < |list.nodes| - 1 && list.nodes[k] == n
    modifies list, list.repr
    ensures list.Valid() && old(list.repr) <= list.repr && fresh(list.repr - old(list.repr))
    ensures list.Pieces() == old(list.Pieces()[..k]) + (Plain(before) + [tok] + Plain(after))
                             + old(list.Pieces()[k + count..])
    ensures |list.nodes| > k + 1 && list.nodes[..k + 1] == old(list.nodes[..k + 1])
    ensures k + |Plain(before)| + 1 < |list.nodes| - 1 && node == list.nodes[k + |Plain(before)| + 1]
  {
    hide Plain, Framed, Distinct, AllIn, Chain, Contents;
    ghost var k1 := k + |Plain(before)|;
    ghost var p0, n0 := list.Pieces(), list.nodes;
    var last := AddPlain(list, n, before, k);
    ghost var p1, n1 := list.Pieces(), list.nodes;
    node := SwapIn(list, last, count, tok, k1);
    ghost var p2, n2 := list.Pieces(), list.nodes;
    var _ := AddPlain(list, node, after, k1 + 1);
    SpliceNodes(n0, n1, n2, list.nodes, k, k1);
    SpliceSteps(p0, k, count, Plain(before), tok, Plain(after), p1, p2, list.Pieces());
  }

  // ----- the walk

  /** The list is as a walk left it: only nodes of its own are new, and the first `n` nodes are
      those it had. */
  twostate predicate ListKept(list: TokenList, n: nat)
    reads list, list.repr
  {
    && list.Valid() && old(list.repr) <= list.repr && fresh(list.repr - old(list.repr))
    && n <= old(|list.nodes|) && n <= |list.nodes|
    && list.nodes[..n] == old(list.nodes)[..n]
  }

  /** How many nodes a walk from piece `i` on leaves in place, the head sentinel included. */
  function KeptNodes(ps: seq<Piece>, i: nat): nat {
    if i < |ps| && ps[i].Token? then i + 2 else i + 1
  }

  method MakeToken(job: Job, st: Step, matched: string) returns (tok: Piece)
    requires job.Valid() && st in job.steps
    ensures tok == NewToken(job, st, matched)
    decreases job.depth, 0, 0, 0
  {
    var content := Leaf(matched);
    if st.pattern.inside.Some? {
      var parts := Tokenize(job.rx, matched, st.pattern.inside.value);
      content := Nested(parts);
    }
    tok := Token(st.kind, content, st.pattern.alias, |matched|);
  }

  /** A cursor survives a walk that keeps its node. */
  lemma CursorKept(list: TokenList, node: Node, pos: nat, i: nat, ns: seq<Node>, ps: seq<Piece>)
    requires list.Valid() && i < |list.Pieces()| && i + 2 <= |ns| && i <= |ps|
    requires list.nodes[..i + 2] == ns[..i + 2] && list.Pieces()[..i] == ps[..i]
    requires ns[i + 1] == node && pos == Offset(ps, i)
    ensures CursorAt(list, node, pos, i)
  {
    assert list.nodes[i + 1] == list.nodes[..i + 2][i + 1] == ns[..i + 2][i + 1];
  }

  /** After a match took out a token, tries the earlier patterns again from the new token on. */
  method RematchFrom(job: Job, list: TokenList, j: nat, node: Node, pos: nat, end: nat, ghost i: nat)
    returns (reach: nat)
    requires job.Valid() && j < |job.steps|
    requires CursorAt(list, node, pos, i) && Tiles(job, list.Pieces())
    requires i < |list.Pieces()| && list.Pieces()[i].Token?
    modifies list, list.repr
    ensures ListKept(list, i + 2) && CursorAt(list, node, pos, i)
    ensures var r := MatchAll(job, 0, CauseIndex(job.steps, j), old(list.Pieces()), i, Some(end));
            list.Pieces() == r.ps && Some(reach) == r.reach
    decreases job.depth, j, 0, 1
  {
    ghost var ps, ns := list.Pieces(), list.nodes;
    var t := new Rematch(Label(job.steps[j]), end);
    MatchGrammar(job, list, node.prev, pos, t, i, CauseIndex(job.steps, j));
    CursorKept(list, node, pos, i, ns, ps);
    reach := t.reach;
  }

  /** The list methods splice exactly what the reference splices. */
  lemma CuttingParts(job: Job, j: nat, ps: seq<Piece>, i: nat, a: Action)
    requires job.Valid() && j < |job.steps| && Tiles(job, ps) && a.Cut?
    requires Applies(job, j, ps, i, a) && Within(ps, a)
    ensures var str, r, t := CutText(job.text, ps, a), Cutting(job, j, ps, i, a), TokenIndex(a);
            && a.at + a.len <= |str|
            && r == ps[..a.from]
                    + (Plain(str[..a.at])
                       + [NewToken(job, job.steps[j], str[a.at..a.at + a.len])]
                       + Plain(str[a.at + a.len..]))
                    + ps[a.to..]
            && |Plain(str[..a.at])| == t - a.from
            && t <= |r| && Offset(r, t) == Offset(ps, a.from) + a.at
  {
    hide NewToken, FlattenAll, Applies;
    var str := CutText(job.text, ps, a);
    SplicedToken(job.text, ps, a, NewToken(job, job.steps[j], str[a.at..a.at + a.len]));
  }

  /** Puts the token of a match in place, between the text around it. */
  method PutToken(job: Job, list: TokenList, j: nat, node: Node, pos: nat, count: nat, str: string,
      at: nat, len: nat, ghost i: nat, ghost a: Action)
    returns (node': Node, pos': nat)
    requires job.Valid() && j < |job.steps| && list.Valid() && Tiles(job, list.Pieces()) && a.Cut?
    requires Applies(job, j, list.Pieces(), i, a) && Within(list.Pieces(), a)
    requires CursorAt(list, node, pos, a.from)
    requires count == a.to - a.from && at == a.at && len == a.len
    requires FlattenAll(list.Pieces()) == job.text && str == CutText(job.text, list.Pieces(), a)
    requires at + len <= |str|
    modifies list, list.repr
    ensures ListKept(list, a.from + 1)
    ensures list.Pieces() == Cutting(job, j, old(list.Pieces()), i, a)
    ensures CursorAt(list, node', pos', TokenIndex(a))
    decreases job.depth, j, 0, 1
  {
    hide Tiles, FlattenAll, Cutting, Plain, Applies;
    CuttingParts(job, j, list.Pieces(), i, a);
    var tok := MakeToken(job, job.steps[j], str[at..at + len]);
    node' := SpliceList(list, node.prev, count, str[..at], tok, str[at + len..], a.from);
    pos' := pos + at;
  }

  /** Puts right what a match that took out a token has disturbed. */
  method Settle(job: Job, list: TokenList, j: nat, node: Node, pos: nat, count: nat, end: nat, ghost a: Action)
    returns (raised: nat)
    requires job.Valid() && j < |job.steps| && a.Cut? && count == a.to - a.from
    requires CursorAt(list, node, pos, TokenIndex(a)) && Tiles(job, list.Pieces())
    requires TokenIndex(a) < |list.Pieces()| && list.Pieces()[TokenIndex(a)].Token?
    modifies list, list.repr
    ensures ListKept(list, TokenIndex(a) + 2) && CursorAt(list, node, pos, TokenIndex(a))
    ensures Rematched(job, j, old(list.Pieces()), a, end) == Change(list.Pieces(), raised)
    decreases job.depth, j, 0, 2
  {
    hide Tiles, MatchAll;
    raised := end;
    if count > 1 {
      raised := RematchFrom(job, list, j, node, pos, end, TokenIndex(a));
    }
  }

  /** One match put in place, with the rematch it calls for. */
  method Replace(job: Job, list: TokenList, j: nat, node: Node, pos: nat, count: nat, str: string,
      at: nat, len: nat, ghost i: nat, ghost a: Action)
    returns (node': Node, pos': nat, raised: nat)
    requires job.Valid() && j < |job.steps| && list.Valid() && Tiles(job, list.Pieces()) && a.Cut?
    requires i < |list.Pieces()| <= |job.text| && list.Pieces()[i].Text?
    requires Applies(job, j, list.Pieces(), i, a) && Within(list.Pieces(), a)
    requires CursorAt(list, node, pos, a.from)
    requires i <= a.from && count == a.to - a.from && at == a.at && len == a.len
    requires FlattenAll(list.Pieces()) == job.text && str == CutText(job.text, list.Pieces(), a)
    requires at + len <= |str| && pos + |str| == Offset(list.Pieces(), a.to)
    modifies list, list.repr
    ensures ListKept(list, i + 1) && CursorAt(list, node', pos', TokenIndex(a))
    ensures Replaced(job, j, old(list.Pieces()), i, a) == Change(list.Pieces(), raised)
    decreases job.depth, j, 1
  {
    hide Cutting, Tiles, Applies, Rematched, FlattenAll, CutText;
    ghost var ns, t := list.nodes, TokenIndex(a);
    raised := pos + |str|;
    node', pos' := PutToken(job, list, j, node, pos, count, str, at, len, i, a);
    Prefix(list.nodes, ns, i + 1, a.from + 1);
    ghost var ns1 := list.nodes;
    raised := Settle(job, list, j, node', pos', count, raised, a);
    Prefix(list.nodes, ns1, i + 1, t + 2);
  }

  // What a pattern finds at a plain piece: nothing any more, nothing here, or a match in the text
  // `str` of `count` nodes, `at` characters in and `len` long.
  datatype Verdict = Leave | Pass | Take(count: nat, str: string, at: nat, len: nat)

  /** The verdict and the cursor put the decision of the reference into effect. */
  ghost predicate Renders(text: string, list: TokenList, a: Action, v: Verdict, node: Node, pos: nat)
    reads list, list.repr
    requires list.Valid() && FlattenAll(list.Pieces()) == text
  {
    match a
    case Stop => v == Leave
    case Skip(k) => v == Pass && CursorAt(list, node, pos, k)
    case Cut(from, to, at, len) =>
      && Within(list.Pieces(), a)
      && v == Take(to - from, CutText(text, list.Pieces(), a), at, len)
      && CursorAt(list, node, pos, from)
  }

  lemma CutLies(job: Job, j: nat, ps: seq<Piece>, i: nat, a: Action)
    requires job.Valid() && j < |job.steps| && FlattenAll(ps) == job.text
    requires a.Cut? && Applies(job, j, ps, i, a)
    ensures Within(ps, a) && i <= a.from
    ensures |CutText(job.text, ps, a)| == Offset(ps, a.to) - Offset(ps, a.from)
  {
    CutWithin(job, j, ps, i, a);
    FlattenSlice(ps, a.from, a.to);
  }

  /** The nodes a greedy match takes, and their text. */
  method TakeGreedy(text: string, list: TokenList, node: Node, pos: nat, m: Match, ghost k: nat,
      ghost a: Action)
    returns (v: Verdict)
    requires CursorAt(list, node, pos, k)
    requires FlattenAll(list.Pieces()) == text && AllSized(list.Pieces())
    requires pos <= m.index && m.index + m.length <= |text|
    requires a == Cut(k, AffectedEnd(list.Pieces(), k, m.index + m.length), m.index - pos, m.length)
    requires Within(list.Pieces(), a)
    ensures Renders(text, list, a, v, node, pos)
  {
    ghost var ps := list.Pieces();
    var count, end := CountAffected(list, node, pos, m.index + m.length, k);
    FlattenSlice(ps, k, k + count);
    v := Take(count, text[pos..end], m.index - pos, m.length);
  }

  lemma GreedyDecided(job: Job, j: nat, ps: seq<Piece>, i: nat)
    requires job.Valid() && j < |job.steps| && job.steps[j].pattern.greedy
    requires FlattenAll(ps) == job.text && NoAdjacentText(ps) && i < |ps| && ps[i].Text?
    ensures Offset(ps, i) <= |job.text|
    ensures var m := MatchPattern(job.rx, job.steps[j].pattern, Offset(ps, i), job.text);
            var a := DecideGreedy(job, j, ps, i);
            if m.None? || m.value.index >= |job.text| then a == Stop
            else
              var k := Containing(ps, i, m.value.index);
              var end := m.value.index + m.value.length;
              && end <= |job.text|
              && a == if ps[k].Token? then Skip(k)
                      else Cut(k, AffectedEnd(ps, k, end), m.value.index - Offset(ps, k), m.value.length)
  {
    OffsetStep(ps, i);
  }

  /** A greedy pattern at a plain piece. */
  method LookGreedy(job: Job, list: TokenList, j: nat, node: Node, pos: nat, ghost i: nat)
    returns (v: Verdict, node': Node, pos': nat, ghost a: Action)
    requires job.Valid() && j < |job.steps| && job.steps[j].pattern.greedy
    requires CursorAt(list, node, pos, i)
    requires FlattenAll(list.Pieces()) == job.text && AllSized(list.Pieces()) && NoAdjacentText(list.Pieces())
    requires i < |list.Pieces()| && list.Pieces()[i].Text?
    ensures a == DecideGreedy(job, j, list.Pieces(), i)
    ensures Renders(job.text, list, a, v, node', pos')
  {
    hide FlattenAll, Applies, DecideGreedy, AffectedEnd;
    ghost var ps := list.Pieces();
    node', pos' := node, pos;
    GreedyDecided(job, j, ps, i);
    a := DecideGreedy(job, j, ps, i);
    var m := MatchPattern(job.rx, job.steps[j].pattern, pos, job.text);
    if m.None? || m.value.index >= |job.text| {
      v := Leave;
    } else {
      ghost var k;
      node', pos', k := FindContaining(list, node, pos, m.value.index, i);
      CursorValue(list, node', pos', k);
      if node'.value.value.Token? {
        v := Pass;
      } else {
        CutLies(job, j, ps, i, a);
        v := TakeGreedy(job.text, list, node', pos', m.value, k, a);
      }
    }
  }

  /** Any other pattern at a plain piece. */
  method LookWithin(job: Job, list: TokenList, j: nat, node: Node, pos: nat, ghost i: nat)
    returns (v: Verdict, node': Node, pos': nat, ghost a: Action)
    requires job.Valid() && j < |job.steps| && !job.steps[j].pattern.greedy
    requires CursorAt(list, node, pos, i) && Tiles(job, list.Pieces())
    requires i < |list.Pieces()| && list.Pieces()[i].Text?
    ensures a == DecideWithin(job, j, list.Pieces(), i)
    ensures Renders(job.text, list, a, v, node', pos')
  {
    ghost var ps := list.Pieces();
    node', pos' := node, pos;
    CursorValue(list, node, pos, i);
    a := DecideWithin(job, j, ps, i);
    var str := node.value.value.s;
    var m := MatchPattern(job.rx, job.steps[j].pattern, 0, str);
    if m.None? {
      v := Pass;
    } else {
      CutLies(job, j, ps, i, a);
      OffsetStep(ps, i);
      v := Take(1, str, m.value.index, m.value.length);
    }
  }

  /** What the pattern makes of a plain piece. */
  method Look(job: Job, list: TokenList, j: nat, node: Node, pos: nat, ghost i: nat)
    returns (v: Verdict, node': Node, pos': nat, ghost a: Action)
    requires job.Valid() && j < |job.steps|
    requires CursorAt(list, node, pos, i) && Tiles(job, list.Pieces())
    requires i < |list.Pieces()| && list.Pieces()[i].Text?
    ensures a == Decide(job, j, list.Pieces(), i)
    ensures Renders(job.text, list, a, v, node', pos')
    ensures a.Cut? ==> i <= a.from && |v.str| == Offset(list.Pieces(), a.to) - Offset(list.Pieces(), a.from)
  {
    if job.steps[j].pattern.greedy {
      v, node', pos', a := LookGreedy(job, list, j, node, pos, i);
    } else {
      v, node', pos', a := LookWithin(job, list, j, node, pos, i);
    }
    if a.Cut? {
      CutLies(job, j, list.Pieces(), i, a);
    }
  }

  /** Decision and cursor of the reference's walk over one piece. */
  lemma VisitByAction(job: Job, j: nat, ps: seq<Piece>, i: nat, reach: Option<nat>)
    requires job.Valid() && j < |job.steps| && Tiles(job, ps) && i < |ps| <= |job.text|
    requires reach.Some? ==> Offset(ps, i) < reach.value
    ensures var a, s := Decide(job, j, ps, i), Visit(job, j, ps, i, reach);
            && (a.Stop? ==> s == Done(ps, reach, false))
            && (a.Skip? ==> s == At(ps, reach, a.at + 1))
            && (a.Cut? ==> var c := Replaced(job, j, ps, i, a);
                           s == At(c.ps, Raise(reach, c.raised), TokenIndex(a) + 1))
  {
  }

  lemma TilesText(job: Job, ps: seq<Piece>)
    requires job.Valid() && Tiles(job, ps)
    ensures FlattenAll(ps) == job.text
  {
  }

  /** The body of the walk's loop at a plain piece. */
  method VisitText(job: Job, list: TokenList, j: nat, node: Node, pos: nat, ghost i: nat,
      ghost reach: Option<nat>)
    returns (stop: bool, node': Node, pos': nat, raised: nat)
    requires job.Valid() && j < |job.steps|
    requires CursorAt(list, node, pos, i) && Tiles(job, list.Pieces())
    requires i < |list.Pieces()| <= |job.text| && list.Pieces()[i].Text?
    requires reach.Some? ==> pos < reach.value
    modifies list, list.repr
    ensures ListKept(list, i + 1)
    ensures var s := Visit(job, j, old(list.Pieces()), i, reach);
            && list.Pieces() == s.ps && s.reach == Raise(reach, raised)
            && (if stop then s.Done? && !s.aborted
                else s.At? && CursorAt(list, node', pos', s.next - 1))
    decreases job.depth, j, 2
  {
    hide Tiles, Visit, Decide, Replaced, Cutting, Applies, Onward, Kept, FlattenAll, CutText;
    ghost var ps := list.Pieces();
    TilesText(job, ps);
    VisitByAction(job, j, ps, i, reach);
    var v;
    ghost var a;
    v, node', pos', a := Look(job, list, j, node, pos, i);
    stop, raised := v.Leave?, 0;
    if v.Take? {
      node', pos', raised := Replace(job, list, j, node', pos', v.count, v.str, v.at, v.len, i, a);
    }
  }

  /** Raises the reach of an enclosing rematch, if there is one. */
  method RaiseReach(g: Rematch?, to: nat)
    modifies g
    ensures ReachOf(g) == Raise(old(ReachOf(g)), to)
  {
    if g != null && to > g.reach {
      g.reach := to;
    }
  }

  /** One turn of the walk. */
  lemma WalkTurn(job: Job, j: nat, ps: seq<Piece>, i: nat, reach: Option<nat>)
    requires job.Valid() && j < |job.steps| && Tiles(job, ps) && i <= |ps|
    ensures var w := Walk(job, j, ps, i, reach);
            if i == |ps| || (reach.Some? && Offset(ps, i) >= reach.value) then w == Outcome(ps, reach, false)
            else if |ps| > |job.text| then w == Outcome(ps, reach, true)
            else if ps[i].Token? then w == Walk(job, j, ps, i + 1, reach) && Onward(job, ps, i, ps, i + 1)
            else var s := Visit(job, j, ps, i, reach);
                 if s.Done? then w == Outcome(s.ps, s.reach, s.aborted)
                 else w == Walk(job, j, s.ps, s.next, s.reach)
  {
    hide Tiles, Kept, Onward, FlattenAll, Landed;
    if i < |ps| {
      StepOnward(job, ps, i, i + 1);
    }
  }

  datatype Flow = Continue | Break | Abort

  /** The body of the walk's loop. */
  method Turn(job: Job, list: TokenList, j: nat, node: Node, pos: nat, g: Rematch?, ghost i: nat)
    returns (flow: Flow, node': Node, pos': nat, ghost i': nat)
    requires job.Valid() && j < |job.steps|
    requires CursorAt(list, node, pos, i) && Tiles(job, list.Pieces())
    requires node != list.tail && !(g != null && pos >= g.reach)
    modifies list, list.repr, g
    ensures ListKept(list, KeptNodes(old(list.Pieces()), i)) && Tiles(job, list.Pieces())
    ensures flow == Continue ==>
              && i < i' && CursorAt(list, node', pos', i')
              && Onward(job, old(list.Pieces()), i, list.Pieces(), i')
    ensures Walk(job, j, old(list.Pieces()), i, old(ReachOf(g)))
            == if flow == Continue then Walk(job, j, list.Pieces(), i', ReachOf(g))
               else Outcome(list.Pieces(), ReachOf(g), flow == Abort)
    decreases job.depth, j, 3
  {
    hide Walk, Visit, Tiles, Kept, Onward, FlattenAll, Sized;
    ghost var ps, reach := list.Pieces(), ReachOf(g);
    node', pos', i' := node, pos, i;
    CursorValue(list, node, pos, i);
    WalkTurn(job, j, ps, i, reach);
    if list.length > |job.text| {
      return Abort, node, pos, i;
    }
    if node.value.value.Text? {
      var stop, raised;
      stop, node', pos', raised := VisitText(job, list, j, node, pos, i, reach);
      RaiseReach(g, raised);
      if stop {
        return Break, node', pos', i;
      }
      i' := Visit(job, j, ps, i, reach).next - 1;
    }
    TilesSized(job, list.Pieces());
    node', pos' := Advance(list, node', pos', i');
    i' := i' + 1;
    flow := Continue;
  }

  lemma TilesSized(job: Job, ps: seq<Piece>)
    requires job.Valid() && Tiles(job, ps)
    ensures AllSized(ps)
  {
  }

  /** Tries one pattern on the nodes behind `start`. */
  method WalkPattern(job: Job, list: TokenList, j: nat, start: Node, startPos: nat, g: Rematch?,
      ghost i: nat)
    returns (aborted: bool)
    requires job.Valid() && j < |job.steps| && list.Valid() && Tiles(job, list.Pieces())
    requires i <= |list.Pieces()| && list.nodes[i] == start && startPos == Offset(list.Pieces(), i)
    modifies list, list.repr, g
    ensures ListKept(list, KeptNodes(old(list.Pieces()), i))
    ensures Walk(job, j, old(list.Pieces()), i, old(ReachOf(g)))
            == Outcome(list.Pieces(), ReachOf(g), aborted)
    decreases job.depth, j, 4
  {
    hide Walk, Visit, Tiles;
    var node: Node, pos: nat := start.next, startPos;
    ghost var k, kept := i, KeptNodes(list.Pieces(), i);
    while node != list.tail && !(g != null && pos >= g.reach)
      invariant ListKept(list, kept)
      invariant i <= k && CursorAt(list, node, pos, k) && Tiles(job, list.Pieces())
      invariant kept <= k + 1 || (k == i && list.Pieces() == old(list.Pieces()))
      invariant Walk(job, j, list.Pieces(), k, ReachOf(g))
                == Walk(job, j, old(list.Pieces()), i, old(ReachOf(g)))
      decreases TextLeft(job, list.Pieces(), k), Slack(job, list.Pieces()), |list.Pieces()| - k
    {
      ghost var ns, n := list.nodes, KeptNodes(list.Pieces(), k);
      var flow;
      flow, node, pos, k := Turn(job, list, j, node, pos, g, k);
      Prefix(list.nodes, ns, kept, n);
      if flow != Continue {
        return flow == Abort;
      }
    }
    CursorValue(list, node, pos, k);
    WalkTurn(job, j, list.Pieces(), k, ReachOf(g));
    return false;
  }

  /** One turn of the loop over the patterns. */
  lemma MatchTurn(job: Job, j: nat, limit: nat, ps: seq<Piece>, i: nat, reach: Option<nat>)
    requires job.Valid() && j <= limit <= |job.steps| && Tiles(job, ps) && i <= |ps|
    ensures var m := MatchAll(job, j, limit, ps, i, reach);
            if j == limit then m == Outcome(ps, reach, false)
            else var w := Walk(job, j, ps, i, reach);
                 && Tiles(job, w.ps) && i <= |w.ps| && Offset(w.ps, i) == Offset(ps, i)
                 && KeptNodes(ps, i) <= KeptNodes(w.ps, i)
                 && m == if w.aborted then w else MatchAll(job, j + 1, limit, w.ps, i, w.reach)
  {
  }

  /** Tries the patterns in order from node `start` on; a rematch ends at the pattern that caused
      it. */
  method MatchGrammar(job: Job, list: TokenList, start: Node, startPos: nat, g: Rematch?,
      ghost i: nat, ghost limit: nat)
    requires job.Valid() && limit <= |job.steps|
    requires if g == null then limit == |job.steps|
             else limit < |job.steps| && Label(job.steps[limit]) == g.cause
                  && forall m | 0 <= m < limit :: Label(job.steps[m]) != g.cause
    requires list.Valid() && Tiles(job, list.Pieces())
    requires i <= |list.Pieces()| && list.nodes[i] == start && startPos == Offset(list.Pieces(), i)
    modifies list, list.repr, g
    ensures ListKept(list, KeptNodes(old(list.Pieces()), i))
    ensures var r := MatchAll(job, 0, limit, old(list.Pieces()), i, old(ReachOf(g)));
            list.Pieces() == r.ps && ReachOf(g) == r.reach
    decreases job.depth, limit, 0, 0
  {
    hide MatchAll, Walk, Tiles;
    ghost var kept := KeptNodes(list.Pieces(), i);
    var j := 0;
    while j < |job.steps|
      invariant 0 <= j <= limit
      invariant ListKept(list, kept) && Tiles(job, list.Pieces())
      invariant i <= |list.Pieces()| && startPos == Offset(list.Pieces(), i)
      invariant kept <= KeptNodes(list.Pieces(), i)
      invariant MatchAll(job, j, limit, list.Pieces(), i, ReachOf(g))
                == MatchAll(job, 0, limit, old(list.Pieces()), i, old(ReachOf(g)))
    {
      if g != null && g.cause == Label(job.steps[j]) {
        break;
      }
      ghost var ps, ns, reach := list.Pieces(), list.nodes, ReachOf(g);
      MatchTurn(job, j, limit, ps, i, reach);
      assert list.nodes[i] == start by {
        assert list.nodes[..kept][i] == old(list.nodes)[..kept][i];
      }
      var aborted := WalkPattern(job, list, j, start, startPos, g, i);
      Prefix(list.nodes, ns, kept, KeptNodes(ps, i));
      if aborted {
        return;
      }
      j := j + 1;
    }
    assert j == limit;
    MatchTurn(job, j, limit, list.Pieces(), i, ReachOf(g));
  }

  /** `tokenize`: the list holds the whole text at first, and its values are read off at the end. */
  method Tokenize(rx: Oracle, text: string, g: Grammar) returns (ps: seq<Piece>)
    requires InRange(rx)
    ensures ps == PrismWalk.Tokenize(rx, text, g)
    decreases Depth(g)
  {
    MergedStepsDepth(g);
    MergedStepsWords(g);
    var job := Job(rx, text, Steps(Merged(g)), Depth(g), Words(g));
    var list := new TokenList();
    var first := list.AddAfter(list.head, Text(text), 0);
    assert list.Pieces() == [Text(text)];
    OneText(job);
    MatchGrammar(job, list, list.head, 0, null, 0, |job.steps|);
    ps := list.ToArray();
  }
}
