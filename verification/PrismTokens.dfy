/** The token stream of the highlighter: pieces of text, plain or wrapped in a token,
    and the text a stream stands for. */
module PrismTokens {

  // The `length` of a token is a field of its own: the constructor takes it from the matched
  // string, and the walk over the list trusts it.
  datatype Piece =
    | Text(s: string)
    | Token(kind: string, content: Content, alias: seq<string>, length: nat)

  datatype Content = Leaf(s: string) | Nested(parts: seq<Piece>)

  /** The text below a piece, with every token removed. */
  function Flatten(p: Piece): string {
    match p
    case Text(s) => s
    case Token(_, Leaf(s), _, _) => s
    case Token(_, Nested(parts), _, _) => FlattenAll(parts)
  }

  function FlattenAll(ps: seq<Piece>): string {
    if ps == [] then "" else Flatten(ps[0]) + FlattenAll(ps[1..])
  }

  /** The `length` property the list walk reads. */
  function Length(p: Piece): nat {
    match p
    case Text(s) => |s|
    case Token(_, _, _, n) => n
  }

  /** Every token, at every depth, has the length of the text it covers. */
  predicate Sized(p: Piece) {
    match p
    case Text(_) => true
    case Token(_, Leaf(s), _, n) => n == |s|
    case Token(_, Nested(parts), _, n) =>
      n == |FlattenAll(parts)| && forall q | q in parts :: Sized(q)
  }

  predicate AllSized(ps: seq<Piece>) {
    forall k {:trigger Sized(ps[k])} | 0 <= k < |ps| :: Sized(ps[k])
  }

  // What goes into the class attributes of tokens: a name and the aliases behind it.
  type WordLists = set<seq<string>>

  /** Every token, at every depth, takes its kind together with its aliases from `words`. */
  ghost predicate Named(p: Piece, words: WordLists) {
    match p
    case Text(_) => true
    case Token(kind, content, alias, _) =>
      && [kind] + alias in words
      && (content.Nested? ==> forall q | q in content.parts :: Named(q, words))
  }

  ghost predicate AllNamed(ps: seq<Piece>, words: WordLists) {
    forall k {:trigger Named(ps[k], words)} | 0 <= k < |ps| :: Named(ps[k], words)
  }

  lemma {:induction false} NamedMore(p: Piece, words: WordLists, more: WordLists)
    requires Named(p, words) && words <= more
    ensures Named(p, more)
  {
    if p.Token? && p.content.Nested? {
      forall q | q in p.content.parts ensures Named(q, more) {
        NamedMore(q, words, more);
      }
    }
  }

  lemma LengthIsTextLength(p: Piece)
    requires Sized(p)
    ensures Length(p) == |Flatten(p)|
  {
  }

  /** Where piece `k` of a stream begins in the text. */
  function Offset(ps: seq<Piece>, k: nat): nat
    requires k <= |ps|
  {
    |FlattenAll(ps[..k])|
  }

  lemma {:induction false} FlattenConcat(a: seq<Piece>, b: seq<Piece>)
    ensures FlattenAll(a + b) == FlattenAll(a) + FlattenAll(b)
  {
    if a == [] {
      assert a + b == b;
    } else {
      assert (a + b)[1..] == a[1..] + b;
      FlattenConcat(a[1..], b);
    }
  }

  lemma FlattenOne(p: Piece)
    ensures FlattenAll([p]) == Flatten(p)
  {
    assert [p][1..] == [];
  }

  /** A run of pieces covers exactly its own stretch of the text. */
  lemma FlattenSlice(ps: seq<Piece>, i: nat, j: nat)
    requires i <= j <= |ps|
    ensures Offset(ps, i) <= Offset(ps, j) <= |FlattenAll(ps)|
    ensures FlattenAll(ps[i..j]) == FlattenAll(ps)[Offset(ps, i)..Offset(ps, j)]
  {
    FlattenConcat(ps[..i], ps[i..j]);
    assert ps[..i] + ps[i..j] == ps[..j];
    FlattenConcat(ps[..j], ps[j..]);
    assert ps[..j] + ps[j..] == ps;
  }

  lemma OffsetStep(ps: seq<Piece>, i: nat)
    requires i < |ps|
    ensures Offset(ps, i + 1) == Offset(ps, i) + |Flatten(ps[i])| <= |FlattenAll(ps)|
    ensures Flatten(ps[i]) == FlattenAll(ps)[Offset(ps, i)..Offset(ps, i + 1)]
  {
    FlattenSlice(ps, i, i + 1);
    assert ps[i..i + 1] == [ps[i]];
    FlattenOne(ps[i]);
  }

  lemma OffsetEnds(ps: seq<Piece>)
    ensures Offset(ps, 0) == 0 && Offset(ps, |ps|) == |FlattenAll(ps)|
  {
    assert ps[..|ps|] == ps;
  }

  /** A stream of nonempty pieces has no more pieces than the text has characters. */
  lemma {:induction false} NonemptyPiecesFit(ps: seq<Piece>)
    requires forall k | 0 <= k < |ps| :: Flatten(ps[k]) != ""
    ensures |ps| <= |FlattenAll(ps)|
  {
    if ps != [] {
      NonemptyPiecesFit(ps[1..]);
    }
  }
}
