/** The doubly linked list that `tokenize` works on, between two sentinels whose value is null. */
module PrismList {
  import opened Wrappers
  import opened PrismTokens

  class Node {
    const value: Option<Piece>  // None is the null of a sentinel
    var prev: Node?
    var next: Node?

    constructor (value: Option<Piece>, prev: Node?, next: Node?)
      ensures this.value == value && this.prev == prev && this.next == next
    {
      this.value := value;
      this.prev := prev;
      this.next := next;
    }
  }

  ghost predicate Inner(ns: seq<Node>) {
    forall k | 0 <= k < |ns| :: ns[k].value.Some?
  }

  ghost function PiecesOf(ns: seq<Node>): (ps: seq<Piece>)
    requires Inner(ns)
    ensures |ps| == |ns|
  {
    seq(|ns|, k requires 0 <= k < |ns| => ns[k].value.value)
  }

  /** All but the first and the last node hold a piece. */
  ghost predicate Framed(ns: seq<Node>) {
    |ns| >= 2 && Inner(ns[1..|ns| - 1])
  }

  ghost function Contents(ns: seq<Node>): (ps: seq<Piece>)
    requires Framed(ns)
    ensures |ps| == |ns| - 2
  {
    PiecesOf(ns[1..|ns| - 1])
  }

  ghost predicate Distinct(ns: seq<Node>) {
    forall j, k | 0 <= j < k < |ns| :: ns[j] != ns[k]
  }

  ghost predicate AllIn(ns: seq<Node>, s: set<Node>) {
    forall k | 0 <= k < |ns| :: ns[k] in s
  }

  /** Neighbours point at each other. */
  ghost predicate Chain(ns: seq<Node>)
    reads ns
  {
    && (forall k {:trigger ns[k].next} | 0 <= k < |ns| - 1 :: ns[k].next == ns[k + 1])
    && (forall k {:trigger ns[k].prev} | 0 < k < |ns| :: ns[k].prev == ns[k - 1])
  }

  lemma ChainJoin(a: seq<Node>, b: seq<Node>)
    requires Chain(a) && Chain(b)
    requires a != [] && b != [] && a[|a| - 1].next == b[0] && b[0].prev == a[|a| - 1]
    ensures Chain(a + b)
  {
  }

  /** Makes `n`, at the end of one chain, and `r`, at the start of another, neighbours. */
  method Join(n: Node, r: Node, ghost a: seq<Node>, ghost b: seq<Node>)
    requires Chain(a) && Chain(b) && a != [] && b != [] && Distinct(a + b)
    requires a[|a| - 1] == n && b[0] == r
    modifies n`next, r`prev
    ensures Chain(a + b)
  {
    forall k | 0 <= k < |a| ensures a[k] != r && (k < |a| - 1 ==> a[k] != n) {
      assert a[k] == (a + b)[k] && r == (a + b)[|a|] && n == (a + b)[|a| - 1];
    }
    forall k | 0 <= k < |b| ensures b[k] != n && (k > 0 ==> b[k] != r) {
      assert b[k] == (a + b)[|a| + k] && r == (a + b)[|a|] && n == (a + b)[|a| - 1];
    }
    n.next := r;
    r.prev := n;
    ChainJoin(a, b);
  }

  ghost function Inserted(ns: seq<Node>, k: nat, a: Node): seq<Node>
    requires k < |ns|
  {
    ns[..k + 1] + [a] + ns[k + 1..]
  }

  lemma InsertedNodes(ns: seq<Node>, k: nat, a: Node, s: set<Node>)
    requires k < |ns| - 1 && Distinct(ns) && AllIn(ns, s) && a !in s
    ensures var r := Inserted(ns, k, a);
            && Distinct(r) && AllIn(r, s + {a})
            && r[0] == ns[0] && r[|r| - 1] == ns[|ns| - 1]
  {
  }

  /** A node put behind the `k`-th of a list with sentinels puts its piece at `k`. */
  lemma InsertedPieces(ns: seq<Node>, k: nat, a: Node)
    requires k < |ns| - 1 && Framed(ns) && a.value.Some?
    ensures var r := Inserted(ns, k, a);
            && Framed(r)
            && Contents(r) == Contents(ns)[..k] + [a.value.value] + Contents(ns)[k..]
  {
    var r := Inserted(ns, k, a);
    assert r[1..|r| - 1] == ns[1..|ns| - 1][..k] + [a] + ns[1..|ns| - 1][k..];
  }

  ghost function Removed(ns: seq<Node>, k: nat, m: nat): seq<Node>
    requires k <= m < |ns|
  {
    ns[..k + 1] + ns[m + 1..]
  }

  lemma RemovedNodes(ns: seq<Node>, k: nat, m: nat, s: set<Node>)
    requires k <= m < |ns| - 1 && Distinct(ns) && AllIn(ns, s)
    ensures var r := Removed(ns, k, m);
            && Distinct(r) && AllIn(r, s)
            && r[0] == ns[0] && r[|r| - 1] == ns[|ns| - 1]
  {
  }

  lemma RemovedPieces(ns: seq<Node>, k: nat, m: nat)
    requires k <= m < |ns| - 1 && Framed(ns)
    ensures var r := Removed(ns, k, m);
            && Framed(r)
            && Contents(r) == Contents(ns)[..k] + Contents(ns)[m..]
  {
    var r := Removed(ns, k, m);
    assert r[1..|r| - 1] == ns[1..|ns| - 1][..k] + ns[1..|ns| - 1][m..];
  }

  class TokenList {
    const head: Node
    const tail: Node
    var length: int

    ghost var nodes: seq<Node>  // the nodes in order, sentinels included
    ghost var repr: set<Node>   // every node ever linked in

    ghost predicate Valid()
      reads this, repr
    {
      && Framed(nodes) && nodes[0] == head && nodes[|nodes| - 1] == tail
      && Distinct(nodes)
      && AllIn(nodes, repr) && Chain(nodes)
      && head.value.None? && tail.value.None?
      && length == |nodes| - 2
    }

    /** What the list holds between its sentinels. */
    ghost function Pieces(): (ps: seq<Piece>)
      reads this, repr
      requires Valid()
      ensures |ps| == |nodes| - 2 == length
    {
      Contents(nodes)
    }

    constructor ()
      ensures Valid() && fresh(repr) && nodes == [head, tail] && Pieces() == []
    {
      var h := new Node(None, null, null);
      var t := new Node(None, h, null);
      h.next := t;
      head, tail, length := h, t, 0;
      nodes, repr := [h, t], {h, t};
    }

    /** Links a new node in behind node `n`, the `k`-th. */
    method AddAfter(n: Node, v: Piece, ghost k: nat) returns (a: Node)
      requires Valid() && k < |nodes| - 1 && nodes[k] == n
      modifies this, repr
      ensures Valid() && fresh(a) && a.value == Some(v)
      ensures repr == old(repr) + {a}
      ensures nodes == Inserted(old(nodes), k, a)
      ensures nodes[..k + 1] == old(nodes[..k + 1]) && nodes[k + 1] == a
      ensures Pieces() == old(Pieces()[..k]) + [v] + old(Pieces()[k..])
    {
      hide Inner, PiecesOf;
      var r := n.next;
      a := new Node(Some(v), n, r);
      ghost var front, back := nodes[..k + 1], nodes[k + 1..];
      InsertedNodes(nodes, k, a, repr);
      InsertedPieces(nodes, k, a);
      Join(n, a, front, [a]);
      Join(a, r, front + [a], back);
      length := length + 1;
      nodes := Inserted(nodes, k, a);
      repr := repr + {a};
    }

    /** Unlinks up to `count` nodes behind node `n`, the `k`-th, stopping at the tail. */
    method RemoveRange(n: Node, count: nat, ghost k: nat)
      requires Valid() && k < |nodes| - 1 && nodes[k] == n
      modifies this, repr
      ensures Valid() && repr == old(repr)
      ensures var m := if k + count < old(|nodes|) - 2 then k + count else old(|nodes|) - 2;
              && nodes == Removed(old(nodes), k, m)
              && nodes[..k + 1] == old(nodes[..k + 1])
              && Pieces() == old(Pieces()[..k]) + old(Pieces())[m..]
    {
      var r, i := n.next, 0;
      while i < count && r != tail
        invariant 0 <= i <= count && k + i < |nodes| - 1
        invariant r == nodes[k + 1 + i]
      {
        r := r.next;
        i := i + 1;
      }
      Unlink(n, r, i, k);
    }

    /** Links node `n`, the `k`-th, to the node `i + 1` places behind it. */
    method Unlink(n: Node, r: Node, i: nat, ghost k: nat)
      requires Valid() && k + i < |nodes| - 1 && nodes[k] == n && r == nodes[k + 1 + i]
      modifies this, repr
      ensures Valid() && repr == old(repr)
      ensures nodes == Removed(old(nodes), k, k + i)
      ensures Pieces() == old(Pieces()[..k]) + old(Pieces())[k + i..]
    {
      hide Inner, PiecesOf;
      ghost var front, back := nodes[..k + 1], nodes[k + i + 1..];
      RemovedNodes(nodes, k, k + i, repr);
      RemovedPieces(nodes, k, k + i);
      Join(n, r, front, back);
      length := length - i;
      nodes := front + back;
    }

    /** The values between the sentinels, in order. */
    method ToArray() returns (ps: seq<Piece>)
      requires Valid()
      ensures ps == Pieces()
    {
      ps := [];
      var t := head.next;
      ghost var k := 0;
      while t != tail
        invariant 0 <= k < |nodes| - 1 && t == nodes[k + 1]
        invariant ps == Pieces()[..k]
        decreases |nodes| - k
      {
        ps := ps + [t.value.value];
        t := t.next;
        k := k + 1;
      }
    }
  }
}
