/** Uploading the sensor configuration: a request body arrives in chunks and is put together in one
    buffer that all requests share. */
module ConfigUpload {
  import opened Wrappers

  type Bytes = seq<bv8>

  const BUFFER_SIZE: nat := 24576
  const ENOMEM: int := 12

  datatype Status = Aborted | More | Final

  // One call of the handler: whose request it is, how far along, and the chunk that has come.
  datatype Call = Call(client: nat, status: Status, data: Bytes)

  // The handler's result, the body handed on, and the message with which an error is answered.
  datatype Reply = Reply(code: int, body: Option<Bytes>, failure: Option<string>)

  // What becomes of a configuration: None when it is taken over, or what the exception says.
  type Updater = Bytes -> Option<string>

  // ----- what the handler does to the bytes it holds

  predicate Overflows(held: Bytes, c: Call) {
    !c.status.Aborted? && |held| + |c.data| > BUFFER_SIZE
  }

  /** The bytes held after a call. */
  function After(held: Bytes, c: Call): Bytes {
    if c.status.More? && !Overflows(held, c) then held + c.data else []
  }

  function ReplyTo(held: Bytes, c: Call, update: Updater): Reply {
    if Overflows(held, c) then Reply(-ENOMEM, None, None)
    else if c.status.Final? then
      var body := held + c.data;
      match update(body)
      case None => Reply(0, Some(body), None)
      case Some(what) => Reply(0, Some(body), Some("Failed to parse JSON: " + what))
    else Reply(0, None, None)
  }

  class SensorsApiController {
    const buffer: array<bv8>
    var cursor: nat
    ghost var held: Bytes  // the chunks that have come and not been handed on or dropped

    ghost predicate Valid()
      reads this, buffer
    {
      && buffer.Length == BUFFER_SIZE
      && cursor <= buffer.Length
      && buffer[..cursor] == held
    }

    constructor ()
      ensures Valid() && fresh(buffer) && held == []
    {
      buffer := new bv8[BUFFER_SIZE];
      cursor := 0;
      held := [];
    }

    /** One chunk of a request body. */
    method SensorsConfigPostHandler(c: Call, update: Updater) returns (r: Reply)
      requires Valid()
      modifies this, buffer
      ensures Valid()
      ensures held == After(old(held), c)
      ensures r == ReplyTo(old(held), c, update)
    {
      if c.status.Aborted? {
        cursor, held := 0, [];
        return Reply(0, None, None);
      }
      if |c.data| + cursor > buffer.Length {
        cursor, held := 0, [];
        return Reply(-ENOMEM, None, None);
      }
      Copy(c.data);
      cursor := cursor + |c.data|;
      held := held + c.data;
      r := Reply(0, None, None);
      if c.status.Final? {
        var failure := UpdateSensorsConfig(buffer[..cursor], update);
        r := Reply(0, Some(buffer[..cursor]),
                   if failure.None? then None else Some("Failed to parse JSON: " + failure.value));
        cursor, held := 0, [];
      }
    }

    /** `memcpy` to the end of what is held. */
    method Copy(data: Bytes)
      requires cursor + |data| <= buffer.Length
      modifies buffer
      ensures buffer[..cursor] == old(buffer[..cursor])
      ensures buffer[..cursor + |data|] == old(buffer[..cursor]) + data
    {
      for i := 0 to |data|
        invariant buffer[..cursor] == old(buffer[..cursor])
        invariant buffer[cursor..cursor + i] == data[..i]
      {
        buffer[cursor + i] := data[i];
      }
      assert buffer[..cursor + |data|] == buffer[..cursor] + buffer[cursor..cursor + |data|];
    }

    method UpdateSensorsConfig(body: Bytes, update: Updater) returns (failure: Option<string>)
      ensures failure == update(body)
    {
      failure := update(body);
    }
  }

  // ----- over any sequence of calls

  /** The bytes held after a sequence of calls. */
  function Held(cs: seq<Call>): Bytes {
    if cs == [] then [] else After(Held(cs[..|cs| - 1]), cs[|cs| - 1])
  }

  /** Call `n` ends a body: it aborts, overflows, or is the last chunk. */
  predicate Ends(cs: seq<Call>, n: nat)
    requires n < |cs|
  {
    !cs[n].status.More? || Overflows(Held(cs[..n]), cs[n])
  }

  /** Where the body in progress begins: behind the last call that ended one. */
  function Begin(cs: seq<Call>): (m: nat)
    ensures m <= |cs|
    ensures m > 0 ==> Ends(cs, m - 1)
    ensures forall n | m <= n < |cs| :: !Ends(cs, n)
  {
    if cs == [] || Ends(cs, |cs| - 1) then |cs|
    else
      var front := cs[..|cs| - 1];
      EndsBefore(cs);
      Begin(front)
  }

  lemma EndsBefore(cs: seq<Call>)
    requires cs != []
    ensures forall n | 0 <= n < |cs| - 1 :: Ends(cs[..|cs| - 1], n) == Ends(cs, n)
  {
    forall n | 0 <= n < |cs| - 1 ensures Ends(cs[..|cs| - 1], n) == Ends(cs, n) {
      assert cs[..|cs| - 1][..n] == cs[..n];
    }
  }

  /** The chunks one after the other. */
  function Joined(cs: seq<Call>): Bytes {
    if cs == [] then [] else Joined(cs[..|cs| - 1]) + cs[|cs| - 1].data
  }

  /** What is held is the concatenation of the chunks since the last abort, overflow or final
      chunk, and it always fits the buffer. */
  lemma {:induction false} HeldIsJoined(cs: seq<Call>)
    ensures Held(cs) == Joined(cs[Begin(cs)..])
    ensures |Held(cs)| <= BUFFER_SIZE
  {
    var m := Begin(cs);
    if m < |cs| {
      HeldIsJoined(cs[..|cs| - 1]);
      assert cs[m..][..|cs| - m - 1] == cs[..|cs| - 1][m..];
    }
  }

  /** A chunk is refused exactly when it would not fit behind the chunks of its body so far, every
      other call succeeds, the last chunk hands on exactly the chunks of its body, in order, and an
      exception is answered with what it says. */
  lemma RepliesToBody(cs: seq<Call>, c: Call, update: Updater)
    ensures var body, r := Joined(cs[Begin(cs)..] + [c]), ReplyTo(Held(cs), c, update);
            && r.code == (if !c.status.Aborted? && |body| > 24576 then -12 else 0)
            && (r.body == if c.status.Final? && r.code == 0 then Some(body) else None)
            && r.failure == (if r.body.Some? && update(body).Some?
                             then Some("Failed to parse JSON: " + update(body).value) else None)
  {
    HeldIsJoined(cs);
    JoinedOn(cs[Begin(cs)..], c);
  }

  lemma JoinedOn(cs: seq<Call>, c: Call)
    ensures Joined(cs + [c]) == Joined(cs) + c.data
  {
    assert (cs + [c])[..|cs|] == cs;
  }

  // ----- one buffer for all clients

  /** Numbers of calls among the first `n`. */
  predicate Below(ns: seq<nat>, n: nat) {
    forall k | 0 <= k < |ns| :: ns[k] < n
  }

  /** The calls, by number, whose bytes are held. */
  function HeldCalls(cs: seq<Call>): (ns: seq<nat>)
    ensures Below(ns, |cs|)
  {
    if cs == [] || Ends(cs, |cs| - 1) then [] else HeldCalls(cs[..|cs| - 1]) + Number(cs)
  }

  /** The calls, by number, that make up a client's body so far: those with bytes since the client
      itself last aborted, was refused, or sent its last chunk. */
  function OwnCalls(cs: seq<Call>, client: nat): (ns: seq<nat>)
    ensures Below(ns, |cs|)
  {
    if cs == [] then []
    else
      var front := OwnCalls(cs[..|cs| - 1], client);
      if cs[|cs| - 1].client != client then front
      else if Ends(cs, |cs| - 1) then []
      else front + Number(cs)
  }

  function Number(cs: seq<Call>): seq<nat>
    requires cs != []
  {
    if cs[|cs| - 1].data == [] then [] else [|cs| - 1]
  }

  /** Both are what they are called: a call is among them exactly when it brought bytes and no call
      since, or none of the client's since, has ended a body. */
  lemma {:induction false} CallsAre(cs: seq<Call>, client: nat, n: nat)
    requires n < |cs|
    ensures n in HeldCalls(cs) <==> cs[n].data != [] && forall k | n <= k < |cs| :: !Ends(cs, k)
    ensures n in OwnCalls(cs, client) <==>
              && cs[n].client == client && cs[n].data != []
              && forall k | n <= k < |cs| && cs[k].client == client :: !Ends(cs, k)
  {
    hide Ends;
    EndsBefore(cs);
    if n < |cs| - 1 {
      var front := cs[..|cs| - 1];
      CallsAre(front, client, n);
      assert forall k | n <= k < |front| :: front[k] == cs[k] && Ends(front, k) == Ends(cs, k);
    }
  }

  /** The bytes of some of the calls, one after the other. */
  function Gathered(cs: seq<Call>, ns: seq<nat>): Bytes
    requires Below(ns, |cs|)
  {
    if ns == [] then [] else Gathered(cs, ns[..|ns| - 1]) + cs[ns[|ns| - 1]].data
  }

  lemma {:induction false} GatheredBefore(cs: seq<Call>, c: Call, ns: seq<nat>)
    requires Below(ns, |cs|)
    ensures Gathered(cs + [c], ns) == Gathered(cs, ns)
  {
    if ns != [] {
      GatheredBefore(cs, c, ns[..|ns| - 1]);
    }
  }

  lemma GatheredMore(cs: seq<Call>, c: Call, ns: seq<nat>)
    requires Below(ns, |cs|)
    ensures Gathered(cs + [c], ns + Number(cs + [c])) == Gathered(cs, ns) + c.data
  {
    GatheredBefore(cs, c, ns);
    if c.data != [] {
      assert (ns + [|cs|])[..|ns|] == ns;
    } else {
      assert ns + [] == ns;
    }
  }

  lemma SameFront<T>(a: seq<T>, b: seq<T>, last: seq<T>)
    ensures a + last == b + last <==> a == b
  {
    if a + last == b + last {
      assert a == (a + last)[..|a|] && b == (b + last)[..|b|];
    }
  }

  lemma {:induction false} HeldAreCalls(cs: seq<Call>)
    ensures Held(cs) == Gathered(cs, HeldCalls(cs))
    ensures Held(cs) == [] <==> HeldCalls(cs) == []
  {
    hide Overflows;
    if cs != [] && !Ends(cs, |cs| - 1) {
      var front, c := cs[..|cs| - 1], cs[|cs| - 1];
      HeldAreCalls(front);
      assert front + [c] == cs;
      GatheredMore(front, c, HeldCalls(front));
    }
  }

  /** Where the body of a client that sends its next chunk now begins. */
  function First(cs: seq<Call>, client: nat): (m: nat)
    ensures m <= |cs|
  {
    if OwnCalls(cs, client) == [] then |cs| else OwnCalls(cs, client)[0]
  }

  /** Nothing was held when the first of the client's chunks that brings bytes came, or comes now, and
      since then no other client has sent any bytes, aborted, or sent a last chunk. */
  predicate Undisturbed(cs: seq<Call>, client: nat) {
    LeftFrom(cs, client, First(cs, client))
  }

  predicate LeftFrom(cs: seq<Call>, client: nat, m: nat)
    requires m <= |cs|
  {
    && Held(cs[..m]) == []
    && forall n | m < n < |cs| && cs[n].client != client :: cs[n].status.More? && cs[n].data == []
  }

  lemma LeftAll(cs: seq<Call>, client: nat)
    ensures LeftFrom(cs, client, |cs|) <==> Held(cs) == []
  {
    assert cs[..|cs|] == cs;
  }

  lemma LeftOn(cs: seq<Call>, c: Call, client: nat, m: nat)
    requires m < |cs|
    ensures LeftFrom(cs + [c], client, m) <==>
              LeftFrom(cs, client, m) && (c.client == client || (c.status.More? && c.data == []))
  {
    hide Held;
    var all := cs + [c];
    assert all[..m] == cs[..m] && all[|cs|] == c;
    forall n | 0 <= n < |cs| ensures all[n] == cs[n] {
    }
  }

  lemma LeftLast(cs: seq<Call>, c: Call, client: nat)
    ensures LeftFrom(cs + [c], client, |cs|) <==> Held(cs) == []
  {
    assert (cs + [c])[..|cs|] == cs;
  }

  lemma OneCallMore(cs: seq<Call>, c: Call, client: nat)
    requires HeldCalls(cs) == OwnCalls(cs, client) <==> Undisturbed(cs, client)
    ensures HeldCalls(cs + [c]) == OwnCalls(cs + [c], client) <==> Undisturbed(cs + [c], client)
  {
    hide Held, HeldCalls, OwnCalls, Overflows, LeftFrom;
    var all, m := cs + [c], First(cs, client);
    Unfolded(cs, c, client);
    Unfolded(all, c, client);
    LeftAll(cs, client);
    LeftAll(all, client);
    LeftLast(cs, c, client);
    if m < |cs| {
      LeftOn(cs, c, client, m);
    }
    if Ends(all, |cs|) {
      assert c.client == client ==> First(all, client) == |all|;
    } else if c.data == [] {
      assert HeldCalls(all) == HeldCalls(cs) && OwnCalls(all, client) == OwnCalls(cs, client);
    } else if c.client == client {
      SameFront(HeldCalls(cs), OwnCalls(cs, client), [|cs|]);
      assert First(all, client) == m;
    } else {
      assert HeldCalls(all)[|HeldCalls(all)| - 1] == |cs|;
      assert HeldCalls(all) != OwnCalls(cs, client);
    }
  }

  /** What one more call does to all of these. */
  lemma Unfolded(cs: seq<Call>, c: Call, client: nat)
    ensures var all, number := cs + [c], Number(cs + [c]);
            && Ends(all, |cs|) == (!c.status.More? || Overflows(Held(cs), c))
            && (Overflows(Held(cs), c) ==> c.data != [])
            && Held(all) == (if Ends(all, |cs|) then [] else Held(cs) + c.data)
            && HeldCalls(all) == (if Ends(all, |cs|) then [] else HeldCalls(cs) + number)
            && OwnCalls(all, client)
               == (if c.client != client then OwnCalls(cs, client)
                   else if Ends(all, |cs|) then [] else OwnCalls(cs, client) + number)
            && (Held(cs) == [] <==> HeldCalls(cs) == [])
  {
    assert (cs + [c])[..|cs|] == cs;
    HeldIsJoined(cs);
    HeldAreCalls(cs);
  }

  /** The bytes held are the client's own body exactly when it has been left undisturbed. */
  lemma {:induction false} HeldIsOwnIff(cs: seq<Call>, client: nat)
    ensures HeldCalls(cs) == OwnCalls(cs, client) <==> Undisturbed(cs, client)
  {
    hide HeldCalls, OwnCalls, Undisturbed;
    if cs == [] {
      NoCalls(client);
    } else {
      var front, c := cs[..|cs| - 1], cs[|cs| - 1];
      HeldIsOwnIff(front, client);
      assert cs == front + [c];
      OneCallMore(front, c, client);
    }
  }

  lemma NoCalls(client: nat)
    ensures HeldCalls([]) == OwnCalls([], client) && Undisturbed([], client)
  {
  }

  /** The body handed on at a client's last chunk is made up of exactly its own chunks, counted by
      calls and not by what happens to be in them, if and only if it has been left undisturbed. */
  lemma OwnBodyIff(cs: seq<Call>, c: Call, update: Updater)
    requires c.status.Final? && !Overflows(Held(cs), c)
    ensures var all, last := cs + [c], Number(cs + [c]);
            && ReplyTo(Held(cs), c, update).body == Some(Gathered(all, HeldCalls(cs) + last))
            && (HeldCalls(cs) + last == OwnCalls(cs, c.client) + last <==> Undisturbed(cs, c.client))
  {
    hide Undisturbed, HeldCalls, OwnCalls, Held;
    HeldAreCalls(cs);
    HeldIsOwnIff(cs, c.client);
    GatheredMore(cs, c, HeldCalls(cs));
    SameFront(HeldCalls(cs), OwnCalls(cs, c.client), Number(cs + [c]));
  }

  // Client 1 sends two chunks; client 2 comes in between.
  function Between(other: Call): seq<Call> { [Call(1, More, [7]), other] }

  const LAST_CHUNK := Call(1, Final, [8])

  lemma OneChunk(held: Bytes, c: Call, update: Updater)
    requires c.status.Final? && |held| + |c.data| <= BUFFER_SIZE
    requires held == [] || c.data == []
    ensures ReplyTo(held, c, update).body == Some(if held == [] then c.data else held)
  {
    assert held + c.data == if held == [] then c.data else held;
  }

  /** Another client's abort, or its empty last chunk, takes away what client 1 has sent. */
  lemma CutShort(other: Call, update: Updater)
    requires other == Call(2, Aborted, []) || other == Call(2, Final, [])
    ensures ReplyTo(Held(Between(other)), LAST_CHUNK, update).body == Some([8])
    ensures OwnCalls(Between(other), 1) == [0] && !Undisturbed(Between(other), 1)
    ensures other.status.Final? ==> ReplyTo(Held([Call(1, More, [7])]), other, update).body == Some([7])
  {
    var cs := Between(other);
    assert cs[..1] == [Call(1, More, [7])] && cs[..1][..0] == [];
    assert Held(cs[..1]) == [7] && OwnCalls(cs[..1], 1) == [0];
    OneChunk([], LAST_CHUNK, update);
    if other.status.Final? {
      OneChunk([7], other, update);
    }
  }
}
