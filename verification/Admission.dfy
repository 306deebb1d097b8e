/** The two counted gates: the admission semaphore (internal/admit/admit.go) and
    the connection cap (internal/httpx/limitlistener.go), as a machine over
    their atomic steps and as the sequential operations those steps make up. */
module Admission {

  /** Where a holder is between being admitted and having given its slot back.
      Sent: its token is in the channel. Held: admitted to the caller. Freeing:
      its release won the once. Lowered: it no longer counts as in flight and
      its receive is due. Returned: the token has been taken out again. */
  datatype Phase = Sent | Held | Freeing | Lowered | Returned

  datatype Action = Send(h: nat) | Count(h: nat) | Free(h: nat) | Lower(h: nat) | Receive(h: nat)

  datatype Outcome = Moved(gate: Gate) | Refused | Blocked | Disabled

  /** slots is the channel's length. counted tells the semaphore, which keeps an
      atomic in-flight counter, from the listener, which keeps none. */
  datatype Gate = Gate(size: nat, counted: bool, slots: int, inFlight: int, holders: map<nat, Phase>) {

    ghost function Occupying(): set<nat> { set h | h in holders && holders[h] != Returned }

    ghost function Counted(): set<nat> { set h | h in holders && (holders[h] == Held || holders[h] == Freeing) }

    ghost predicate Inv() {
      && slots == |Occupying()| && slots <= size
      && inFlight == (if counted then |Counted()| else 0)
      && (!counted ==> forall h | h in holders :: holders[h] != Sent && holders[h] != Freeing)
    }

    /** One atomic step of one goroutine. Disabled: not a step that goroutine can
        be at. A release may be called again at any time; the once makes every
        call after the first do nothing. */
    function Step(a: Action): Outcome {
      var phase := if a.h in holders then holders[a.h] else Returned;
      match a
      case Send(h) =>
        if h in holders then Disabled
        else if slots < size then Moved(this.(slots := slots + 1, holders := holders[h := if counted then Sent else Held]))
        else Refused
      case Count(h) =>
        if phase != Sent then Disabled
        else Moved(this.(inFlight := inFlight + 1, holders := holders[h := Held]))
      case Free(h) =>
        if h !in holders || phase == Sent then Disabled
        else if phase != Held then Moved(this)
        else Moved(this.(holders := holders[h := if counted then Freeing else Lowered]))
      case Lower(h) =>
        if phase != Freeing then Disabled
        else Moved(this.(inFlight := inFlight - 1, holders := holders[h := Lowered]))
      case Receive(h) =>
        if phase != Lowered then Disabled
        else if slots == 0 then Blocked
        else Moved(this.(slots := slots - 1, holders := holders[h := Returned]))
    }

    lemma SetHolder(h: nat, p: Phase)
      ensures var g := this.(holders := holders[h := p]);
              && g.Occupying() == (if p == Returned then Occupying() - {h} else Occupying() + {h})
              && g.Counted() == (if p == Held || p == Freeing then Counted() + {h} else Counted() - {h})
    {
    }

    lemma Sizes(h: nat)
      ensures |Occupying() + {h}| == |Occupying()| + if h in Occupying() then 0 else 1
      ensures |Occupying() - {h}| == |Occupying()| - if h in Occupying() then 1 else 0
      ensures |Counted() + {h}| == |Counted()| + if h in Counted() then 0 else 1
      ensures |Counted() - {h}| == |Counted()| - if h in Counted() then 1 else 0
    {
    }

    /** A holder moving to phase p, and the counters with it, keeps the books. */
    lemma MoveKeeps(h: nat, p: Phase, slots': int, inFlight': int)
      requires Inv() && slots' <= size
      requires slots' == slots + (if p == Returned then (if h in Occupying() then -1 else 0)
                                  else if h in Occupying() then 0 else 1)
      requires inFlight' == if !counted then 0
                            else inFlight + (if p == Held || p == Freeing then (if h in Counted() then 0 else 1)
                                             else if h in Counted() then -1 else 0)
      requires !counted ==> p != Sent && p != Freeing
      ensures this.(slots := slots', inFlight := inFlight', holders := holders[h := p]).Inv()
    {
      hide Occupying, Counted;
      var g := this.(holders := holders[h := p]);
      var moved := this.(slots := slots', inFlight := inFlight', holders := holders[h := p]);
      SetHolder(h, p);
      Sizes(h);
      SameHolders(g, moved);
    }

    /** Every step keeps the books, and no receive ever blocks. */
    lemma StepKeeps(a: Action)
      requires Inv()
      ensures Step(a).Moved? ==> Step(a).gate.Inv()
      ensures Step(a) != Blocked
      ensures Step(a) == Refused <==> a.Send? && a.h !in holders && slots == size
    {
      var h := a.h;
      if a.Receive? && h in holders && holders[h] == Lowered {
        Sizes(h);
        assert h in Occupying();
      }
      if Step(a).Moved? {
        match a
        case Send(_) => MoveKeeps(h, if counted then Sent else Held, slots + 1, inFlight);
        case Count(_) => MoveKeeps(h, Held, slots, inFlight + 1);
        case Free(_) => if holders[h] == Held { MoveKeeps(h, if counted then Freeing else Lowered, slots, inFlight); }
        case Lower(_) => MoveKeeps(h, Lowered, slots, inFlight - 1);
        case Receive(_) => MoveKeeps(h, Returned, slots - 1, inFlight);
      }
    }

    lemma CountedOccupy()
      requires Inv()
      ensures 0 <= inFlight <= slots <= size
    {
      assert Occupying() == Counted() + (Occupying() - Counted());
    }

    /** The gate after some steps. A caller that is refused goes away and leaves
        the gate as it is; so does a step its goroutine is not at. */
    ghost function Run(actions: seq<Action>): Gate {
      if actions == [] then this
      else
        var before := Run(actions[..|actions| - 1]);
        match before.Step(actions[|actions| - 1])
        case Moved(after) => after
        case _ => before
    }

    /** What the i-th step of a run comes to. */
    ghost function StepAt(actions: seq<Action>, i: nat): Outcome
      requires i < |actions|
    {
      Run(actions[..i]).Step(actions[i])
    }

    /** How often h's token is taken out of the channel. */
    ghost function Receives(actions: seq<Action>, h: nat): nat {
      if actions == [] then 0
      else
        var last := |actions| - 1;
        Receives(actions[..last], h) + if actions[last] == Receive(h) && StepAt(actions, last).Moved? then 1 else 0
    }

    lemma Steps(a: Action)
      ensures Run([a]) == match Step(a) case Moved(after) => after case _ => this
    {
      assert [a][..0] == [];
    }

    lemma StepThen(front: seq<Action>, a: Action)
      ensures Run(front + [a]) == match Run(front).Step(a) case Moved(after) => after case _ => Run(front)
    {
      assert (front + [a])[..|front|] == front;
    }
  }

  lemma SameHolders(a: Gate, b: Gate)
    requires a.holders == b.holders
    ensures a.Occupying() == b.Occupying() && a.Counted() == b.Counted()
  {
  }

  function Empty(size: nat, counted: bool): Gate { Gate(size, counted, 0, 0, map[]) }

  /** Over every interleaving of the steps, refusals included and release or
      Close called any number of times: the counter never exceeds the slots in
      use, nor those the size, and a holder gives its slot back at most once,
      which it has exactly when it is Returned. */
  lemma {:induction false} AnyInterleaving(size: nat, counted: bool, actions: seq<Action>, h: nat)
    ensures var g0 := Empty(size, counted); var g := g0.Run(actions);
            && g.Inv() && g.size == size && g.counted == counted
            && 0 <= g.inFlight <= g.slots <= size
            && g0.Receives(actions, h) == if h in g.holders && g.holders[h] == Returned then 1 else 0
    decreases |actions|
  {
    var g0 := Empty(size, counted);
    if actions == [] {
      assert g0.Occupying() == {} && g0.Counted() == {};
    } else {
      var front := actions[..|actions| - 1];
      AnyInterleaving(size, counted, front, h);
      g0.Run(front).StepKeeps(actions[|actions| - 1]);
      g0.Run(actions).CountedOccupy();
    }
  }

  /** At every point of every interleaving: no receive blocks, and a new caller is
      refused exactly when all slots are taken. */
  lemma EveryStep(size: nat, counted: bool, actions: seq<Action>, i: nat)
    requires i < |actions|
    ensures var g0 := Empty(size, counted); var step := g0.StepAt(actions, i); var before := g0.Run(actions[..i]);
            && step != Blocked
            && (step == Refused <==> actions[i].Send? && actions[i].h !in before.holders && before.slots == size)
  {
    AnyInterleaving(size, counted, actions[..i], actions[i].h);
    Empty(size, counted).Run(actions[..i]).StepKeeps(actions[i]);
  }

  /** Once every holder has returned its slot the gate is as it was at first. */
  lemma AllReturned(g: Gate)
    requires g.Inv() && forall h | h in g.holders :: g.holders[h] == Returned
    ensures g.slots == 0 && g.inFlight == 0
  {
  }

  // ---- the operations, run to completion ----

  class Semaphore {
    const size: nat
    var slots: int
    var inFlight: int
    ghost var holders: map<nat, Phase>

    ghost function Model(): Gate
      reads this
    {
      Gate(size, true, slots, inFlight, holders)
    }

    ghost predicate Valid()
      reads this
    {
      Model().Inv() && forall h | h in holders :: holders[h] == Held || holders[h] == Returned
    }

    constructor (size: nat)
      requires size >= 1
      ensures Valid() && Model() == Empty(size, true)
    {
      this.size := size;
      slots, inFlight, holders := 0, 0, map[];
      new;
      assert Model().Occupying() == {} && Model().Counted() == {};
    }

    /** Takes a slot exactly when one is free, as Send then Count. */
    method TryAcquire(ghost h: nat) returns (lease: Lease?)
      requires Valid() && h !in holders
      modifies this
      ensures Valid()
      ensures lease == null <==> old(inFlight) == size
      ensures lease == null <==> old(Model()).Step(Send(h)) == Refused
      ensures lease == null ==> Model() == old(Model())
      ensures lease != null ==>
                && fresh(lease) && lease.h == h && !lease.done && lease.gate == this
                && Model() == old(Model()).Run([Send(h), Count(h)])
    {
      ghost var start := Model();
      assert start.Occupying() == start.Counted();
      start.StepKeeps(Send(h));
      if slots >= size {
        return null;
      }
      TwoSteps(start, Send(h), Count(h));
      slots := slots + 1;
      inFlight := inFlight + 1;
      holders := holders[h := Held];
      assert start.Run([Send(h), Count(h)]) == Model();
      lease := new Lease(this, h);
    }
  }

  lemma TwoSteps(g: Gate, a: Action, b: Action)
    requires g.Inv() && g.Step(a).Moved? && g.Step(a).gate.Step(b) != Disabled && !b.Send?
    ensures g.Step(a).gate.Step(b).Moved?
    ensures g.Run([a, b]) == g.Step(a).gate.Step(b).gate && g.Run([a, b]).Inv()
  {
    g.Steps(a);
    g.StepThen([a], b);
    assert [a] + [b] == [a, b];
    g.StepKeeps(a);
    g.Step(a).gate.StepKeeps(b);
  }

  /** The closure TryAcquire returns; done is its sync.Once. */
  class Lease {
    const gate: Semaphore
    ghost const h: nat
    var done: bool

    constructor (gate: Semaphore, ghost h: nat)
      ensures this.gate == gate && this.h == h && !done
    {
      this.gate, this.h, done := gate, h, false;
    }

    /** Gives the slot back the first time and does nothing after that. */
    method Release()
      requires gate.Valid() && h in gate.holders && (done <==> gate.holders[h] == Returned)
      modifies this, gate
      ensures gate.Valid() && done && h in gate.holders && gate.holders[h] == Returned
      ensures old(done) ==> gate.Model() == old(gate.Model())
      ensures !old(done) ==>
                && gate.Model() == old(gate.Model()).Run([Free(h), Lower(h), Receive(h)])
                && gate.inFlight == old(gate.inFlight) - 1
    {
      if !done {
        done := true;
        ghost var start := gate.Model();
        ThreeSteps(start, Free(h), Lower(h), Receive(h));
        gate.inFlight := gate.inFlight - 1;
        gate.slots := gate.slots - 1;
        gate.holders := gate.holders[h := Returned];
        assert start.Run([Free(h), Lower(h), Receive(h)]) == gate.Model();
      }
    }
  }

  lemma ThreeSteps(g: Gate, a: Action, b: Action, c: Action)
    requires g.Inv() && g.Step(a).Moved? && g.Step(a).gate.Step(b).Moved? && !b.Send?
    requires g.Step(a).gate.Step(b).gate.Step(c) != Disabled && !c.Send?
    ensures g.Step(a).gate.Step(b).gate.Step(c).Moved?
    ensures g.Run([a, b, c]) == g.Step(a).gate.Step(b).gate.Step(c).gate && g.Run([a, b, c]).Inv()
  {
    TwoSteps(g, a, b);
    g.StepThen([a, b], c);
    assert [a, b] + [c] == [a, b, c];
    g.Run([a, b]).StepKeeps(c);
  }

  // ---- the connection cap ----

  /** What a waiting Accept sees next: a connection, the listener's own error, or
      the slot another goroutine's Close gives back. */
  datatype Event = Conn(h: nat) | Failure | Closing(conn: LimitConn)

  /** The atomic steps behind an event; closing again what is closed does nothing. */
  ghost function StepsOf(e: Event): seq<Action> {
    match e
    case Conn(h) => [Send(h)]
    case Failure => []
    case Closing(c) => [Free(c.h), Receive(c.h)]
  }

  ghost function AllSteps(events: seq<Event>): seq<Action> {
    if events == [] then [] else AllSteps(events[..|events| - 1]) + StepsOf(events[|events| - 1])
  }

  function Connections(events: seq<Event>): nat {
    if events == [] then 0
    else Connections(events[..|events| - 1]) + if events[|events| - 1].Conn? then 1 else 0
  }

  lemma NextEvent(g: Gate, events: seq<Event>, n: nat)
    requires n < |events|
    ensures var before, after := g.Run(AllSteps(events[..n])), g.Run(AllSteps(events[..n + 1]));
            match events[n]
            case Conn(h) => after == (match before.Step(Send(h)) case Moved(m) => m case _ => before)
            case Failure => after == before
            case Closing(c) => after == before.Run([Free(c.h), Receive(c.h)])
    ensures Connections(events[..n + 1]) == Connections(events[..n]) + if events[n].Conn? then 1 else 0
  {
    var front := AllSteps(events[..n]);
    assert events[..n + 1][..n] == events[..n];
    match events[n]
    case Conn(h) => g.StepThen(front, Send(h));
    case Failure => assert front + [] == front;
    case Closing(c) =>
      g.StepThen(front, Free(c.h));
      g.StepThen(front + [Free(c.h)], Receive(c.h));
      assert front + [Free(c.h)] + [Receive(c.h)] == front + [Free(c.h), Receive(c.h)];
      var before := g.Run(front);
      before.Steps(Free(c.h));
      before.StepThen([Free(c.h)], Receive(c.h));
      assert [Free(c.h)] + [Receive(c.h)] == [Free(c.h), Receive(c.h)];
  }

  /** None of the first n events ended the call: no failure, and every connection
      came while all slots were taken. */
  ghost predicate PassedOver(g: Gate, events: seq<Event>, n: int) {
    forall i | 0 <= i < n && i < |events| ::
      events[i] != Failure && (events[i].Conn? ==> g.Run(AllSteps(events[..i])).slots == g.size)
  }

  lemma PassNext(g: Gate, events: seq<Event>, n: nat)
    requires PassedOver(g, events, n) && n < |events| && events[n] != Failure
    requires events[n].Conn? ==> g.Run(AllSteps(events[..n])).slots == g.size
    ensures PassedOver(g, events, n + 1)
  {
  }

  lemma CloseAgain(g: Gate, h: nat)
    requires h in g.holders && g.holders[h] == Returned
    ensures g.Run([Free(h), Receive(h)]) == g
  {
    g.Steps(Free(h));
    g.StepThen([Free(h)], Receive(h));
    assert [Free(h)] + [Receive(h)] == [Free(h), Receive(h)];
  }

  class LimitListener {
    const max: nat
    var slots: int
    var rejected: nat
    ghost var holders: map<nat, Phase>

    ghost function Model(): Gate
      reads this
    {
      Gate(max, false, slots, 0, holders)
    }

    ghost predicate Valid()
      reads this
    {
      Model().Inv() && forall h | h in holders :: holders[h] == Held || holders[h] == Returned
    }

    constructor (max: nat)
      requires max >= 1
      ensures Valid() && Model() == Empty(max, false) && rejected == 0
    {
      this.max := max;
      slots, rejected, holders := 0, 0, map[];
      new;
      assert Model().Occupying() == {};
    }

    /** The connections that may be closed meanwhile are open ones of this
        listener, each known by one object. */
    ghost predicate Tracks(events: seq<Event>)
      reads this`holders, set e | e in events && e.Closing? :: e.conn
    {
      && (forall e | e in events && e.Closing? ::
            e.conn.listener == this && e.conn.h in holders && (e.conn.done <==> holders[e.conn.h] == Returned))
      && (forall e, e' | e in events && e.Closing? && e' in events && e'.Closing? && e.conn.h == e'.conn.h :: e == e')
    }

    ghost predicate New(events: seq<Event>)
      reads this`holders
    {
      forall e | e in events && e.Conn? :: e.h !in holders
    }

    /** Takes connections until one can be served or the listener fails. Over the
        cap a connection is counted, closed and passed over; it never ends the
        loop. Others may close theirs meanwhile. If the events run out the call is
        still waiting. */
    method Accept(events: seq<Event>) returns (conn: LimitConn?, failed: bool, consumed: nat)
      requires Valid() && Tracks(events) && New(events)
      modifies this, set e | e in events && e.Closing? :: e.conn
      ensures Valid() && Tracks(events) && consumed <= |events|
      ensures Model() == old(Model()).Run(AllSteps(events[..consumed]))
      ensures conn != null ==>
                && fresh(conn) && !failed && consumed > 0 && events[consumed - 1] == Conn(conn.h)
                && conn.listener == this && !conn.done
                && old(Model()).Run(AllSteps(events[..consumed - 1])).Step(Send(conn.h)).Moved?
      ensures failed ==> conn == null && consumed > 0 && events[consumed - 1] == Failure
      ensures conn == null && !failed ==> consumed == |events|
      ensures PassedOver(old(Model()), events, consumed - if conn != null || failed then 1 else 0)
      ensures rejected == old(rejected) + Connections(events[..consumed]) - if conn != null then 1 else 0
    {
      assert Model().Run(AllSteps(events[..0])) == Model() && Connections(events[..0]) == 0;
      assert PassedOver(Model(), events, 0);
      hide Gate.Step, Gate.Inv, Gate.Run, AllSteps, Connections, Tracks, New, PassedOver;
      conn, failed, consumed := null, false, 0;
      ghost var start := Model();
      while consumed < |events|
        invariant consumed <= |events| && conn == null && !failed
        invariant Valid() && Tracks(events) && New(events) && start.size == max
        invariant Model() == start.Run(AllSteps(events[..consumed]))
        invariant rejected == old(rejected) + Connections(events[..consumed])
        invariant PassedOver(start, events, consumed)
      {
        var e := events[consumed];
        NextEvent(start, events, consumed);
        consumed := consumed + 1;
        match e
        case Failure =>
          failed := true;
          return;
        case Conn(h) =>
          assert h !in holders by { assert Conn(h) in events; NewHolder(events, h); }
          conn := TakeOrShed(h);
          if conn != null {
            return;
          }
          PassNext(start, events, consumed - 1);
        case Closing(c) =>
          CloseMeanwhile(events, c);
          PassNext(start, events, consumed - 1);
      }
    }

    lemma NewHolder(events: seq<Event>, h: nat)
      requires New(events) && Conn(h) in events
      ensures h !in holders
    {
    }

    method CloseMeanwhile(events: seq<Event>, c: LimitConn)
      requires Valid() && Tracks(events) && New(events) && Closing(c) in events
      modifies this, c
      ensures Valid() && Tracks(events) && New(events) && rejected == old(rejected)
      ensures Model() == old(Model()).Run([Free(c.h), Receive(c.h)])
    {
      hide Gate.Step, Gate.Inv, Gate.Run;
      c.Close();
    }

    /** Serves the connection if a slot is free, counts and closes it if not. */
    method TakeOrShed(h: nat) returns (conn: LimitConn?)
      requires Valid() && h !in holders
      modifies this
      ensures Valid()
      ensures conn == null ==>
                && old(Model()).Step(Send(h)) == Refused && slots == max
                && Model() == old(Model()) && rejected == old(rejected) + 1
      ensures conn != null ==>
                && fresh(conn) && conn.listener == this && conn.h == h && !conn.done
                && old(Model()).Step(Send(h)) == Moved(Model()) && rejected == old(rejected)
                && holders == old(holders)[h := Held]
    {
      ghost var start := Model();
      start.StepKeeps(Send(h));
      if slots < max {
        slots := slots + 1;
        holders := holders[h := Held];
        conn := new LimitConn(this, h);
      } else {
        rejected := rejected + 1;
        conn := null;
      }
    }
  }

  class LimitConn {
    const listener: LimitListener
    const h: nat
    var done: bool

    constructor (listener: LimitListener, h: nat)
      ensures this.listener == listener && this.h == h && !done
    {
      this.listener, this.h, done := listener, h, false;
    }

    /** Returns the slot the first time it is called and never again. */
    method Close()
      requires listener.Valid() && h in listener.holders && (done <==> listener.holders[h] == Returned)
      modifies this, listener
      ensures listener.Valid() && done && h in listener.holders && listener.holders[h] == Returned
      ensures listener.rejected == old(listener.rejected)
      ensures listener.Model() == old(listener.Model()).Run([Free(h), Receive(h)])
      ensures listener.holders == old(listener.holders)[h := Returned]
      ensures old(done) ==> listener.Model() == old(listener.Model())
    {
      ghost var start := listener.Model();
      if done {
        CloseAgain(start, h);
      } else {
        done := true;
        TwoSteps(start, Free(h), Receive(h));
        listener.slots := listener.slots - 1;
        listener.holders := listener.holders[h := Returned];
        assert start.Run([Free(h), Receive(h)]) == listener.Model();
      }
    }
  }
}
