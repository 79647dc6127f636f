/** The read side of a connection: a HELLO, then message preambles, each GET or SET preamble
    followed by the body it announces. */
module ReadQueue {

  const REQUEST_GET: int := 1
  const REQUEST_SET: int := 4

  datatype Read = Hello | Preamble | Body(size: nat)

  /** What the read in flight brings: an error code, the fields of the message read, and
      whether anything the handler does closes the connection. */
  datatype Reply = Reply(ok: bool, valid: bool, id: int, size: nat, closes: bool)

  /** `reading`, `pending` and `open` are the connection's own state; the rest records what was
      issued to the socket and what came back. */
  datatype State = State(reading: bool, pending: seq<Read>, open: bool, issued: seq<Read>, replies: seq<Reply>)

  /** `async_read_message` and `async_read_raw`. */
  function AsyncRead(s: State, r: Read): State {
    if s.reading then s.(pending := s.pending + [r]) else s.(reading := true, issued := s.issued + [r])
  }

  function StartReadMessage(s: State): State {
    if s.open then AsyncRead(s, Preamble) else s
  }

  /** The dispatcher: GET and SET read their body, other messages do not read. */
  function Dispatch(s: State, m: Reply): State {
    var t := if HasBody(m.id) then AsyncRead(s, Body(m.size)) else s;
    if m.closes then t.(open := false) else t
  }

  predicate HasBody(id: int) { id == REQUEST_GET || id == REQUEST_SET }

  /** The handler bound to a read: `received_hello`, `handle_message`, or a message handler. */
  function Handle(s: State, r: Read, m: Reply): State {
    match r
    case Hello => if m.valid then StartReadMessage(s) else s.(open := false)
    case Preamble => StartReadMessage(Dispatch(s, m))
    case Body(_) => if m.closes then s.(open := false) else s
  }

  function TakePending(s: State): State {
    if s.pending == [] then s else AsyncRead(s.(pending := s.pending[1..]), s.pending[0])
  }

  predicate InFlight(s: State) { |s.issued| == |s.replies| + 1 }

  /** `handle_data`: all reads are required ones. */
  function HandleData(s: State, m: Reply): State
    requires InFlight(s)
  {
    var s1 := s.(replies := s.replies + [m]);
    if !m.ok then s1.(open := false)
    else TakePending(Handle(s1.(reading := false), s.issued[|s.replies|], m))
  }

  const Started: State := AsyncRead(State(false, [], true, [], []), Hello)

  datatype Event = Arrived(m: Reply) | Closed

  ghost predicate Possible(s: State, e: Event) { e.Arrived? ==> InFlight(s) }

  ghost function Step(s: State, e: Event): State
    requires Possible(s, e)
  {
    match e
    case Arrived(m) => HandleData(s, m)
    case Closed => s.(open := false)
  }

  ghost predicate Runs(s: State, es: seq<Event>, s': State)
    decreases es
  {
    if es == [] then s == s' else Possible(s, es[0]) && Runs(Step(s, es[0]), es[1..], s')
  }

  // ----- the grammar -----

  /** The only read that may follow read `r` after it brought `m`. */
  function Follows(r: Read, m: Reply): Read {
    if r.Preamble? && HasBody(m.id) then Body(m.size) else Preamble
  }

  /** The issued reads are one HELLO, then, if that was valid, preambles and announced bodies; one
      at a time. */
  ghost predicate Grammatical(issued: seq<Read>, replies: seq<Reply>) {
    && |replies| <= |issued| <= |replies| + 1 && issued != [] && issued[0] == Hello && (|issued| >= 2 ==> replies[0].valid)
    && (forall i :: 0 <= i < |issued| - 1 ==> replies[i].ok && issued[i + 1] == Follows(issued[i], replies[i]))
  }

  /** An announced body is always read. */
  ghost predicate BodiesRead(issued: seq<Read>, replies: seq<Reply>) {
    forall i :: 0 <= i < |replies| && i < |issued| && replies[i].ok && issued[i] == Preamble && HasBody(replies[i].id) ==>
      i + 1 < |issued| && issued[i + 1] == Body(replies[i].size)
  }

  predicate LastFailed(s: State) { s.replies != [] && !s.replies[|s.replies| - 1].ok }

  /** The queue holds at most the next preamble, behind a body. */
  ghost predicate QueueOK(s: State) {
    && (s.open && InFlight(s) && s.issued[|s.issued| - 1].Body? ==> s.pending == [Preamble])
    && (InFlight(s) ==> s.reading && !LastFailed(s)) && (s.open ==> InFlight(s)) && (LastFailed(s) ==> s.reading)
    && (s.pending == [] || (s.pending == [Preamble] && s.reading && s.issued != [] && s.issued[|s.issued| - 1].Body?))
  }

  ghost predicate Inv(s: State) {
    Grammatical(s.issued, s.replies) && BodiesRead(s.issued, s.replies) && QueueOK(s)
  }

  /** One more read, after a successful reply. */
  lemma OneMore(issued: seq<Read>, replies: seq<Reply>, m: Reply, r: Read)
    requires Grammatical(issued, replies) && BodiesRead(issued, replies) && |issued| == |replies| + 1
    requires m.ok && r == Follows(issued[|replies|], m) && (replies == [] ==> m.valid)
    ensures Grammatical(issued + [r], replies + [m]) && BodiesRead(issued + [r], replies + [m])
  {
  }

  /** The state after a reply, in terms of what may follow. */
  function Outcome(s: State, m: Reply): State
    requires InFlight(s)
  {
    var r := s.issued[|s.replies|];
    var s1 := s.(replies := s.replies + [m]);
    if !m.ok then s1.(open := false)
    else match r
    case Hello =>
      if m.valid && s.open then s1.(issued := s.issued + [Preamble])
      else s1.(reading := false, open := false)
    case Preamble =>
      if HasBody(m.id) then
        s1.(issued := s.issued + [Body(m.size)], open := s.open && !m.closes, pending := if s.open && !m.closes then [Preamble] else [])
      else if s.open && !m.closes then s1.(issued := s.issued + [Preamble])
      else s1.(reading := false, open := false)
    case Body(_) =>
      if s.pending == [] then s1.(reading := false, open := s.open && !m.closes)
      else s1.(issued := s.issued + [Preamble], pending := [], open := s.open && !m.closes)
  }

  /** The detour through the queue has this outcome. */
  lemma HandleDataOutcome(s: State, m: Reply)
    requires Inv(s) && InFlight(s)
    ensures HandleData(s, m) == Outcome(s, m)
  {
    hide Grammatical, BodiesRead;
    var r := s.issued[|s.replies|];
    if m.ok && r.Preamble? && HasBody(m.id) {
      var s1 := s.(replies := s.replies + [m], reading := false);
      assert Dispatch(s1, m) == s1.(reading := true, issued := s.issued + [Body(m.size)], open := s.open && !m.closes);
    }
  }

  lemma ArrivedKeeps(s: State, m: Reply)
    requires Inv(s) && InFlight(s)
    ensures Inv(HandleData(s, m))
  {
    HandleDataOutcome(s, m);
    hide HandleData;
    if m.ok && (s.replies == [] ==> m.valid) {
      OneMore(s.issued, s.replies, m, Follows(s.issued[|s.replies|], m));
    }
    NoMore(s.issued, s.replies, m);
    hide Grammatical, BodiesRead;
  }

  /** A reply nothing follows. */
  lemma NoMore(issued: seq<Read>, replies: seq<Reply>, m: Reply)
    requires Grammatical(issued, replies) && BodiesRead(issued, replies) && |issued| == |replies| + 1
    ensures Grammatical(issued, replies + [m])
    ensures !(m.ok && issued[|replies|] == Preamble && HasBody(m.id)) ==> BodiesRead(issued, replies + [m])
  {
  }

  lemma {:induction false} RunKeeps(s: State, es: seq<Event>, s': State)
    requires Inv(s) && Runs(s, es, s')
    ensures Inv(s')
    decreases es
  {
    if es != [] {
      if es[0].Arrived? {
        ArrivedKeeps(s, es[0].m);
      }
      RunKeeps(Step(s, es[0]), es[1..], s');
    }
  }

  /** For every run of arrivals, failures and closes after `start`: the reads follow the
      grammar, each announced body is the next read, at most one read is queued, and while the
      connection is open exactly one read is in flight. */
  lemma EveryRun(es: seq<Event>, s: State)
    requires Runs(Started, es, s)
    ensures Grammatical(s.issued, s.replies) && BodiesRead(s.issued, s.replies)
    ensures |s.pending| <= 1 && (s.open ==> InFlight(s))
  {
    RunKeeps(Started, es, s);
  }

  /** A body read was announced by the preamble right before it. */
  lemma BodyHasPreamble(issued: seq<Read>, replies: seq<Reply>, i: nat)
    requires Grammatical(issued, replies) && i < |issued| && issued[i].Body?
    ensures i >= 2 && issued[i - 1] == Preamble && HasBody(replies[i - 1].id) && issued[i].size == replies[i - 1].size
  {
    assert issued[i - 1 + 1] == Follows(issued[i - 1], replies[i - 1]);
  }

  /** Which messages have a body: GET, which is 1, and SET, which is 4. */
  lemma BodyIds(s: State, m: Reply)
    requires Inv(s) && InFlight(s) && s.issued[|s.replies|] == Preamble && m.ok
    ensures var s' := HandleData(s, m);
            if m.id == 1 || m.id == 4 then s'.issued == s.issued + [Body(m.size)]
            else s'.issued == s.issued + if s.open && !m.closes then [Preamble] else []
  {
    HandleDataOutcome(s, m);
    hide HandleData;
  }

  /** A HELLO that is not valid, and any failed read, end the connection: no read follows. */
  lemma NothingFollows(s: State, m: Reply)
    requires Inv(s) && InFlight(s) && (!m.ok || (s.replies == [] && !m.valid))
    ensures var s' := HandleData(s, m); !s'.open && s'.issued == s.issued && !InFlight(s')
  {
    HandleDataOutcome(s, m);
    hide HandleData;
  }

  // ----- the connection -----

  /** The read side of `tcp_connection`; `wire` is what was issued to the socket. */
  class Reader {
    var reading: bool
    var pending: seq<Read>
    var open: bool
    var wire: seq<Read>
    ghost var replies: seq<Reply>

    ghost function Now(): State
      reads this
    {
      State(reading, pending, open, wire, replies)
    }

    /** `start`. */
    constructor ()
      ensures Now() == Started && Inv(Now())
    {
      reading, pending, open, wire, replies := false, [], true, [], [];
      new;
      Issue(Hello);
    }

    /** `async_read_message` and `async_read_raw`. */
    method Issue(r: Read)
      modifies this
      ensures Now() == AsyncRead(old(Now()), r)
    {
      if reading {
        pending := pending + [r];
        return;
      }
      reading := true;
      wire := wire + [r];
    }

    method StartReadMessages()
      modifies this
      ensures Now() == StartReadMessage(old(Now()))
    {
      if !open {
        return;
      }
      Issue(Preamble);
    }

    /** `handle_message`, with the dispatched handler's reads. */
    method HandleMessage(m: Reply)
      modifies this
      ensures Now() == StartReadMessage(Dispatch(old(Now()), m))
    {
      if m.id == REQUEST_GET || m.id == REQUEST_SET {
        Issue(Body(m.size));
      }
      if m.closes {
        open := false;
      }
      StartReadMessages();
    }

    /** The completion handler of read `r`. */
    method RunHandler(r: Read, m: Reply)
      modifies this
      ensures Now() == Handle(old(Now()), r, m)
    {
      match r {
        case Hello =>
          if m.valid {
            StartReadMessages();
          } else {
            open := false;
          }
        case Preamble =>
          HandleMessage(m);
        case Body(_) =>
          if m.closes {
            open := false;
          }
      }
    }

    /** `handle_data` for the read in flight. */
    method Arrive(m: Reply)
      requires Inv(Now()) && InFlight(Now())
      modifies this
      ensures Now() == HandleData(old(Now()), m) && Inv(Now())
    {
      ArrivedKeeps(Now(), m);
      var r := wire[|wire| - 1];
      replies := replies + [m];
      if !m.ok {
        open := false;
        return;
      }
      reading := false;
      RunHandler(r, m);
      if pending != [] {
        var front := pending[0];
        pending := pending[1..];
        Issue(front);
      }
    }

    /** `close`, from a timer or elsewhere. */
    method Close()
      requires Inv(Now())
      modifies this`open
      ensures Now() == old(Now()).(open := false) && Inv(Now())
    {
      open := false;
    }
  }
}
