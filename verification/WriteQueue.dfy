/** The write side of a connection: one write in flight, the others pending, and completion
    handlers that may submit more writes before a pending one is taken. */
module WriteQueue {
  import opened Wrappers

  /** A write: `raw` bytes (dropped when empty) or a message, whether its failure is fatal, and
      the writes its completion handler submits. */
  datatype Write = Write(raw: bool, amount: nat, required: bool, next: seq<Write>)

  predicate Live(w: Write) { !(w.raw && w.amount == 0) }

  /** A write is known by its ticket, its position in `submitted`.  `inProgress` and `pending`
      are the connection's own fields; the rest records what happened. */
  datatype State = State(inProgress: bool, pending: seq<nat>, submitted: seq<Write>, flying: Option<nat>,
                         started: seq<nat>, completed: seq<nat>, fatal: bool)

  const Idle: State := State(false, [], [], None, [], [], false)

  /** Starts ticket `t`, or queues it behind a write in progress. */
  function Perform(s: State, t: nat): State {
    if s.inProgress then s.(pending := s.pending + [t])
    else s.(inProgress := true, flying := Some(t), started := s.started + [t])
  }

  /** `async_write_raw` and `async_write_message`. */
  function Submit(s: State, w: Write): State {
    if !Live(w) then s else Perform(s.(submitted := s.submitted + [w]), |s.submitted|)
  }

  function SubmitAll(s: State, ws: seq<Write>): State
    decreases ws
  {
    if ws == [] then s else SubmitAll(Submit(s, ws[0]), ws[1..])
  }

  /** The end of the completion handler: the oldest pending write is taken out and performed. */
  function TakePending(s: State): State {
    if s.pending == [] then s else Perform(s.(pending := s.pending[1..]), s.pending[0])
  }

  ghost predicate CanComplete(s: State) { s.flying.Some? && s.flying.value < |s.submitted| }

  /** `handle_write_operation`. */
  function Complete(s: State, ok: bool): State
    requires CanComplete(s)
  {
    var t := s.flying.value;
    var w := s.submitted[t];
    var s1 := s.(flying := None, completed := s.completed + [t]);
    if w.required && !ok then s1.(fatal := true)
    else TakePending(SubmitAll(s1.(inProgress := false), w.next))
  }

  datatype Event = Submitted(w: Write) | Completed(ok: bool)

  ghost predicate Possible(s: State, e: Event) { e.Completed? ==> CanComplete(s) }

  ghost function Step(s: State, e: Event): State
    requires Possible(s, e)
  {
    match e
    case Submitted(w) => Submit(s, w)
    case Completed(ok) => Complete(s, ok)
  }

  /** `s'` is reached from `s` by these events. */
  ghost predicate Runs(s: State, es: seq<Event>, s': State)
    decreases es
  {
    if es == [] then s == s' else Possible(s, es[0]) && Runs(Step(s, es[0]), es[1..], s')
  }

  // ----- the invariant -----

  function Flying(s: State): seq<nat> { if s.flying.Some? then [s.flying.value] else [] }

  /** How many times a ticket is in flight, pending or completed. */
  ghost function Places(s: State): multiset<nat> {
    multiset(s.pending) + multiset(s.completed) + multiset(Flying(s))
  }

  /** Every submitted write is in exactly one place. */
  ghost predicate Conserved(s: State) {
    forall t: nat :: Places(s)[t] == if t < |s.submitted| then 1 else 0
  }

  /** At most one write is in flight; writes complete in the order they were started. */
  ghost predicate OneInFlight(s: State) {
    && s.started == s.completed + Flying(s)
    && (s.flying.Some? ==> s.inProgress && !s.fatal)
    && (s.fatal ==> s.inProgress)
    && (s.inProgress ==> s.flying.Some? || s.fatal)
  }

  /** The first write a handler gets started. */
  function FirstLive(ws: seq<Write>): (r: Option<Write>)
    ensures r.Some? ==> Live(r.value)
  {
    if ws == [] then None else if Live(ws[0]) then Some(ws[0]) else FirstLive(ws[1..])
  }

  /** Completions whose handler has run. */
  function Handled(s: State): int { |s.completed| - if s.fatal then 1 else 0 }

  /** What the handler of the `i`-th completion submits first is the next write started. */
  ghost predicate Followed(s: State, i: nat) {
    i < |s.started| && s.started[i] < |s.submitted| &&
    var first := FirstLive(s.submitted[s.started[i]].next);
    first.Some? ==> i + 1 < |s.started| && s.started[i + 1] < |s.submitted| && s.submitted[s.started[i + 1]] == first.value
  }

  ghost predicate Adjacent(s: State) { forall i :: 0 <= i < Handled(s) ==> Followed(s, i) }

  ghost predicate Sound(s: State) {
    Conserved(s) && OneInFlight(s) && forall t :: 0 <= t < |s.submitted| ==> Live(s.submitted[t])
  }

  /** Between callbacks nothing waits unless a write is in flight or the connection failed. */
  ghost predicate NoLostWakeup(s: State) { s.pending != [] ==> s.flying.Some? || s.fatal }

  ghost predicate Inv(s: State) { Sound(s) && Adjacent(s) && NoLostWakeup(s) }

  lemma TicketsValid(s: State)
    requires Conserved(s)
    ensures forall t :: t in s.pending || t in s.completed || t in Flying(s) ==> t < |s.submitted|
    ensures forall i :: 0 <= i < |s.pending| ==> s.pending[i] < |s.submitted|
    ensures s.flying.Some? ==> s.flying.value < |s.submitted|
  {
    assert s.flying.Some? ==> s.flying.value in Flying(s);
    assert forall i :: 0 <= i < |s.pending| ==> s.pending[i] in s.pending;
    forall t | t in s.pending || t in s.completed || t in Flying(s)
      ensures t < |s.submitted|
    {
      assert t in multiset(s.pending) || t in multiset(s.completed) || t in multiset(Flying(s));
      assert Places(s)[t] >= 1;
    }
  }

  lemma StartedValid(s: State)
    requires Conserved(s) && OneInFlight(s)
    ensures forall i :: 0 <= i < |s.started| ==> s.started[i] < |s.submitted|
  {
    TicketsValid(s);
    forall i | 0 <= i < |s.started|
      ensures s.started[i] < |s.submitted|
    {
      if i < |s.completed| {
        assert s.started[i] in s.completed;
      } else {
        assert s.started[i] in Flying(s);
      }
    }
  }

  /** Handlers and pending writes only ever add to the logs. */
  ghost predicate Extends(s: State, s': State) {
    && s.submitted <= s'.submitted && s.started <= s'.started && s'.completed == s.completed
    && s'.fatal == s.fatal && (s.inProgress ==> s'.inProgress)
  }

  lemma FollowedExtends(s: State, s': State, i: nat)
    requires Followed(s, i) && Extends(s, s')
    ensures Followed(s', i)
  {
  }

  lemma SubmitKeeps(s: State, w: Write)
    requires Sound(s)
    ensures Sound(Submit(s, w)) && Extends(s, Submit(s, w))
    ensures NoLostWakeup(s) ==> NoLostWakeup(Submit(s, w))
    ensures Live(w) && !s.inProgress ==>
              Submit(s, w).started == s.started + [|s.submitted|] && Submit(s, w).submitted == s.submitted + [w]
  {
    if Live(w) {
      PlacesSubmit(s, w);
      OneMore(s, Submit(s, w));
      hide Conserved, Places;
    }
  }

  lemma {:induction false} SubmitAllKeeps(s: State, ws: seq<Write>)
    requires Sound(s)
    ensures var s' := SubmitAll(s, ws);
            && Sound(s') && Extends(s, s')
            && (FirstLive(ws) == None ==> s' == s)
            && (FirstLive(ws).Some? && !s.inProgress ==>
                  && s'.inProgress && |s.started| < |s'.started| && s'.started[|s.started|] < |s'.submitted|
                  && s'.submitted[s'.started[|s.started|]] == FirstLive(ws).value)
    decreases ws
  {
    if ws != [] {
      SubmitKeeps(s, ws[0]);
      SubmitAllKeeps(Submit(s, ws[0]), ws[1..]);
    }
  }

  lemma TakePendingKeeps(s: State)
    requires Sound(s)
    ensures Sound(TakePending(s)) && Extends(s, TakePending(s)) && NoLostWakeup(TakePending(s))
  {
    if s.pending != [] {
      PlacesTake(s);
      hide Conserved, Places;
    }
  }

  lemma PlacesTake(s: State)
    requires OneInFlight(s) && s.pending != []
    ensures Places(TakePending(s)) == Places(s) && (Conserved(s) ==> Conserved(TakePending(s)))
  {
    var p := s.pending;
    assert p == [p[0]] + p[1..];
    assert multiset(p) == multiset(p[1..]) + multiset{p[0]};
    assert s.inProgress ==> TakePending(s).pending == p[1..] + [p[0]];
  }

  lemma OneMore(s: State, s': State)
    requires Conserved(s) && Places(s') == Places(s) + multiset{|s.submitted|} && |s'.submitted| == |s.submitted| + 1
    ensures Conserved(s')
  {
    hide Places;
  }

  lemma PlacesSubmit(s: State, w: Write)
    requires OneInFlight(s) && Live(w)
    ensures Places(Submit(s, w)) == Places(s) + multiset{|s.submitted|}
  {
    var t: nat := |s.submitted|;
    assert multiset(s.pending + [t]) == multiset(s.pending) + multiset{t};
  }

  /** A completion keeps the invariant: its handler's first write directly follows. */
  lemma CompleteKeeps(s: State, ok: bool)
    requires Inv(s) && CanComplete(s)
    ensures Inv(Complete(s, ok))
  {
    var w, n := s.submitted[s.flying.value], |s.completed|;
    var s1 := s.(flying := None, completed := s.completed + [s.flying.value]);
    var s' := Complete(s, ok);
    assert Places(s1) == Places(s);
    StartedValid(s);
    if !(w.required && !ok) {
      var s2 := s1.(inProgress := false);
      SubmitAllKeeps(s2, w.next);
      TakePendingKeeps(SubmitAll(s2, w.next));
      assert Followed(s', n);
    }
    forall i | 0 <= i < Handled(s')
      ensures Followed(s', i)
    {
      if i < n {
        assert Followed(s, i);
      }
    }
  }

  lemma {:induction false} RunKeeps(s: State, es: seq<Event>, s': State)
    requires Inv(s) && Runs(s, es, s')
    ensures Inv(s')
    decreases es
  {
    if es != [] {
      match es[0] {
        case Submitted(w) => SubmitStepKeeps(s, w);
        case Completed(ok) => CompleteKeeps(s, ok);
      }
      RunKeeps(Step(s, es[0]), es[1..], s');
    }
  }

  lemma SubmitStepKeeps(s: State, w: Write)
    requires Inv(s)
    ensures Inv(Submit(s, w))
  {
    SubmitKeeps(s, w);
    forall i | 0 <= i < Handled(s)
      ensures Followed(Submit(s, w), i)
    {
      FollowedExtends(s, Submit(s, w), i);
    }
  }

  /** The main result, for every run of submissions and completions from an idle connection. */
  lemma EveryRun(es: seq<Event>, s: State)
    requires Runs(Idle, es, s)
    ensures Conserved(s) && OneInFlight(s) && NoLostWakeup(s) && Adjacent(s)
  {
    assert Places(Idle) == multiset{};
    RunKeeps(Idle, es, s);
  }

  /** `send_value`: once the preamble of a value has been completed, its body is the next write
      started, whatever else was queued in between. */
  lemma BodyFollowsPreamble(es: seq<Event>, s: State, i: nat, size: nat)
    requires Runs(Idle, es, s) && i < Handled(s) && size > 0
    requires i < |s.started| && s.started[i] < |s.submitted| && s.submitted[s.started[i]].next == [Write(true, size, true, [])]
    ensures i + 1 < |s.started| && s.started[i + 1] < |s.submitted| && s.submitted[s.started[i + 1]] == Write(true, size, true, [])
  {
    EveryRun(es, s);
    assert Followed(s, i);
  }

  /** Only raw writes of no bytes are dropped; any other becomes the next ticket, started at once
      on an idle connection and else queued last. */
  lemma OnlyEmptyRawDropped(s: State, w: Write)
    ensures w.raw && w.amount == 0 ==> Submit(s, w) == s
    ensures !(w.raw && w.amount == 0) ==>
              var s', t := Submit(s, w), |s.submitted|;
              && s'.submitted == s.submitted + [w]
              && (if s.inProgress then s'.pending == s.pending + [t] && s'.started == s.started
                  else s'.pending == s.pending && s'.started == s.started + [t] && s'.flying == Some(t))
  {
  }

  /** A completion is fatal exactly if the write was required and failed; then nothing more is
      started, in any run. */
  lemma FatalIff(s: State, ok: bool)
    requires Inv(s) && CanComplete(s)
    ensures Complete(s, ok).fatal <==> s.submitted[s.flying.value].required && !ok
  {
    var w := s.submitted[s.flying.value];
    if !(w.required && !ok) {
      CompleteOutstanding(s, ok);
    }
  }

  lemma {:induction false} NothingAfterFatal(s: State, es: seq<Event>, s': State)
    requires Inv(s) && s.fatal && Runs(s, es, s')
    ensures s'.started == s.started && s'.fatal
    decreases es
  {
    if es != [] {
      match es[0] {
        case Submitted(w) =>
          SubmitStepKeeps(s, w);
          NothingAfterFatal(Submit(s, w), es[1..], s');
        case Completed(ok) =>
      }
    }
  }

  // ----- draining -----

  /** How many writes a write stands for: itself and all its handlers will submit. */
  function Size(w: Write): nat
    decreases w, 1
  {
    if Live(w) then 1 + Sizes(w.next) else 0
  }

  function Sizes(ws: seq<Write>): nat
    decreases ws, 0
  {
    if ws == [] then 0 else Size(ws[0]) + Sizes(ws[1..])
  }

  function SizeAt(ws: seq<Write>, t: nat): nat { if t < |ws| then Size(ws[t]) else 0 }

  function Load(ts: seq<nat>, ws: seq<Write>): nat {
    if ts == [] then 0 else SizeAt(ws, ts[0]) + Load(ts[1..], ws)
  }

  /** The writes still to be completed if nothing more is submitted from outside. */
  function Outstanding(s: State): nat { Load(Flying(s), s.submitted) + Load(s.pending, s.submitted) }

  lemma {:induction false} LoadAppend(ts: seq<nat>, t: nat, ws: seq<Write>)
    ensures Load(ts + [t], ws) == Load(ts, ws) + SizeAt(ws, t)
  {
    if ts != [] {
      LoadAppend(ts[1..], t, ws);
      assert (ts + [t])[1..] == ts[1..] + [t];
    }
  }

  lemma {:induction false} LoadKeeps(ts: seq<nat>, ws: seq<Write>, w: Write)
    requires forall i :: 0 <= i < |ts| ==> ts[i] < |ws|
    ensures Load(ts, ws + [w]) == Load(ts, ws)
  {
    if ts != [] {
      LoadKeeps(ts[1..], ws, w);
    }
  }

  lemma SubmitOutstanding(s: State, w: Write)
    requires Sound(s)
    ensures Outstanding(Submit(s, w)) == Outstanding(s) + Size(w)
  {
    if Live(w) {
      TicketsValid(s);
      LoadKeeps(Flying(s), s.submitted, w);
      LoadKeeps(s.pending, s.submitted, w);
      LoadAppend(s.pending, |s.submitted|, s.submitted + [w]);
      LoadAppend([], |s.submitted|, s.submitted + [w]);
      assert [] + [|s.submitted|] == [|s.submitted|];
    }
  }

  lemma {:induction false} SubmitAllOutstanding(s: State, ws: seq<Write>)
    requires Sound(s)
    ensures Outstanding(SubmitAll(s, ws)) == Outstanding(s) + Sizes(ws)
    decreases ws
  {
    if ws != [] {
      SubmitOutstanding(s, ws[0]);
      SubmitKeeps(s, ws[0]);
      SubmitAllOutstanding(Submit(s, ws[0]), ws[1..]);
    }
  }

  lemma TakeOutstanding(s: State)
    requires Sound(s)
    ensures Outstanding(TakePending(s)) == Outstanding(s)
  {
    if s.pending != [] {
      LoadAppend(s.pending[1..], s.pending[0], s.submitted);
      assert Load([s.pending[0]], s.submitted) == SizeAt(s.submitted, s.pending[0]) by {
        assert [s.pending[0]][1..] == [];
      }
      assert !s.inProgress ==> Flying(s) == [];
    }
  }

  /** Every completion that is not fatal brings the end exactly one write nearer. */
  lemma CompleteOutstanding(s: State, ok: bool)
    requires Inv(s) && CanComplete(s) && (s.submitted[s.flying.value].required ==> ok)
    ensures Outstanding(Complete(s, ok)) == Outstanding(s) - 1 && !Complete(s, ok).fatal
  {
    var t := s.flying.value;
    var s2 := s.(flying := None, completed := s.completed + [t], inProgress := false);
    assert Places(s2) == Places(s);
    SubmitAllKeeps(s2, s.submitted[t].next);
    SubmitAllOutstanding(s2, s.submitted[t].next);
    TakeOutstanding(SubmitAll(s2, s.submitted[t].next));
    TakePendingKeeps(SubmitAll(s2, s.submitted[t].next));
    assert Load(Flying(s), s.submitted) == Size(s.submitted[t]);
  }

  lemma FlyingValid(s: State)
    requires Sound(s) && s.flying.Some?
    ensures CanComplete(s)
  {
    TicketsValid(s);
  }

  /** Nothing waits for ever: with that many successful completions every write is done, in
      whatever order the queue was rotated. */
  lemma {:induction false} Drains(s: State) returns (es: seq<Event>, s': State)
    requires Inv(s) && !s.fatal
    ensures Runs(s, es, s') && Inv(s') && |es| == Outstanding(s) && forall i :: 0 <= i < |es| ==> es[i] == Completed(true)
    ensures s'.flying == None && s'.pending == [] && forall t :: 0 <= t < |s'.submitted| ==> t in s'.completed
    decreases Outstanding(s)
  {
    if s.flying == None {
      es, s' := [], s;
      forall t: nat | t < |s.submitted|
        ensures t in s.completed
      {
        assert Places(s)[t] == 1;
      }
    } else {
      FlyingValid(s);
      CompleteKeeps(s, true);
      CompleteOutstanding(s, true);
      var rest;
      rest, s' := Drains(Complete(s, true));
      es := [Completed(true)] + rest;
    }
  }

  // ----- the order of service -----

  ghost predicate Ascending(ts: seq<nat>) { forall i, j :: 0 <= i < j < |ts| ==> ts[i] < ts[j] }

  /** The writes in the order in which they were started and, as things stand, will be. */
  function Line(s: State): seq<nat> { s.started + s.pending }

  /** First come, first served: tickets are given out in the order of submission. */
  ghost predicate InOrder(s: State) { Ascending(Line(s)) }

  /** How many writes of a handler are not dropped. */
  function Lives(ws: seq<Write>): nat {
    if ws == [] then 0 else (if Live(ws[0]) then 1 else 0) + Lives(ws[1..])
  }

  function Range(n: nat, k: nat): seq<nat> { seq(k, i requires 0 <= i < k => n + i) }

  lemma RangeCons(p: seq<nat>, n: nat, k: nat)
    ensures p + [n] + Range(n + 1, k) == p + Range(n, k + 1)
  {
  }

  /** Behind a write in progress the handler's writes queue up in order. */
  lemma {:induction false} SubmitAllBusy(s: State, ws: seq<Write>)
    requires s.inProgress
    ensures SubmitAll(s, ws).started == s.started && SubmitAll(s, ws).inProgress
    ensures SubmitAll(s, ws).pending == s.pending + Range(|s.submitted|, Lives(ws))
    decreases ws
  {
    if ws != [] {
      SubmitAllBusy(Submit(s, ws[0]), ws[1..]);
      if Live(ws[0]) {
        RangeCons(s.pending, |s.submitted|, Lives(ws[1..]));
      }
    }
  }

  /** Otherwise the first of them starts. */
  lemma {:induction false} SubmitAllIdle(s: State, ws: seq<Write>)
    requires !s.inProgress
    ensures Lives(ws) == 0 ==> SubmitAll(s, ws) == s
    ensures Lives(ws) > 0 ==>
              var s' := SubmitAll(s, ws);
              s'.inProgress && s'.started == s.started + [|s.submitted|] && s'.pending == s.pending + Range(|s.submitted| + 1, Lives(ws) - 1)
    decreases ws
  {
    if ws != [] {
      if Live(ws[0]) {
        SubmitAllBusy(Submit(s, ws[0]), ws[1..]);
      } else {
        SubmitAllIdle(s, ws[1..]);
      }
    }
  }

  /** Whether a completion closes the connection. */
  predicate Fails(s: State, ok: bool)
    requires CanComplete(s)
  {
    s.submitted[s.flying.value].required && !ok
  }

  /** The line after a completion: unchanged if the handler starts nothing, else the handler's
      first write comes next and the oldest waiting one goes to the back. */
  lemma CompleteLine(s: State, ok: bool)
    requires CanComplete(s) && !Fails(s, ok)
    ensures var n, k := |s.submitted|, Lives(s.submitted[s.flying.value].next);
            Line(Complete(s, ok)) ==
            if k == 0 then Line(s) else
              var q := s.pending + Range(n + 1, k - 1);
              s.started + [n] + if q == [] then [] else q[1..] + [q[0]]
  {
    var ws := s.submitted[s.flying.value].next;
    var s2 := s.(flying := None, completed := s.completed + [s.flying.value], inProgress := false);
    SubmitAllIdle(s2, ws);
    if Lives(ws) == 0 && s.pending != [] {
      assert s.started + s.pending == s.started + [s.pending[0]] + s.pending[1..];
    }
  }

  /** The guard under which a completion keeps the order: its handler submits nothing, or
      nothing waits and it submits at most two writes. */
  predicate Orderly(s: State, ok: bool)
    requires CanComplete(s)
  {
    var k := Lives(s.submitted[s.flying.value].next);
    Fails(s, ok) || k == 0 || (s.pending == [] && k <= 2)
  }

  lemma LineValid(s: State)
    requires Inv(s)
    ensures forall i :: 0 <= i < |s.started + s.pending| ==> (s.started + s.pending)[i] < |s.submitted|
  {
    StartedValid(s);
    TicketsValid(s);
  }

  /** A handler that starts write `n` keeps the line in order only if nothing was waiting, and
      then only if at most one more write was submitted. */
  lemma HandlerOrder(started: seq<nat>, p: seq<nat>, n: nat, k: nat)
    requires k > 0 && forall i :: 0 <= i < |started + p| ==> (started + p)[i] < n
    ensures var q := p + Range(n + 1, k - 1);
            Ascending(started + [n] + (if q == [] then [] else q[1..] + [q[0]])) <==> Ascending(started + p) && p == [] && k <= 2
  {
    var q, m := p + Range(n + 1, k - 1), |started|;
    var line := started + [n] + if q == [] then [] else q[1..] + [q[0]];
    if p != [] {
      assert line[m] == n && line[|line| - 1] == p[0] == (started + p)[m];
    } else if k >= 3 {
      assert line[m + 1] == q[1] == n + 2 && line[|line| - 1] == q[0] == n + 1;
    } else {
      assert started + p == started && line == started + Range(n, k);
      AppendOrder(started, n, k);
    }
  }

  /** Service stays in submission order over a completion exactly under the guard; once out of
      order, it stays so. */
  lemma InOrderIff(s: State, ok: bool)
    requires Inv(s) && CanComplete(s)
    ensures InOrder(Complete(s, ok)) <==> InOrder(s) && Orderly(s, ok)
  {
    hide Inv, SubmitAll, TakePending, Ascending;
    if !Fails(s, ok) {
      CompleteLine(s, ok);
      LineValid(s);
      var k := Lives(s.submitted[s.flying.value].next);
      if k > 0 {
        HandlerOrder(s.started, s.pending, |s.submitted|, k);
      }
    }
  }

  lemma AppendOrder(ts: seq<nat>, n: nat, k: nat)
    requires forall i :: 0 <= i < |ts| ==> ts[i] < n
    ensures Ascending(ts + Range(n, k)) <==> Ascending(ts)
  {
    var u := ts + Range(n, k);
    assert forall i :: 0 <= i < |ts| ==> u[i] == ts[i];
  }

  /** A submission goes to the end of the line. */
  lemma SubmitOrder(s: State, w: Write)
    requires Inv(s)
    ensures InOrder(Submit(s, w)) <==> InOrder(s)
  {
    if Live(w) {
      LineValid(s);
      assert Line(Submit(s, w)) == Line(s) + Range(|s.submitted|, 1);
      AppendOrder(Line(s), |s.submitted|, 1);
    }
  }

  /** Every completion of a run meets the guard. */
  ghost predicate AllOrderly(s: State, es: seq<Event>, s': State)
    requires Runs(s, es, s')
    decreases es
  {
    es != [] ==> (es[0].Completed? ==> Orderly(s, es[0].ok)) && AllOrderly(Step(s, es[0]), es[1..], s')
  }

  lemma {:induction false} RunOrder(s: State, es: seq<Event>, s': State)
    requires Inv(s) && Runs(s, es, s')
    ensures InOrder(s') <==> InOrder(s) && AllOrderly(s, es, s')
    decreases es
  {
    if es != [] {
      match es[0] {
        case Submitted(w) =>
          SubmitStepKeeps(s, w);
          SubmitOrder(s, w);
        case Completed(ok) =>
          CompleteKeeps(s, ok);
          InOrderIff(s, ok);
      }
      RunOrder(Step(s, es[0]), es[1..], s');
    }
  }

  /** Over a whole run: the line is in the order of submission exactly when every completion met
      the guard; with nothing left waiting, that is the order in which all writes started. */
  lemma ServedInOrderIff(es: seq<Event>, s: State)
    requires Runs(Idle, es, s)
    ensures InOrder(s) <==> AllOrderly(Idle, es, s)
    ensures s.pending == [] ==> (Ascending(s.started) <==> AllOrderly(Idle, es, s))
  {
    assert Places(Idle) == multiset{};
    RunOrder(Idle, es, s);
    assert s.pending == [] ==> Line(s) == s.started;
  }

  /** Writes are not served first come, first served: here ticket 2 starts before ticket 1. */
  lemma NotFifo()
    ensures exists es, s :: Runs(Idle, es, s) && s.started == [0, 3, 2] && s.pending == [1]
  {
    var plain := Write(false, 1, true, []);
    var two := Write(false, 1, true, [plain]);
    var s1, s2, s3 := Submit(Idle, two), Submit(Submit(Idle, two), plain), Submit(Submit(Submit(Idle, two), plain), plain);
    var ws := [two, plain, plain, plain];
    assert s3 == State(true, [1, 2], ws[..3], Some(0), [0], [], false);
    var s4 := Complete(s3, true);
    assert s4 == State(true, [2, 1], ws, Some(3), [0, 3], [0], false) by {
      var h := s3.(flying := None, completed := [0], inProgress := false);
      assert SubmitAll(Submit(h, plain), []) == Submit(h, plain) && [plain][1..] == [];
      assert Submit(h, plain) == State(true, [1, 2], ws, Some(3), [0, 3], [0], false);
    }
    var s5 := Complete(s4, true);
    assert s5 == State(true, [1], ws, Some(2), [0, 3, 2], [0, 3], false);
    RunCons(s4, Completed(true), [], s5);
    RunCons(s3, Completed(true), [Completed(true)], s5);
    RunCons(s2, Submitted(plain), [Completed(true)] + [Completed(true)], s5);
    RunCons(s1, Submitted(plain), [Submitted(plain)] + ([Completed(true)] + [Completed(true)]), s5);
    RunCons(Idle, Submitted(two), [Submitted(plain)] + ([Submitted(plain)] + ([Completed(true)] + [Completed(true)])), s5);
  }

  lemma RunCons(s: State, e: Event, es: seq<Event>, s': State)
    requires Possible(s, e) && Runs(Step(s, e), es, s')
    ensures Runs(s, [e] + es, s')
  {
    assert ([e] + es)[1..] == es;
  }

  // ----- the connection -----

  /** The writes these tickets stand for. */
  ghost predicate StandsFor(ts: seq<nat>, ws: seq<Write>, submitted: seq<Write>) {
    |ts| == |ws| && forall i :: 0 <= i < |ts| ==> ts[i] < |submitted| && submitted[ts[i]] == ws[i]
  }

  /** The write side of `tcp_connection`; `wire` is what was handed to the socket. */
  class Writer {
    var inProgress: bool
    var pending: seq<Write>
    var wire: seq<Write>
    ghost var log: State

    ghost predicate Mirrored()
      reads this
    {
      && inProgress == log.inProgress && StandsFor(log.pending, pending, log.submitted) && StandsFor(log.started, wire, log.submitted)
      && Sound(log)
    }

    ghost predicate Valid()
      reads this
    {
      Mirrored() && Inv(log)
    }

    constructor ()
      ensures Valid() && log == Idle && wire == []
    {
      inProgress, pending, wire, log := false, [], [], Idle;
      new;
      assert Places(Idle) == multiset{};
    }

    /** Starts or queues a write that already has ticket `t`. */
    method PerformNow(w: Write, ghost t: nat)
      requires inProgress == log.inProgress && t < |log.submitted| && log.submitted[t] == w
      requires StandsFor(log.pending, pending, log.submitted) && StandsFor(log.started, wire, log.submitted)
      modifies this
      ensures log == Perform(old(log), t) && inProgress == log.inProgress
      ensures StandsFor(log.pending, pending, log.submitted) && StandsFor(log.started, wire, log.submitted)
    {
      log := Perform(log, t);
      if inProgress {
        pending := pending + [w];
        return;
      }
      inProgress := true;
      wire := wire + [w];
    }

    /** `async_write_raw` and `async_write_message`. */
    method AsyncWrite(w: Write)
      requires Mirrored()
      modifies this
      ensures Mirrored() && log == Submit(old(log), w)
      ensures old(Inv(log)) ==> Inv(log)
    {
      SubmitKeeps(log, w);
      if Inv(log) {
        SubmitStepKeeps(log, w);
      }
      if w.raw && w.amount == 0 {
        return;
      }
      ghost var t := |log.submitted|;
      log := log.(submitted := log.submitted + [w]);
      PerformNow(w, t);
    }

    /** A completion handler that submits these writes. */
    method RunHandler(ws: seq<Write>)
      requires Mirrored()
      modifies this
      ensures Mirrored() && log == SubmitAll(old(log), ws)
    {
      assert ws[0..] == ws;
      for i := 0 to |ws|
        invariant Mirrored() && SubmitAll(log, ws[i..]) == SubmitAll(old(log), ws)
      {
        assert ws[i..][1..] == ws[i + 1..];
        AsyncWrite(ws[i]);
      }
    }

    /** `handle_write_operation` for the write in flight. */
    method HandleWrite(w: Write, ok: bool)
      requires Valid() && CanComplete(log) && w == log.submitted[log.flying.value]
      modifies this
      ensures Valid() && log == Complete(old(log), ok)
    {
      CompleteKeeps(log, ok);
      ghost var done := log.(flying := None, completed := log.completed + [log.flying.value]);
      assert Places(done) == Places(log);
      if w.required && !ok {
        log := done.(fatal := true);
        return;
      }
      inProgress, log := false, done.(inProgress := false);
      RunHandler(w.next);
      if pending != [] {
        var front := pending[0];
        ghost var t := log.pending[0];
        TakePendingKeeps(log);
        pending, log := pending[1..], log.(pending := log.pending[1..]);
        PerformNow(front, t);
      }
    }
  }
}
