/** The whole lamp path as one step machine: the BLE peripheral loop and the ticker post, the eight-slot queue holds
    or loses, the lamp task applies. Any list of actions is a run; an action that is not possible does nothing. */
module BleSystem {
  import opened Bytes
  import opened LampControl
  import opened LampOwner

  /** Where `peripheral_task` stands. */
  datatype Phase = Starting | Advertising | Accepting | Attaching | Connected | Ended

  datatype Action =
    | Start(ok: bool)
    | Advertise(ok: bool)
    | Accept(ok: bool)
    | Attach(ok: bool)
    | Write(request: bool, data: seq<Byte>, acceptOk: bool)
    | OtherGattEvent
    | Disconnect
    | TickDue
    | Consume(elapsed: nat)

  /** A post to the queue, the connection it was made in (0 before the first), and whether it got a slot. */
  datatype Posted = Posted(event: LampEvent, connection: nat, kept: bool)

  datatype System = System(
    phase: Phase,
    advertised: bool,
    connection: nat,
    queue: seq<LampEvent>,
    applied: seq<Applied>,
    clock: nat,
    posts: seq<Posted>)

  const INITIAL: System := System(Starting, false, 0, [], [], 0, [])

  /** `validate_write` behind the length filter: exactly one byte, 0 or 1. */
  function ValidWrite(data: seq<Byte>): Option<BeamFact> {
    if |data| != 1 then None
    else if data[0] == 0 then Some(Intact)
    else if data[0] == 1 then Some(Broken)
    else None
  }

  function Post(s: System, event: LampEvent): System {
    s.(queue := Sent(s.queue, event),
       posts := s.posts + [Posted(event, s.connection, |s.queue| < QUEUE_SLOTS)])
  }

  function Step(s: System, a: Action): System {
    match (s.phase, a)
    case (Starting, Start(ok)) => s.(phase := if ok then Advertising else Ended)
    case (Advertising, Advertise(ok)) => if ok then s.(phase := Accepting, advertised := true) else s
    case (Accepting, Accept(ok)) =>
      if ok then s.(phase := Attaching) else Post(s, LinkDown).(phase := Advertising)
    case (Attaching, Attach(ok)) =>
      if ok then s.(phase := Connected, connection := s.connection + 1)
      else Post(s, LinkDown).(phase := Advertising)
    case (Connected, Write(request, data, acceptOk)) =>
      if !request && ValidWrite(data).Some? && acceptOk then Post(s, Fact(ValidWrite(data).value)) else s
    case (Connected, Disconnect) => Post(s, LinkDown).(phase := Advertising)
    case (_, TickDue) => Post(s, Tick)
    case (_, Consume(elapsed)) =>
      if s.queue == [] then s
      else
        var now := s.clock + elapsed;
        s.(queue := s.queue[1..], applied := s.applied + [Applied(s.queue[0], now)], clock := now)
    case _ => s
  }

  function Run(actions: seq<Action>): System {
    if actions == [] then INITIAL else Step(Run(actions[..|actions| - 1]), actions[|actions| - 1])
  }

  /** The peripheral task itself: one turn of its nested loops per event, posting to the shared queue. */
  class Peripheral {
    var phase: Phase
    var advertised: bool
    ghost var connection: nat

    constructor ()
      ensures phase == Starting && !advertised && connection == 0
    {
      phase, advertised, connection := Starting, false, 0;
    }

    /** The write filter: a write request is refused; only an accepted one-byte 0 or 1 becomes a posted fact. */
    method OnWrite(queue: EventQueue, request: bool, data: seq<Byte>, acceptOk: bool)
      requires queue.Valid()
      modifies queue
      ensures queue.Valid()
      ensures queue.events ==
              if !request && acceptOk && data == [0] then Sent(old(queue.events), Fact(Intact))
              else if !request && acceptOk && data == [1] then Sent(old(queue.events), Fact(Broken))
              else old(queue.events)
    {
      if request {
        return;
      }
      var parsed := if |data| == 1 then ValidWrite(data) else None;
      if parsed.Some? && acceptOk {
        queue.Post(Fact(parsed.value));
      }
    }

    /** Whatever else happened to the queue meanwhile, a turn does to the task and the queue what `Step` says. */
    method Turn(a: Action, queue: EventQueue)
      requires queue.Valid() && !a.TickDue? && !a.Consume?
      modifies this, queue
      ensures queue.Valid()
      ensures var t := Step(System(old(phase), old(advertised), old(connection), old(queue.events), [], 0, []), a);
              phase == t.phase && advertised == t.advertised && connection == t.connection && queue.events == t.queue
    {
      match phase {
        case Starting =>
          if a.Start? {
            phase := if a.ok then Advertising else Ended;
          }
        case Advertising =>
          if a.Advertise? && a.ok {
            advertised := true;
            phase := Accepting;
          }
        case Accepting =>
          if a.Accept? {
            if a.ok {
              phase := Attaching;
            } else {
              queue.Post(LinkDown);
              phase := Advertising;
            }
          }
        case Attaching =>
          if a.Attach? {
            if a.ok {
              phase, connection := Connected, connection + 1;
            } else {
              queue.Post(LinkDown);
              phase := Advertising;
            }
          }
        case Connected =>
          if a.Disconnect? {
            queue.Post(LinkDown);
            phase := Advertising;
          } else if a.Write? {
            OnWrite(queue, a.request, a.data, a.acceptOk);
          }
        case Ended =>
      }
    }
  }

  // ---- The queue between posts and the machine ----

  function Kept(posts: seq<Posted>): seq<LampEvent> {
    if posts == [] then []
    else Kept(posts[..|posts| - 1]) + if posts[|posts| - 1].kept then [posts[|posts| - 1].event] else []
  }

  function Events(applied: seq<Applied>): (events: seq<LampEvent>)
    ensures |events| == |applied|
    ensures forall i :: 0 <= i < |events| ==> events[i] == applied[i].event
  {
    seq(|applied|, i requires 0 <= i < |applied| => applied[i].event)
  }

  /** Nothing that got a slot is lost, repeated or reordered; nothing else reaches the machine; times never go back. */
  ghost predicate Conserved(s: System) {
    && |s.queue| <= QUEUE_SLOTS
    && Events(s.applied) + s.queue == Kept(s.posts)
    && Monotone(s.applied)
    && s.clock == if s.applied == [] then 0 else s.applied[|s.applied| - 1].at
  }

  lemma PostConserves(s: System, event: LampEvent)
    requires Conserved(s)
    ensures Conserved(Post(s, event))
  {
  }

  lemma StepConserves(s: System, a: Action)
    requires Conserved(s)
    ensures Conserved(Step(s, a))
  {
    hide Kept, Monotone, Sent;
    if a.Consume? && s.queue != [] {
      ConsumeConserves(s, a.elapsed);
    } else {
      hide Conserved;
      PostConserves(s, LinkDown);
      PostConserves(s, Tick);
      PostConserves(s, Fact(Intact));
      PostConserves(s, Fact(Broken));
      PhaseConserves(s, Step(s, a));
      PhaseConserves(Post(s, LinkDown), Step(s, a));
    }
  }

  lemma PhaseConserves(s: System, t: System)
    requires t.queue == s.queue && t.applied == s.applied && t.clock == s.clock && t.posts == s.posts ==> Conserved(s)
    ensures t.queue == s.queue && t.applied == s.applied && t.clock == s.clock && t.posts == s.posts ==> Conserved(t)
  {
  }

  lemma ConsumeConserves(s: System, elapsed: nat)
    requires Conserved(s) && s.queue != []
    ensures Conserved(Step(s, Consume(elapsed)))
  {
    hide Kept;
    var applied := s.applied + [Applied(s.queue[0], s.clock + elapsed)];
    assert Events(applied) == Events(s.applied) + [s.queue[0]];
    assert Events(s.applied) + s.queue == Events(applied) + s.queue[1..];
  }

  /** Over every run, with any pattern of lost posts. */
  lemma {:induction false} AlwaysConserved(actions: seq<Action>)
    ensures Conserved(Run(actions))
  {
    if actions != [] {
      AlwaysConserved(actions[..|actions| - 1]);
      StepConserves(Run(actions[..|actions| - 1]), actions[|actions| - 1]);
    }
  }

  // ---- From the radio byte to the lamp ----

  /** What a write does to the system, byte by byte. */
  lemma WritePosts(s: System, request: bool, data: seq<Byte>, acceptOk: bool)
    ensures Step(s, Write(request, data, acceptOk)) ==
            if s.phase == Connected && !request && acceptOk && data == [0] then Post(s, Fact(Intact))
            else if s.phase == Connected && !request && acceptOk && data == [1] then Post(s, Fact(Broken))
            else s
  {
  }

  /** Action `n` of the run, a Write Command carrying just the byte `b`, accepted in the connected loop, made post `k`. */
  ghost predicate WrittenBy(actions: seq<Action>, k: int, n: int, b: Byte) {
    && 0 <= n < |actions| && actions[n] == Write(false, [b], true)
    && Run(actions[..n]).phase == Connected && |Run(actions[..n]).posts| == k
  }

  lemma StepPosts(s: System, a: Action)
    ensures s.posts <= Step(s, a).posts && |Step(s, a).posts| <= |s.posts| + 1
    ensures |Step(s, a).posts| > |s.posts| && Step(s, a).posts[|s.posts|].event.Fact? ==>
              s.phase == Connected && (a == Write(false, [0], true) || a == Write(false, [1], true))
              && Step(s, a).posts[|s.posts|].event == Fact(if a == Write(false, [1], true) then Broken else Intact)
    ensures s.phase == Connected && (a == Write(false, [0], true) || a == Write(false, [1], true)) ==>
              |Step(s, a).posts| == |s.posts| + 1
              && Step(s, a).posts[|s.posts|].event == Fact(if a == Write(false, [1], true) then Broken else Intact)
  {
    hide ValidWrite;
    if a.Write? {
      WritePosts(s, a.request, a.data, a.acceptOk);
    }
  }

  lemma {:induction false} PostsGrow(actions: seq<Action>, n: nat)
    requires n <= |actions|
    ensures Run(actions[..n]).posts <= Run(actions).posts
  {
    hide Step;
    if n < |actions| {
      var init := actions[..|actions| - 1];
      PostsGrow(init, n);
      assert init[..n] == actions[..n];
      StepPosts(Run(init), actions[|actions| - 1]);
    } else {
      assert actions[..n] == actions;
    }
  }

  lemma WrittenStays(actions: seq<Action>, a: Action, k: int, n: int, b: Byte)
    requires WrittenBy(actions, k, n, b)
    ensures WrittenBy(actions + [a], k, n, b)
  {
    hide Run;
    assert (actions + [a])[..n] == actions[..n];
  }

  /** A write that made post `k` posted its byte's fact. */
  lemma WriteMakesFact(actions: seq<Action>, k: int, n: int, b: Byte)
    requires WrittenBy(actions, k, n, b) && (b == 0 || b == 1)
    ensures k < |Run(actions).posts| && Run(actions).posts[k].event == Fact(if b == 1 then Broken else Intact)
  {
    hide Run, Step;
    var before := actions[..n];
    assert actions[..n + 1] == before + [actions[n]];
    RunAppend(before, actions[n]);
    StepPosts(Run(before), actions[n]);
    PostsGrow(actions, n + 1);
  }

  lemma {:induction false} FactMadeByWrite(actions: seq<Action>, k: nat) returns (n: nat)
    requires k < |Run(actions).posts| && Run(actions).posts[k].event.Fact?
    ensures WrittenBy(actions, k, n, if Run(actions).posts[k].event.fact.Broken? then 1 else 0)
  {
    hide Step, Run;
    RunNothing();
    assert actions != [];
    var init, last := actions[..|actions| - 1], actions[|actions| - 1];
    assert actions == init + [last];
    RunAppend(init, last);
    StepPosts(Run(init), last);
    if k < |Run(init).posts| {
      n := FactMadeByWrite(init, k);
      WrittenStays(init, last, k, n, if Run(actions).posts[k].event.fact.Broken? then 1 else 0);
    } else {
      n := |init|;
      assert actions[..n] == init;
    }
  }

  /** In every run the posted facts are exactly the accepted one-byte writes of the connected loop: a post says intact
      if and only if such a write of the byte 0 made it, broken if and only if one of the byte 1 did. */
  lemma FactsAreWrites(actions: seq<Action>, k: nat)
    requires k < |Run(actions).posts|
    ensures Run(actions).posts[k].event == Fact(Intact) <==> exists n :: WrittenBy(actions, k, n, 0)
    ensures Run(actions).posts[k].event == Fact(Broken) <==> exists n :: WrittenBy(actions, k, n, 1)
  {
    hide Run, WrittenBy;
    if Run(actions).posts[k].event.Fact? {
      var n := FactMadeByWrite(actions, k);
    }
    if n :| WrittenBy(actions, k, n, 0) {
      WriteMakesFact(actions, k, n, 0);
    }
    if n :| WrittenBy(actions, k, n, 1) {
      WriteMakesFact(actions, k, n, 1);
    }
  }

  /** End to end: whenever the lamp is not faulted, it is lit exactly if the write behind the last applied fact carried
      the byte 1, and dark exactly if it carried 0. Post `p` is that fact's: it got a slot, and as many posts got one
      before it as events were applied before the last fact. */
  lemma LampShowsByte(actions: seq<Action>, now: nat, lit: bool) returns (p: nat, n: nat)
    requires !Faulted(Run(actions).applied) && Shows(Run(actions).applied, now, lit)
    ensures var s := Run(actions);
            && FactEnd(s.applied) > 0
            && p < |s.posts| && s.posts[p].kept && |Kept(s.posts[..p])| == FactEnd(s.applied) - 1
    ensures WrittenBy(actions, p, n, if lit then 1 else 0)
  {
    hide Run, Kept, CountsFrom, FactEnd, DownEnd, WrittenBy, Monotone;
    var s := Run(actions);
    AlwaysConserved(actions);
    var last := FactEnd(s.applied) - 1;
    assert (Events(s.applied) + s.queue)[last] == s.applied[last].event;
    p := KeptFrom(s.posts, last);
    n := FactMadeByWrite(actions, p);
  }

  // ---- Connections ----

  /** A link-down was posted after post `i`, up to post `j` exclusive. */
  predicate DownBetween(posts: seq<Posted>, i: int, j: int) {
    exists k :: i < k < j && 0 <= k < |posts| && posts[k].event.LinkDown?
  }

  /** Facts of different connections are separated by a link-down, and outside a connection every fact so far is
      followed by one. */
  ghost predicate Separated(s: System) {
    && (forall i :: 0 <= i < |s.posts| ==> s.posts[i].connection <= s.connection)
    && (forall i, j | 0 <= i < j < |s.posts| && s.posts[i].event.Fact? && s.posts[j].event.Fact?
                      && s.posts[i].connection != s.posts[j].connection :: DownBetween(s.posts, i, j))
    && (forall i | 0 <= i < |s.posts| && s.posts[i].event.Fact?
                   && (s.phase != Connected || s.posts[i].connection != s.connection) ::
          DownBetween(s.posts, i, |s.posts|))
  }

  lemma DownStays(posts: seq<Posted>, p: Posted, i: int, j: int)
    requires j <= |posts| && DownBetween(posts, i, j)
    ensures DownBetween(posts + [p], i, j) && DownBetween(posts + [p], i, j + 1)
  {
    var k :| i < k < j && 0 <= k < |posts| && posts[k].event.LinkDown?;
    assert (posts + [p])[k] == posts[k];
  }

  lemma PostSeparates(s: System, event: LampEvent, phase: Phase)
    requires Separated(s)
    requires event.Fact? ==> s.phase == phase == Connected
    requires event.Tick? ==> s.phase == phase
    requires event.LinkDown? ==> phase != Connected
    ensures Separated(Post(s, event).(phase := phase))
  {
    var t := Post(s, event).(phase := phase);
    var n := |s.posts|;
    assert t.posts[n].event == event && forall i :: 0 <= i < n ==> t.posts[i] == s.posts[i];
    forall i, j | 0 <= i < j < |t.posts| && t.posts[i].event.Fact? && t.posts[j].event.Fact?
                  && t.posts[i].connection != t.posts[j].connection
      ensures DownBetween(t.posts, i, j)
    {
      DownStays(s.posts, t.posts[n], i, j);
    }
    forall i | 0 <= i < |t.posts| && t.posts[i].event.Fact?
               && (phase != Connected || t.posts[i].connection != t.connection)
      ensures DownBetween(t.posts, i, n + 1)
    {
      if event.LinkDown? {
        assert i < n && t.posts[n].event.LinkDown?;
      } else {
        DownStays(s.posts, t.posts[n], i, n);
      }
    }
  }

  lemma StepSeparates(s: System, a: Action)
    requires Separated(s)
    ensures Separated(Step(s, a))
  {
    hide Separated;
    match (s.phase, a)
    case (Accepting, Accept(false)) => PostSeparates(s, LinkDown, Advertising);
    case (Attaching, Attach(ok)) =>
      if ok {
        NewConnection(s);
      } else {
        PostSeparates(s, LinkDown, Advertising);
      }
    case (Connected, Disconnect) => PostSeparates(s, LinkDown, Advertising);
    case (Connected, Write(_, data, _)) =>
      if ValidWrite(data).Some? {
        PostSeparates(s, Fact(ValidWrite(data).value), Connected);
      }
    case (_, TickDue) => PostSeparates(s, Tick, s.phase);
    case _ => QuietStep(s, Step(s, a));
  }

  lemma NewConnection(s: System)
    requires Separated(s) && s.phase == Attaching
    ensures Separated(s.(phase := Connected, connection := s.connection + 1))
  {
  }

  lemma QuietStep(s: System, t: System)
    requires Separated(s) && t.posts == s.posts && t.connection == s.connection
    requires t.phase == Connected <==> s.phase == Connected
    ensures Separated(t)
  {
  }

  /** Over every run: facts from two connections never follow each other without a posted link-down between them. */
  lemma {:induction false} AlwaysSeparated(actions: seq<Action>)
    ensures Separated(Run(actions))
  {
    if actions != [] {
      AlwaysSeparated(actions[..|actions| - 1]);
      StepSeparates(Run(actions[..|actions| - 1]), actions[|actions| - 1]);
    }
  }

  // ---- Draining the queue ----

  /** The history after the lamp task has applied everything queued, at the given times. */
  function Drained(s: System, times: seq<nat>): (h: seq<Applied>)
    requires |times| == |s.queue|
    ensures |h| == |s.applied| + |s.queue|
  {
    s.applied + seq(|s.queue|, i requires 0 <= i < |s.queue| => Applied(s.queue[i], times[i]))
  }

  /** Times at which the lamp task can apply what is queued: one after the other, from the last application on. */
  predicate DrainTimes(s: System, times: seq<nat>) {
    && |times| == |s.queue|
    && (forall i :: 0 <= i < |times| ==> s.clock <= times[i])
    && (forall i, j :: 0 <= i < j < |times| ==> times[i] <= times[j])
  }

  /** However late each queued event is applied, the lamp ends up faulted. */
  ghost predicate DrainsToFault(s: System) {
    forall times: seq<nat> :: DrainTimes(s, times) ==> Faulted(Drained(s, times))
  }

  /** The last fact to get a slot is followed by a link-down that got one, or there is no fact. */
  predicate LastFactDowned(events: seq<LampEvent>) {
    forall i :: 0 <= i < |events| && events[i].Fact? ==> exists k :: i < k < |events| && events[k].LinkDown?
  }

  lemma DownedFaults(h: seq<Applied>)
    requires LastFactDowned(Events(h))
    ensures Faulted(h)
  {
  }

  /** A fact is queued. */
  predicate FactQueued(s: System) {
    exists i :: 0 <= i < |s.queue| && s.queue[i].Fact?
  }

  predicate DownQueued(s: System) {
    exists k :: 0 <= k < |s.queue| && s.queue[k].LinkDown?
  }

  /** Exactly when draining is sure to fault, in any state a run can reach: every fact still queued has a link-down
      queued behind it, and if none is queued, the machine is faulted already or a link-down is on its way. */
  lemma DrainsToFaultIff(actions: seq<Action>)
    ensures var s := Run(actions);
            DrainsToFault(s) <==>
            if FactQueued(s) then LastFactDowned(s.queue) else Faulted(s.applied) || DownQueued(s)
  {
    hide Run, Faulted, LastFactDowned, Drained, Kept;
    var s := Run(actions);
    AlwaysConserved(actions);
    if FactQueued(s) {
      if LastFactDowned(s.queue) {
        forall times: seq<nat> | DrainTimes(s, times) ensures Faulted(Drained(s, times)) {
          QueuedDownFaults(s, times);
        }
      } else {
        QueuedFactShows(s);
      }
    } else if Faulted(s.applied) || DownQueued(s) {
      forall times: seq<nat> | DrainTimes(s, times) ensures Faulted(Drained(s, times)) {
        NoFactKeepsFault(s, times);
      }
    } else {
      TicksAtOnceKeep(s);
    }
  }

  lemma QueuedDownFaults(s: System, times: seq<nat>)
    requires |times| == |s.queue| && LastFactDowned(s.queue) && FactQueued(s)
    ensures Faulted(Drained(s, times))
  {
    hide FactEnd, DownEnd;
    var h := Drained(s, times);
    var n := |s.applied|;
    var i :| 0 <= i < |s.queue| && s.queue[i].Fact?;
    assert h[n + i].event.Fact?;
    var f := FactEnd(h) - 1;
    assert f >= n && s.queue[f - n].Fact?;
    var k :| f - n < k < |s.queue| && s.queue[k].LinkDown?;
    assert h[n + k].event.LinkDown?;
    assert DownEnd(h) > n + k;
  }

  /** Everything queued applied at the moment of the last application. */
  function AtOnce(s: System): (times: seq<nat>)
    ensures DrainTimes(s, times)
  {
    seq(|s.queue|, _ => s.clock)
  }

  lemma DrainedTail(s: System, times: seq<nat>)
    requires |times| == |s.queue|
    ensures s.applied <= Drained(s, times)
    ensures var h := Drained(s, times);
            forall i :: |s.applied| <= i < |h| ==> h[i] == Applied(s.queue[i - |s.applied|], times[i - |s.applied|])
  {
  }

  /** A queued fact with no link-down behind it shows when everything is applied at the same instant. */
  lemma QueuedFactShows(s: System)
    requires !LastFactDowned(s.queue)
    ensures !DrainsToFault(s)
  {
    hide FactEnd, DownEnd, DrainTimes, Drained;
    var times := AtOnce(s);
    var h := Drained(s, times);
    var n := |s.applied|;
    DrainedTail(s, times);
    var i :| 0 <= i < |s.queue| && s.queue[i].Fact? && !exists k :: i < k < |s.queue| && s.queue[k].LinkDown?;
    assert h[n + i].event.Fact?;
    assert FactEnd(h) > n + i;
    forall k | n + i < k < |h| ensures !h[k].event.LinkDown? {
      assert h[k].event == s.queue[k - n];
    }
    assert forall j :: n <= j < |h| ==> h[j].at == s.clock;
    assert !Faulted(h);
  }

  lemma NoFactKeepsFault(s: System, times: seq<nat>)
    requires |times| == |s.queue| && !FactQueued(s)
    requires Faulted(s.applied) || DownQueued(s)
    ensures Faulted(Drained(s, times))
  {
    hide FactEnd, DownEnd, Drained;
    var h := Drained(s, times);
    var n := |s.applied|;
    DrainedTail(s, times);
    assert forall i :: n <= i < |h| ==> h[i].event == s.queue[i - n];
    SameLastFact(s.applied, h);
    if k :| 0 <= k < |s.queue| && s.queue[k].LinkDown? {
      assert h[n + k].event.LinkDown?;
      assert DownEnd(h) > n + k;
    } else if DownEnd(s.applied) > FactEnd(s.applied) {
      assert h[DownEnd(s.applied) - 1].event.LinkDown?;
      assert DownEnd(h) >= DownEnd(s.applied);
    } else if FactEnd(s.applied) > 0 {
      var j :| 0 <= j < n && Trips(s.applied, j);
      assert Trips(h, j);
    }
  }

  /** While the machine is not faulted its last application came less than a leash after its last fact. */
  lemma LastIsFresh(h: seq<Applied>)
    requires h != [] && Monotone(h) && !Faulted(h)
    ensures FactEnd(h) > 0 && h[|h| - 1].at < h[FactEnd(h) - 1].at + LEASH_TIMEOUT_MS
  {
    hide FactEnd, DownEnd;
    var last := |h| - 1;
    assert !Trips(h, last);
    assert h[last].event.LinkDown? ==> DownEnd(h) > last;
    assert h[last].event.Fact? ==> FactEnd(h) > last;
  }

  lemma TicksAtOnceKeep(s: System)
    requires Conserved(s) && !FactQueued(s)
    requires !Faulted(s.applied) && !DownQueued(s)
    ensures !DrainsToFault(s)
  {
    hide FactEnd, DownEnd, DrainTimes, Drained, Monotone, Kept;
    var times := AtOnce(s);
    var h := Drained(s, times);
    var n := |s.applied|;
    DrainedTail(s, times);
    LastIsFresh(s.applied);
    SameLastFact(s.applied, h);
    forall j | 0 <= j < |h| ensures !Trips(h, j) {
      if j < n {
        assert !Trips(s.applied, j);
      } else {
        assert h[j].at == s.clock;
      }
    }
    forall i | n <= i < |h| ensures !h[i].event.LinkDown? {
      assert h[i].event == s.queue[i - n];
    }
    assert DownEnd(h) <= DownEnd(s.applied) by {
      assert DownEnd(h) > 0 ==> h[DownEnd(h) - 1].event.LinkDown? && DownEnd(h) <= n;
    }
    assert !Faulted(h);
  }

  lemma SameLastFact(h: seq<Applied>, all: seq<Applied>)
    requires h <= all && forall i :: |h| <= i < |all| ==> !all[i].event.Fact?
    ensures FactEnd(all) == FactEnd(h)
  {
  }

  // ---- Outside a connection ----

  predicate NoDownDropped(posts: seq<Posted>) {
    forall i :: 0 <= i < |posts| && posts[i].event.LinkDown? ==> posts[i].kept
  }

  /** A post that got a slot stands in the kept events behind those kept before it. */
  lemma {:induction false} KeptAt(posts: seq<Posted>, k: nat)
    requires k < |posts| && posts[k].kept
    ensures |Kept(posts[..k])| < |Kept(posts)| && Kept(posts)[|Kept(posts[..k])|] == posts[k].event
  {
    var n := |posts| - 1;
    if k < n {
      KeptAt(posts[..n], k);
      assert posts[..n][..k] == posts[..k];
    }
  }

  /** Every kept event is some post that got a slot. */
  lemma {:induction false} KeptFrom(posts: seq<Posted>, i: nat) returns (p: nat)
    requires i < |Kept(posts)|
    ensures p < |posts| && posts[p].kept && posts[p].event == Kept(posts)[i] && |Kept(posts[..p])| == i
  {
    var n := |posts| - 1;
    if i < |Kept(posts[..n])| {
      p := KeptFrom(posts[..n], i);
      assert posts[..n][..p] == posts[..p];
    } else {
      p := n;
    }
  }

  /** If no link-down was lost, facts followed by a posted link-down are followed by a kept one. */
  lemma {:induction false} KeptFactsDowned(posts: seq<Posted>)
    requires NoDownDropped(posts)
    requires forall i :: 0 <= i < |posts| && posts[i].event.Fact? ==> DownBetween(posts, i, |posts|)
    ensures LastFactDowned(Kept(posts))
  {
    var kept := Kept(posts);
    forall i | 0 <= i < |kept| && kept[i].Fact?
      ensures exists k :: i < k < |kept| && kept[k].LinkDown?
    {
      var p := KeptFrom(posts, i);
      assert DownBetween(posts, p, |posts|);
      var q :| p < q < |posts| && posts[q].event.LinkDown?;
      KeptAt(posts, q);
      KeptAt(posts[..q], p);
      assert posts[..q][..p] == posts[..p];
      assert kept[|Kept(posts[..q])|].LinkDown?;
    }
  }

  /** If every fact that got a slot has a link-down behind it that got one too, draining faults the lamp. */
  lemma DownedQueueDrains(s: System)
    requires Conserved(s) && LastFactDowned(Kept(s.posts))
    ensures DrainsToFault(s)
  {
    forall times: seq<nat> | DrainTimes(s, times) ensures Faulted(Drained(s, times)) {
      assert Events(Drained(s, times)) == Kept(s.posts);
      DownedFaults(Drained(s, times));
    }
  }

  /** With no link-down lost, whatever facts and ticks were: whenever the peripheral is not in its connected loop, in
      any reachable state, applying what is queued leaves the lamp faulted, so no fact of a finished connection stays
      on show. */
  lemma OutsideDrainsToFault(actions: seq<Action>)
    requires NoDownDropped(Run(actions).posts) && Run(actions).phase != Connected
    ensures DrainsToFault(Run(actions))
  {
    hide Run, DrainsToFault, Kept;
    AlwaysConserved(actions);
    AlwaysSeparated(actions);
    KeptFactsDowned(Run(actions).posts);
    DownedQueueDrains(Run(actions));
  }

  /** For any pattern of lost posts: a fact is on show for less than the leash plus the gap between applied ticks. */
  lemma ShownFactIsFresh(actions: seq<Action>, now: nat, d: nat)
    requires TicksDense(Run(actions).applied, now, d)
    requires !Faulted(Run(actions).applied)
    ensures var h := Run(actions).applied;
            && FactEnd(h) > 0 && h[FactEnd(h) - 1].event.Fact?
            && now < h[FactEnd(h) - 1].at + LEASH_TIMEOUT_MS + d
  {
    hide Run, TicksDense, Faulted;
    AlwaysConserved(actions);
    StaleFactBound(Run(actions).applied, now, d);
  }

  // ---- A lost link-down ----

  const CONNECT: seq<Action> := [Start(true), Advertise(true), Accept(true), Attach(true)]

  const BEAM_BROKEN: Action := Write(false, [1], true)

  /** `n` writes of "broken" in the first connection, none applied yet. */
  function Writing(n: nat): seq<Action> {
    if n == 0 then CONNECT else Writing(n - 1) + [BEAM_BROKEN]
  }

  lemma RunAppend(actions: seq<Action>, a: Action)
    ensures Run(actions + [a]) == Step(Run(actions), a)
  {
  }

  lemma RunNothing()
    ensures Run([]) == INITIAL
  {
  }

  lemma RunConnect()
    ensures Run(CONNECT) == System(Connected, true, 1, [], [], 0, [])
  {
    hide Run;
    RunNothing();
    var start := [Start(true)];
    var advertise := start + [Advertise(true)];
    var accept := advertise + [Accept(true)];
    RunAppend([], Start(true));
    RunAppend(start, Advertise(true));
    RunAppend(advertise, Accept(true));
    RunAppend(accept, Attach(true));
    assert [] + start == start && accept + [Attach(true)] == CONNECT;
  }

  lemma {:induction false} WritingFills(n: nat)
    requires n <= QUEUE_SLOTS
    ensures var s := Run(Writing(n));
            && s.phase == Connected && s.applied == [] && |s.queue| == n
            && forall i :: 0 <= i < n ==> s.queue[i] == Fact(Broken)
  {
    hide Run;
    if n == 0 {
      RunConnect();
    } else {
      WritingFills(n - 1);
      RunAppend(Writing(n - 1), BEAM_BROKEN);
      var s := Run(Writing(n - 1));
      assert Step(s, BEAM_BROKEN) == Post(s, Fact(Broken));
    }
  }

  /** That no link-down is lost is needed. The run assumes the lamp task is kept from running for the length of eight
      writes and a disconnect, which its place on the high-priority executor is meant to rule out: the writes fill the
      queue, the link drops, and its link-down finds no slot. Drained at once, the lamp then shows the last fact
      although nobody is connected; only the leash ends that. */
  lemma LostDownShowsFact()
    ensures Run(Writing(QUEUE_SLOTS) + [Disconnect]).phase == Advertising
    ensures !DrainsToFault(Run(Writing(QUEUE_SLOTS) + [Disconnect]))
  {
    hide Run, DrainsToFault;
    var s := Run(Writing(QUEUE_SLOTS) + [Disconnect]);
    WritingFills(QUEUE_SLOTS);
    RunAppend(Writing(QUEUE_SLOTS), Disconnect);
    assert s.queue[0].Fact?;
    assert !LastFactDowned(s.queue);
    QueuedFactShows(s);
  }
}
