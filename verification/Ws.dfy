/** The WebSocket subscription table against the server's active set. The client reads one frame per
    request without matching ids, so what it believes depends on what is queued in front of the reply. */
module Ws {
  import opened Bytes

  // ----- Method names -----

  const SUBSCRIBE: string := "Subscribe"
  const UNSUBSCRIBE: string := "Unsubscribe"

  /** `s.replace("Subscribe", "Unsubscribe")` */
  function Replace(s: string): string {
    if s == "" then ""
    else if SUBSCRIBE <= s then UNSUBSCRIBE + Replace(s[|SUBSCRIBE|..])
    else [s[0]] + Replace(s[1..])
  }

  /** `_UNSUBSCRIBE_MAP` */
  function UnsubscribeTable(name: string): Option<string> {
    if name == "account" + SUBSCRIBE then Some("account" + UNSUBSCRIBE)
    else if name == "logs" + SUBSCRIBE then Some("logs" + UNSUBSCRIBE)
    else if name == "program" + SUBSCRIBE then Some("program" + UNSUBSCRIBE)
    else if name == "root" + SUBSCRIBE then Some("root" + UNSUBSCRIBE)
    else if name == "signature" + SUBSCRIBE then Some("signature" + UNSUBSCRIBE)
    else if name == "slot" + SUBSCRIBE then Some("slot" + UNSUBSCRIBE)
    else if name == "slotsUpdates" + SUBSCRIBE then Some("slotsUpdates" + UNSUBSCRIBE)
    else if name == "vote" + SUBSCRIBE then Some("vote" + UNSUBSCRIBE)
    else if name == "block" + SUBSCRIBE then Some("block" + UNSUBSCRIBE)
    else None
  }

  /** The unsubscribe method the client sends: the table's entry, or the derived name. */
  function UnsubscribeMethod(name: string): string {
    match UnsubscribeTable(name)
    case Some(method') => method'
    case None => Replace(name)
  }

  lemma {:induction false} ReplaceSuffix(topic: string)
    requires 'S' !in topic
    ensures Replace(topic + SUBSCRIBE) == topic + UNSUBSCRIBE
  {
    var s := topic + SUBSCRIBE;
    if topic == "" {
      assert s == SUBSCRIBE && s[|SUBSCRIBE|..] == "";
      assert UNSUBSCRIBE + "" == UNSUBSCRIBE;
    } else {
      assert s[0] == topic[0] && topic[0] in topic;
      assert !(SUBSCRIBE <= s) by {
        assert SUBSCRIBE[0] == 'S' && s[0] != 'S';
      }
      assert s[1..] == topic[1..] + SUBSCRIBE;
      ReplaceSuffix(topic[1..]);
      assert [topic[0]] + (topic[1..] + UNSUBSCRIBE) == topic + UNSUBSCRIBE;
    }
  }

  /** The table of method names holds what the fallback would derive, for every method. */
  lemma TableIsDerived(name: string)
    ensures UnsubscribeMethod(name) == Replace(name)
  {
    if name == "account" + SUBSCRIBE {
      ReplaceSuffix("account");
    } else if name == "logs" + SUBSCRIBE {
      ReplaceSuffix("logs");
    } else if name == "program" + SUBSCRIBE {
      ReplaceSuffix("program");
    } else if name == "root" + SUBSCRIBE {
      ReplaceSuffix("root");
    } else if name == "signature" + SUBSCRIBE {
      ReplaceSuffix("signature");
    } else if name == "slot" + SUBSCRIBE {
      ReplaceSuffix("slot");
    } else if name == "slotsUpdates" + SUBSCRIBE {
      ReplaceSuffix("slotsUpdates");
    } else if name == "vote" + SUBSCRIBE {
      ReplaceSuffix("vote");
    } else if name == "block" + SUBSCRIBE {
      ReplaceSuffix("block");
    }
  }

  /** For every topic, in the table or not: "topicSubscribe" is undone by "topicUnsubscribe". */
  lemma DerivedMethod(topic: string)
    requires 'S' !in topic
    ensures UnsubscribeMethod(topic + "Subscribe") == topic + "Unsubscribe"
  {
    TableIsDerived(topic + "Subscribe");
    ReplaceSuffix(topic);
  }

  // ----- One connection as a state machine -----

  datatype Frame = Subscribed(id: int) | Acknowledged(ok: bool) | ErrorReply(code: int) | Notification(id: int)

  /** The server's active subscriptions and next id, the frames the client has not read, and the client's
      table. */
  datatype State = State(active: map<int, string>, nextId: int, frames: seq<Frame>, table: map<int, string>)
  {
    predicate Agrees() {
      table == active
    }

    predicate Quiet() {
      frames == []
    }

    /** Ids are positive and fresh, and nothing is queued before the first subscription. */
    ghost predicate Sound() {
      && 1 <= nextId
      && (forall id :: id in active ==> 1 <= id < nextId)
      && (forall f :: f in frames && f.Subscribed? ==> f.id < nextId)
      && (nextId == 1 ==> frames == [])
    }
  }

  const Connected: State := State(map[], 1, [], map[])

  /** What `response["result"]` gives as a subscription id: an acknowledgement's boolean is an integer. */
  function Brings(frame: Frame): Option<int> {
    match frame
    case Subscribed(id) => Some(id)
    case Acknowledged(ok) => Some(if ok then 1 else 0)
    case _ => None
  }

  /** The table after a subscribe for `name` read `frame` as its reply. */
  function Filed(table: map<int, string>, frame: Frame, name: string): map<int, string> {
    match Brings(frame)
    case Some(id) => table[id := name]
    case None => table
  }

  function SubscribeReply(nextId: int, refusal: Option<int>): Frame {
    if refusal.Some? then ErrorReply(refusal.value) else Subscribed(nextId)
  }

  /** A subscribe: the server answers behind what is queued, the client reads the first frame. */
  function AfterSubscribe(s: State, name: string, refusal: Option<int>): State {
    var queue := s.frames + [SubscribeReply(s.nextId, refusal)];
    var (active, nextId) := if refusal.Some? then (s.active, s.nextId) else (s.active[s.nextId := name], s.nextId + 1);
    State(active, nextId, queue[1..], Filed(s.table, queue[0], name))
  }

  /** Unsubscribing `id` with the method for `name` undoes a subscription of the server. */
  predicate Undoes(active: map<int, string>, id: int, name: string) {
    id in active && Replace(name) == Replace(active[id])
  }

  /** `bool(frame.get("result", False))` */
  predicate Truthy(frame: Frame) {
    match frame
    case Acknowledged(ok) => ok
    case Subscribed(id) => id != 0
    case _ => false
  }

  /** An unsubscribe: the entry goes whatever frame comes back. */
  function AfterUnsubscribe(s: State, id: int, name: string): State {
    var known := Undoes(s.active, id, name);
    var queue := s.frames + [Acknowledged(known)];
    State(if known then s.active - {id} else s.active, s.nextId, queue[1..], s.table - {id})
  }

  /** The answer of that unsubscribe. */
  predicate UnsubscribeAnswer(s: State, id: int, name: string) {
    Truthy((s.frames + [Acknowledged(Undoes(s.active, id, name))])[0])
  }

  datatype Event =
    | SubscribeTo(name: string, refusal: Option<int>) | UnsubscribeFrom(id: int)
    | Notified(id: int) | Received

  function Step(s: State, e: Event): State {
    match e
    case SubscribeTo(name, refusal) => AfterSubscribe(s, name, refusal)
    case UnsubscribeFrom(id) => if id in s.table then AfterUnsubscribe(s, id, s.table[id]) else s
    case Notified(id) => if id in s.active then s.(frames := s.frames + [Notification(id)]) else s
    case Received => if s.frames == [] then s else s.(frames := s.frames[1..])
  }

  function After(events: seq<Event>): State {
    if events == [] then Connected else Step(After(events[..|events| - 1]), events[|events| - 1])
  }

  /** The state before event `n`. */
  function At(events: seq<Event>, n: nat): State
    requires n <= |events|
  {
    After(events[..n])
  }

  lemma AtNext(events: seq<Event>, n: nat)
    requires n < |events|
    ensures At(events, n + 1) == Step(At(events, n), events[n])
  {
    assert events[..n + 1][..n] == events[..n];
  }

  lemma {:induction false} AfterIsSound(events: seq<Event>)
    ensures After(events).Sound()
  {
    if events != [] {
      AfterIsSound(events[..|events| - 1]);
      StepIsSound(After(events[..|events| - 1]), events[|events| - 1]);
    }
  }

  lemma StepIsSound(s: State, e: Event)
    requires s.Sound()
    ensures Step(s, e).Sound()
  {
  }

  // ----- When the table keeps agreeing -----

  /** What a caller must see before a request: an empty queue before an accepted subscribe; before a
      refused one, no first frame that would bring an id of its own. */
  predicate KeepsAgreeing(s: State, e: Event) {
    match e
    case SubscribeTo(name, None) => s.Quiet()
    case SubscribeTo(name, Some(_)) =>
      s.Quiet() || (match s.frames[0]
                    case Subscribed(id) => id in s.table && s.table[id] == name
                    case Acknowledged(true) => 1 in s.table && s.table[1] == name
                    case Acknowledged(false) => 0 in s.table && s.table[0] == name
                    case _ => true)
    case _ => true
  }

  /** The exact condition, for every event in every sound state. */
  lemma StepAgreesExactly(s: State, e: Event)
    requires s.Sound() && s.Agrees()
    ensures Step(s, e).Agrees() <==> KeepsAgreeing(s, e)
  {
    match e
    case SubscribeTo(name, None) =>
      assert s.nextId in Step(s, e).active && s.nextId !in s.table;
      assert !s.Quiet() ==> s.frames[0] in s.frames && s.nextId !in Filed(s.table, s.frames[0], name);
    case SubscribeTo(name, Some(_)) =>
      assert s.Quiet() ==> (s.frames + [ErrorReply(e.refusal.value)])[0].ErrorReply?;
    case _ =>
  }

  ghost predicate AgreesThrough(events: seq<Event>, n: nat)
    requires n <= |events|
  {
    forall m :: 0 <= m <= n ==> At(events, m).Agrees()
  }

  ghost predicate KeepsThrough(events: seq<Event>, n: nat)
    requires n <= |events|
  {
    forall m :: 0 <= m < n ==> KeepsAgreeing(At(events, m), events[m])
  }

  lemma ThroughNext(events: seq<Event>, n: nat)
    requires n < |events|
    ensures AgreesThrough(events, n + 1) <==> AgreesThrough(events, n) && At(events, n + 1).Agrees()
    ensures KeepsThrough(events, n + 1) <==> KeepsThrough(events, n) && KeepsAgreeing(At(events, n), events[n])
  {
  }

  /** In every run of requests, notifications and receives, the table is the server's active set at every
      point if and only if each request was made in a state that keeps it so. */
  lemma {:induction false} AgreementExactly(events: seq<Event>, n: nat)
    requires n <= |events|
    ensures AgreesThrough(events, n) <==> KeepsThrough(events, n)
  {
    if n > 0 {
      AgreementExactly(events, n - 1);
      ThroughNext(events, n - 1);
      AfterIsSound(events[..n - 1]);
      AtNext(events, n - 1);
      if At(events, n - 1).Agrees() {
        StepAgreesExactly(At(events, n - 1), events[n - 1]);
      }
    }
  }

  /** If the next frame after each subscribe is its reply, the table always agrees: notifications,
      receives and unsubscribes may come in any order between. */
  lemma QuietSubscribesAgree(events: seq<Event>)
    requires forall n :: 0 <= n < |events| && events[n].SubscribeTo? ==> At(events, n).Quiet()
    ensures AgreesThrough(events, |events|)
  {
    AgreementExactly(events, |events|);
  }

  /** A frame that passes for an acknowledgement. */
  predicate SaysYes(frame: Frame) {
    frame == Acknowledged(true) || (frame.Subscribed? && frame.id != 0)
  }

  /** While the table agrees the server acknowledges every unsubscribe, and the client says so exactly if
      the queue was empty or began with a frame that passes for an acknowledgement. */
  lemma AnswerExactly(s: State, id: int)
    requires s.Sound() && s.Agrees() && id in s.table
    ensures Undoes(s.active, id, s.table[id])
    ensures UnsubscribeAnswer(s, id, s.table[id]) <==> s.Quiet() || SaysYes(s.frames[0])
  {
  }

  function LateAcknowledgement(): seq<Event> {
    [SubscribeTo("a", None), SubscribeTo("b", None), Notified(1), UnsubscribeFrom(1), SubscribeTo("c", None)]
  }

  lemma PrefixesOfLateAcknowledgement()
    ensures var run := LateAcknowledgement();
            && run[..1] == [SubscribeTo("a", None)] && run[..2] == run[..1] + [run[1]]
            && run[..3] == run[..2] + [run[2]] && run[..4] == run[..3] + [run[3]] && run == run[..4] + [run[4]]
  {
  }

  lemma AfterOneMore(events: seq<Event>, e: Event)
    ensures After(events + [e]) == Step(After(events), e)
  {
    assert (events + [e])[..|events + [e]| - 1] == events;
  }

  /** No notification need be queued: the acknowledgement that an unsubscribe left unread is taken for the
      id of the next subscription. */
  lemma LateAcknowledgementIsFiled()
    ensures var run := LateAcknowledgement();
            && After(run[..4]).Agrees() && After(run[..4]).frames == [Acknowledged(true)]
            && After(run).active == map[2 := "b", 3 := "c"] && After(run).table == map[2 := "b", 1 := "c"]
            && !After(run).Agrees()
  {
    var run := LateAcknowledgement();
    PrefixesOfLateAcknowledgement();
    AfterOneMore([], run[0]);
    assert After(run[..1]) == State(map[1 := "a"], 2, [], map[1 := "a"]);
    AfterOneMore(run[..1], run[1]);
    assert After(run[..2]) == State(map[1 := "a", 2 := "b"], 3, [], map[1 := "a", 2 := "b"]);
    AfterOneMore(run[..2], run[2]);
    assert After(run[..3]).frames == [Notification(1)];
    AfterOneMore(run[..3], run[3]);
    assert After(run[..4]) == State(map[2 := "b"], 3, [Acknowledged(true)], map[2 := "b"]);
    AfterOneMore(run[..4], run[4]);
    assert 3 in After(run).active && 3 !in After(run).table;
  }

  // ----- The server -----

  /** A server and the frames it has sent that the client has not read. */
  class Server {
    var active: map<int, string>
    var nextId: int
    var frames: seq<Frame>

    constructor ()
      ensures active == map[] && nextId == 1 && frames == []
    {
      active, nextId, frames := map[], 1, [];
    }

    /** Answer a subscribe request; `refusal` is an error code, if the server refuses. */
    method OnSubscribe(name: string, refusal: Option<int>)
      modifies this
      ensures frames == old(frames) + [SubscribeReply(old(nextId), refusal)]
      ensures active == if refusal.Some? then old(active) else old(active)[old(nextId) := name]
      ensures nextId == if refusal.Some? then old(nextId) else old(nextId) + 1
    {
      if refusal.Some? {
        frames := frames + [ErrorReply(refusal.value)];
      } else {
        active := active[nextId := name];
        frames := frames + [Subscribed(nextId)];
        nextId := nextId + 1;
      }
    }

    /** Answer an unsubscribe request: it must name the method that undoes the subscription. */
    method OnUnsubscribe(name: string, id: int)
      modifies this
      ensures nextId == old(nextId)
      ensures var known := id in old(active) && name == Replace(old(active)[id]);
              && frames == old(frames) + [Acknowledged(known)]
              && active == if known then old(active) - {id} else old(active)
    {
      if id in active && name == Replace(active[id]) {
        active := active - {id};
        frames := frames + [Acknowledged(true)];
      } else {
        frames := frames + [Acknowledged(false)];
      }
    }

    /** A subscription produces a notification. */
    method Notify(id: int)
      modifies this
      ensures active == old(active) && nextId == old(nextId)
      ensures frames == if id in active then old(frames) + [Notification(id)] else old(frames)
    {
      if id in active {
        frames := frames + [Notification(id)];
      }
    }

    method Recv() returns (frame: Frame)
      requires frames != []
      modifies this
      ensures active == old(active) && nextId == old(nextId)
      ensures frame == old(frames[0]) && frames == old(frames[1..])
    {
      frame := frames[0];
      frames := frames[1..];
    }
  }

  // ----- The client -----

  datatype SubscribeResult = Id(id: int) | WsError(code: int) | BadFrame

  /** What the caller of a subscribe gets when `frame` is read as its reply. */
  function SubscribeAnswer(frame: Frame): SubscribeResult {
    match frame
    case ErrorReply(code) => WsError(code)
    case Notification(_) => BadFrame
    case _ => Id(Brings(frame).value)
  }

  /** What a subscribe for `name` that reads `frame` as its reply does to the table and tells its caller: an
      id is returned and filed under the name, an acknowledgement's boolean counting as the id 1 or 0. */
  predicate ReadAsReply(frame: Frame, name: string, result: SubscribeResult, before: map<int, string>,
      after: map<int, string>) {
    match frame
    case Subscribed(id) => result == Id(id) && after == before[id := name]
    case Acknowledged(true) => result == Id(1) && after == before[1 := name]
    case Acknowledged(false) => result == Id(0) && after == before[0 := name]
    case ErrorReply(code) => result == WsError(code) && after == before
    case Notification(_) => result == BadFrame && after == before
  }

  datatype Receipt = Params(id: int) | NoParams | TimedOut

  class WsClient {
    const server: Server
    var connected: bool
    var requestId: nat
    var subscriptions: map<int, string>

    ghost function View(): State
      reads this, server
    {
      State(server.active, server.nextId, server.frames, subscriptions)
    }

    ghost predicate Valid()
      reads this, server
    {
      View().Sound()
    }

    constructor (server: Server)
      requires server.active == map[] && server.nextId == 1 && server.frames == []
      ensures this.server == server && View() == Connected && Valid() && connected
    {
      this.server := server;
      connected, requestId, subscriptions := true, 0, map[];
    }

    /** The first unread frame is taken for the reply, so after an accepted subscribe the table agrees
        exactly if nothing was queued. */
    method Subscribe(name: string, refusal: Option<int>) returns (result: SubscribeResult)
      requires connected && Valid()
      modifies this, server
      ensures Valid() && connected && requestId == old(requestId) + 1
      ensures View() == Step(old(View()), SubscribeTo(name, refusal))
      ensures old(Quiet()) ==> Quiet() && ReadAsReply(
                if refusal.Some? then ErrorReply(refusal.value) else Subscribed(old(server.nextId)),
                name, result, old(subscriptions), subscriptions)
      ensures !old(Quiet()) ==>
                ReadAsReply(old(server.frames)[0], name, result, old(subscriptions), subscriptions)
      ensures old(Agrees()) && refusal.None? ==> (Agrees() <==> old(Quiet()))
      ensures old(Agrees()) && refusal.Some? ==> (Agrees() <==> old(KeepsAgreeing(View(), SubscribeTo(name, refusal))))
    {
      StepIsSound(View(), SubscribeTo(name, refusal));
      if subscriptions == server.active {
        StepAgreesExactly(View(), SubscribeTo(name, refusal));
      }
      requestId := requestId + 1;
      server.OnSubscribe(name, refusal);
      var frame := server.Recv();
      match frame {
        case Subscribed(id) =>
          subscriptions := subscriptions[id := name];
          result := Id(id);
        case ErrorReply(code) =>
          result := WsError(code);
        case Acknowledged(ok) =>
          var id := if ok then 1 else 0;
          subscriptions := subscriptions[id := name];
          result := Id(id);
        case Notification(_) =>
          result := BadFrame;
      }
    }

    ghost predicate Agrees()
      reads this, server
    {
      View().Agrees()
    }

    ghost predicate Quiet()
      reads server
    {
      server.frames == []
    }

    /** The next frame, which fails unless it is a notification; the frame is gone either way. */
    method RecvNotification() returns (receipt: Receipt)
      requires connected && Valid()
      modifies server
      ensures Valid() && View() == Step(old(View()), Received)
      ensures server.frames == if old(Quiet()) then [] else old(server.frames)[1..]
      ensures server.active == old(server.active) && subscriptions == old(subscriptions)
      ensures receipt == if old(Quiet()) then TimedOut
                         else if old(server.frames[0].Notification?) then Params(old(server.frames[0].id)) else NoParams
    {
      StepIsSound(View(), Received);
      if server.frames == [] {
        return TimedOut;
      }
      var frame := server.Recv();
      receipt := if frame.Notification? then Params(frame.id) else NoParams;
    }

    /** Send the unsubscribe and drop the entry, whatever comes back. */
    method UnsubscribeOne(id: int, name: string) returns (ok: bool)
      requires Valid()
      modifies this, server
      ensures Valid() && connected == old(connected)
      ensures !connected ==> !ok && unchanged(this) && unchanged(server)
      ensures connected ==> requestId == old(requestId) + 1
      ensures connected ==> View() == AfterUnsubscribe(old(View()), id, name)
      ensures connected ==> (ok <==> UnsubscribeAnswer(old(View()), id, name))
    {
      if !connected {
        return false;
      }
      requestId := requestId + 1;
      TableIsDerived(name);
      server.OnUnsubscribe(UnsubscribeMethod(name), id);
      var frame := server.Recv();
      subscriptions := subscriptions - {id};
      ok := Truthy(frame);
    }

    /** The table agrees afterwards whatever was queued; the answer is True exactly if the queue was empty
        or began with a frame that passes for an acknowledgement. */
    method Unsubscribe(id: int) returns (ok: bool)
      requires Valid()
      modifies this, server
      ensures Valid() && connected == old(connected)
      ensures !connected ==> !ok && unchanged(this) && unchanged(server)
      ensures connected ==> View() == Step(old(View()), UnsubscribeFrom(id))
      ensures id !in old(subscriptions) ==> !ok
      ensures connected && old(Agrees()) ==> Agrees() && subscriptions == old(subscriptions) - {id}
      ensures connected && old(Agrees()) && id in old(subscriptions) ==>
                (ok <==> old(Quiet()) || SaysYes(old(server.frames)[0]))
      ensures connected && id in old(subscriptions) ==> requestId == old(requestId) + 1
    {
      if id !in subscriptions {
        assert subscriptions - {id} == subscriptions;
        return false;
      }
      if subscriptions == server.active {
        AnswerExactly(View(), id);
      }
      ok := UnsubscribeOne(id, subscriptions[id]);
    }

    /** `close` unsubscribes everything, in any order, and disconnects. */
    method Close()
      requires Valid()
      modifies this, server
      ensures Valid() && !connected
      ensures old(connected) ==> subscriptions == map[]
      ensures old(connected && Agrees()) ==> server.active == map[]
      ensures old(connected && Agrees() && Quiet()) ==> Quiet()
    {
      if connected {
        var rest: set<int> := subscriptions.Keys;
        while rest != {}
          invariant Valid() && connected
          invariant rest == subscriptions.Keys
          invariant old(Agrees()) ==> Agrees()
          invariant old(Agrees() && Quiet()) ==> Quiet()
          decreases rest
        {
          var id := AnyOf(rest);
          var _ := UnsubscribeOne(id, subscriptions[id]);
          rest := rest - {id};
        }
        assert subscriptions == map[];
        connected := false;
      }
    }
  }

  method AnyOf<T>(s: set<T>) returns (x: T)
    requires s != {}
    ensures x in s
  {
    x :| x in s;
  }

  // ----- Sessions -----

  /** The client and server go through any list of events as the machine does; `agreed` says before each
      event and at the end whether the table is the server's active set. Closing empties the table, and the
      server too if they agreed; later unsubscribes are refused. */
  method Session(events: seq<Event>, later: int) returns (client: WsClient, agreed: seq<bool>, refused: bool)
    ensures |agreed| == |events| + 1
    ensures forall n :: 0 <= n <= |events| ==> (agreed[n] <==> At(events, n).Agrees())
    ensures (forall n :: 0 <= n <= |events| ==> agreed[n]) <==> KeepsThrough(events, |events|)
    ensures client.subscriptions == map[] && !client.connected && refused
    ensures agreed[|events|] ==> client.server.active == map[]
  {
    var server := new Server();
    client := new WsClient(server);
    agreed := [client.subscriptions == server.active];
    for n := 0 to |events|
      invariant client.server == server && client.connected && client.Valid()
      invariant fresh(client) && fresh(server)
      invariant client.View() == At(events, n)
      invariant |agreed| == n + 1 && forall m :: 0 <= m <= n ==> (agreed[m] <==> At(events, m).Agrees())
    {
      AtNext(events, n);
      Perform(client, events[n]);
      agreed := agreed + [client.subscriptions == server.active];
    }
    AgreementExactly(events, |events|);
    client.Close();
    var ok := client.Unsubscribe(later);
    refused := !ok;
  }

  /** One event of a session. */
  method Perform(client: WsClient, e: Event)
    requires client.connected && client.Valid()
    modifies client, client.server
    ensures client.connected && client.Valid() && client.View() == Step(old(client.View()), e)
  {
    StepIsSound(client.View(), e);
    match e {
      case SubscribeTo(name, refusal) =>
        var _ := client.Subscribe(name, refusal);
      case UnsubscribeFrom(id) =>
        var _ := client.Unsubscribe(id);
      case Notified(id) =>
        client.server.Notify(id);
      case Received =>
        var _ := client.RecvNotification();
    }
  }
}
