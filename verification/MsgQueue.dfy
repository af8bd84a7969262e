/** The message ring of src/msgqueue.c, read by one task at a time. */
module MsgQueue {
  import opened Common

  const QUEUE_MAX_LAP: nat := 5
  const QUEUE_SIZE: nat := 5
  const MAX_PAYLOAD: nat := 512
  const MAX_TOPIC: nat := 128

  datatype MsgType = WsTx | WsRx | MqttTx | MqttRx | OledTx | Master | DimmerRx | DimmerTx | Control

  /** `count`: receives by others since the message was sent. */
  datatype Msg = Msg(count: nat, dest: MsgType, topic: string, lenMsg: nat, payload: string)

  /** What a receive for `reader` does with the message it has taken. */
  datatype Verdict = Deliver | GiveBack | Evict

  function Judge(reader: MsgType, m: Msg): Verdict {
    if reader == Master || m.dest == reader then Deliver
    else if m.count < QUEUE_MAX_LAP then GiveBack
    else Evict
  }

  predicate Acceptable(topic: string, payload: string) {
    |payload| <= MAX_PAYLOAD && |topic| <= MAX_TOPIC
  }

  /** The queue after one receive by `reader`, and the message it gets, if any. */
  function Received(q: seq<Msg>, reader: MsgType): (seq<Msg>, Option<Msg>) {
    if q == [] then (q, None)
    else match Judge(reader, q[0])
      case Deliver => (q[1..], Some(q[0]))
      case GiveBack => (q[1..] + [q[0].(count := q[0].count + 1)], None)
      case Evict => (q[1..], None)
  }

  /** In the queue: within its laps, and its length says what it carries. */
  predicate Sound(m: Msg) {
    m.count <= QUEUE_MAX_LAP && m.lenMsg == |m.payload| && Acceptable(m.topic, m.payload)
  }

  class Ring {
    var q: seq<Msg>

    ghost predicate Valid()
      reads this
    {
      |q| <= QUEUE_SIZE && forall m :: m in q ==> Sound(m)
    }

    constructor ()
      ensures Valid() && q == []
    {
      q := [];
    }

    /** xQueueSend: a bounded FIFO whose send fails when it is full. */
    method XQueueSend(m: Msg) returns (sent: bool)
      requires Valid() && Sound(m)
      modifies this
      ensures Valid()
      ensures sent <==> |old(q)| < 5
      ensures q == if sent then old(q) + [m] else old(q)
    {
      sent := |q| < QUEUE_SIZE;
      if sent {
        q := q + [m];
      }
    }

    method XQueueReceive() returns (m: Option<Msg>)
      requires Valid()
      modifies this
      ensures Valid()
      ensures if old(q) == [] then m.None? && q == [] else m == Some(old(q)[0]) && Sound(m.value) && q == old(q)[1..]
    {
      if q == [] {
        m := None;
      } else {
        m := Some(q[0]);
        q := q[1..];
      }
    }

    /** `queue_send`: true also for a message that a full queue has lost. */
    method Send(dest: MsgType, payload: string, topic: string) returns (ok: bool)
      requires Valid()
      modifies this
      ensures Valid()
      ensures ok <==> |payload| <= 512 && |topic| <= 128
      ensures q == if ok && |old(q)| < 5 then old(q) + [Msg(0, dest, topic, |payload|, payload)] else old(q)
    {
      if |payload| > MAX_PAYLOAD || |topic| > MAX_TOPIC {
        return false;
      }
      var _ := XQueueSend(Msg(0, dest, topic, |payload|, payload));
      return true;
    }

    /** `queue_receive`, with nothing else happening between its two queue operations. */
    method Receive(dest: MsgType) returns (ok: bool, msg: Option<Msg>)
      requires Valid()
      modifies this
      ensures Valid()
      ensures (q, if ok then msg else None) == Received(old(q), dest)
      ensures ok ==> msg.Some?
      ensures !ok && msg.Some? ==> msg.value.lenMsg == 0
    {
      msg := XQueueReceive();
      if msg.Some? {
        if dest == Master || msg.value.dest == dest {
          return true, msg;
        } else if msg.value.dest != dest && msg.value.count < QUEUE_MAX_LAP {
          msg := Some(msg.value.(count := msg.value.count + 1));
          var _ := XQueueSend(msg.value);
          msg := Some(msg.value.(lenMsg := 0));
          return false, msg;
        } else if msg.value.dest != dest && msg.value.count >= QUEUE_MAX_LAP {
          msg := Some(msg.value.(lenMsg := 0));
          return false, msg;
        }
      }
      return false, msg;
    }

    /** One round of `Com_Task`. `order` is what it decodes from the payload of a message for
        MQTT_RX or WS_RX: the topic and payload of an order for the dimmer, if there is one. */
    method ComTaskRound(order: Msg -> Option<(string, string)>)
      requires Valid()
      modifies this
      ensures Valid()
      ensures q == AfterComTask(old(q), order)
    {
      var ok, msg := Receive(Master);
      if ok {
        var m := msg.value;
        if m.dest == MqttTx {
        } else if m.dest == MqttRx || m.dest == WsRx {
          if order(m).Some? {
            var _ := Send(DimmerRx, order(m).value.1, order(m).value.0);
          }
        } else if m.dest == DimmerTx {
        } else if m.dest == OledTx {
        } else {
          var _ := Send(m.dest, m.payload, m.topic);
        }
      }
    }
  }

  /** The destinations whose messages `Com_Task` handles itself. */
  predicate MasterHandles(d: MsgType) {
    d == MqttTx || d == MqttRx || d == WsRx || d == DimmerTx || d == OledTx
  }

  /** The queue after a round of `Com_Task`: its head is handled, which may order the dimmer, or
      sent afresh to the back. */
  function AfterComTask(q: seq<Msg>, order: Msg -> Option<(string, string)>): seq<Msg> {
    if q == [] then []
    else if !MasterHandles(q[0].dest) then
      q[1..] + if Acceptable(q[0].topic, q[0].payload) then [q[0].(count := 0, lenMsg := |q[0].payload|)] else []
    else if (q[0].dest == MqttRx || q[0].dest == WsRx) && order(q[0]).Some? && |q[1..]| < QUEUE_SIZE
         && Acceptable(order(q[0]).value.0, order(q[0]).value.1) then
      q[1..] + [Msg(0, DimmerRx, order(q[0]).value.0, |order(q[0]).value.1|, order(q[0]).value.1)]
    else q[1..]
  }

  // ---------- Runs of receives ----------

  /** The queue after the readers have received in turn. */
  function AfterReceives(q: seq<Msg>, readers: seq<MsgType>): seq<Msg>
    decreases |readers|
  {
    if readers == [] then q else AfterReceives(Received(q, readers[0]).0, readers[1..])
  }

  /** How many more receives the queue can keep its messages through. */
  function Laps(q: seq<Msg>): nat {
    if q == [] then 0 else QUEUE_MAX_LAP + 1 - Min(q[0].count, QUEUE_MAX_LAP) + Laps(q[1..])
  }

  function Min(a: nat, b: nat): nat {
    if a < b then a else b
  }

  lemma {:induction false} LapsAppend(q: seq<Msg>, m: Msg)
    ensures Laps(q + [m]) == Laps(q) + QUEUE_MAX_LAP + 1 - Min(m.count, QUEUE_MAX_LAP)
  {
    if q == [] {
      assert q + [m] == [m] && [m][1..] == [];
    } else {
      assert (q + [m])[1..] == q[1..] + [m];
      LapsAppend(q[1..], m);
    }
  }

  /** Every receive of a non-empty queue, by whichever reader, uses up a lap. */
  lemma ReceiveUsesLap(q: seq<Msg>, reader: MsgType)
    requires q != [] && forall m :: m in q ==> Sound(m)
    ensures var q' := Received(q, reader).0;
            Laps(q') < Laps(q) && |q'| <= |q| && forall m :: m in q' ==> Sound(m)
  {
    assert q[0] in q;
    LapsAppend(q[1..], q[0].(count := q[0].count + 1));
  }

  lemma {:induction false} LapsBound(q: seq<Msg>)
    ensures |q| <= Laps(q) <= (QUEUE_MAX_LAP + 1) * |q|
  {
    if q != [] {
      LapsBound(q[1..]);
    }
  }

  lemma {:induction false} ReceivesUseLaps(q: seq<Msg>, readers: seq<MsgType>)
    requires forall m :: m in q ==> Sound(m)
    ensures AfterReceives(q, readers) == [] || Laps(AfterReceives(q, readers)) + |readers| <= Laps(q)
    decreases |readers|
  {
    if readers != [] {
      if q == [] {
        EmptyStays(readers);
      } else {
        ReceiveUsesLap(q, readers[0]);
        ReceivesUseLaps(Received(q, readers[0]).0, readers[1..]);
      }
    }
  }

  lemma {:induction false} EmptyStays(readers: seq<MsgType>)
    ensures AfterReceives([], readers) == []
  {
    if readers != [] {
      EmptyStays(readers[1..]);
    }
  }

  /** With nothing sent, k messages are gone after 6k receives, whatever mix of readers makes them. */
  lemma Drains(q: seq<Msg>, readers: seq<MsgType>)
    requires forall m :: m in q ==> Sound(m)
    requires |readers| >= 6 * |q|
    ensures AfterReceives(q, readers) == []
  {
    ReceivesUseLaps(q, readers);
    LapsBound(q);
    LapsBound(AfterReceives(q, readers));
  }

  // ---------- Reaching one's own message ----------

  /** The messages that survive another lap, in order. */
  function Lapped(q: seq<Msg>): seq<Msg> {
    if q == [] then []
    else (if q[0].count < QUEUE_MAX_LAP then [q[0].(count := q[0].count + 1)] else []) + Lapped(q[1..])
  }

  lemma {:induction false} LappedAppend(q: seq<Msg>, m: Msg)
    ensures Lapped(q + [m]) == Lapped(q) + if m.count < QUEUE_MAX_LAP then [m.(count := m.count + 1)] else []
  {
    if q == [] {
      assert q + [m] == [m] && [m][1..] == [];
    } else {
      assert (q + [m])[1..] == q[1..] + [m];
      LappedAppend(q[1..], m);
    }
  }

  function Alone(reader: MsgType, n: nat): seq<MsgType> {
    if n == 0 then [] else Alone(reader, n - 1) + [reader]
  }

  lemma {:induction false} LastReceive(q: seq<Msg>, readers: seq<MsgType>, reader: MsgType)
    ensures AfterReceives(q, readers + [reader]) == Received(AfterReceives(q, readers), reader).0
    decreases |readers|
  {
    if readers == [] {
      assert readers + [reader] == [reader] && [reader][1..] == [];
    } else {
      assert (readers + [reader])[1..] == readers[1..] + [reader];
      LastReceive(Received(q, readers[0]).0, readers[1..], reader);
    }
  }

  /** The first `n` messages being for others, `n` receives move them to the back, a lap older,
      without those that had no lap left. */
  lemma {:induction false} OthersPass(q: seq<Msg>, reader: MsgType, n: nat)
    requires reader != Master && n <= |q| && forall j :: 0 <= j < n ==> q[j].dest != reader
    ensures AfterReceives(q, Alone(reader, n)) == q[n..] + Lapped(q[..n])
  {
    if n == 0 {
      assert q[0..] + Lapped(q[..0]) == q;
    } else {
      var k := n - 1;
      OthersPass(q, reader, k);
      LastReceive(q, Alone(reader, k), reader);
      assert q[..n] == q[..k] + [q[k]];
      LappedAppend(q[..k], q[k]);
      assert (q[k..] + Lapped(q[..k]))[1..] == q[n..] + Lapped(q[..k]);
      assert (q[k..] + Lapped(q[..k]))[0] == q[k];
    }
  }

  /** A reader alone gets the first message for it, at position `i`, on exactly its call i + 1,
      be the laps of that message used up or not. */
  lemma ReaderReaches(q: seq<Msg>, reader: MsgType, i: nat)
    requires reader != Master && i < |q| && q[i].dest == reader
    requires forall j :: 0 <= j < i ==> q[j].dest != reader
    ensures forall n :: 0 <= n < i ==> Received(AfterReceives(q, Alone(reader, n)), reader).1.None?
    ensures Received(AfterReceives(q, Alone(reader, i)), reader) == (q[i + 1..] + Lapped(q[..i]), Some(q[i]))
  {
    forall n | 0 <= n < i
      ensures Received(AfterReceives(q, Alone(reader, n)), reader).1.None?
    {
      OthersPass(q, reader, n);
      assert (q[n..] + Lapped(q[..n]))[0] == q[n];
    }
    OthersPass(q, reader, i);
    assert (q[i..] + Lapped(q[..i]))[0] == q[i];
    assert (q[i..] + Lapped(q[..i]))[1..] == q[i + 1..] + Lapped(q[..i]);
  }

  // ---------- An order on its way through Com_Task ----------

  /** A message for MQTT_RX or WS_RX that Com_Task decodes to an order makes it to the dimmer: if
      nothing else is for the dimmer, that alone gets what was ordered, fresh, on exactly its call |q|. */
  lemma {:induction false} OrderArrives(q: seq<Msg>, order: Msg -> Option<(string, string)>,
                                          topic: string, payload: string)
    requires 0 < |q| <= 5 && q[0].dest in {MqttRx, WsRx} && order(q[0]) == Some((topic, payload))
    requires |payload| <= 512 && |topic| <= 128
    requires forall j :: 0 < j < |q| ==> q[j].dest != DimmerRx
    ensures var q' := AfterComTask(q, order);
            && (forall n :: 0 <= n < |q| - 1 ==>
                  Received(AfterReceives(q', Alone(DimmerRx, n)), DimmerRx).1.None?)
            && Received(AfterReceives(q', Alone(DimmerRx, |q| - 1)), DimmerRx).1
               == Some(Msg(0, DimmerRx, topic, |payload|, payload))
  {
    var q' := AfterComTask(q, order);
    assert q' == q[1..] + [Msg(0, DimmerRx, topic, |payload|, payload)];
    ReaderReaches(q', DimmerRx, |q| - 1);
  }

  /** What a round of Com_Task leaves of a message for `d` that orders nothing: for WS_TX, MASTER,
      DIMMER_RX and CONTROL it goes to the back with all its laps, for any other it is done with. */
  lemma WhatCirculates(m: Msg, q: seq<Msg>)
    requires Sound(m)
    ensures AfterComTask([m] + q, m => None)
            == if m.dest in {WsTx, Master, DimmerRx, Control} then q + [m.(count := 0)] else q
  {
    assert ([m] + q)[1..] == q;
  }

  /** A send is refused exactly if its payload is longer than 512 or its topic than 128. */
  lemma WhatIsRefused(topic: string, payload: string)
    ensures Acceptable(topic, payload) <==> |payload| <= 512 && |topic| <= 128
  {
  }
}
