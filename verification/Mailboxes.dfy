/** Mailboxes (kernel/src/ipc.rs): pushes, front pops, selective removal and resets, and what they
    deliver: per sender and receiver, in order and at most once. */
module Mailboxes {
  import opened Wrappers

  const PAYLOAD_LEN: nat := 96
  const MAILBOX_CAP: nat := 16

  datatype Message = Message(from: nat, to: nat, tag: nat, payload: seq<Byte>)

  type Boxes = seq<seq<Message>>

  /** A payload cut or zero-padded to its fixed size. */
  function Fixed(payload: seq<Byte>): (p: seq<Byte>)
    ensures |p| == PAYLOAD_LEN
    ensures forall i :: 0 <= i < PAYLOAD_LEN ==> p[i] == if i < |payload| then payload[i] else 0
  {
    if |payload| >= PAYLOAD_LEN then payload[..PAYLOAD_LEN] else payload + seq(PAYLOAD_LEN - |payload|, i => 0)
  }

  /** Index of the first message from `sender`, or the length. */
  function FirstFrom(box: seq<Message>, sender: nat): (i: nat)
    ensures i <= |box| && (i < |box| ==> box[i].from == sender)
    ensures forall j :: 0 <= j < i ==> box[j].from != sender
  {
    if box == [] || box[0].from == sender then 0 else 1 + FirstFrom(box[1..], sender)
  }

  function RemoveAt(box: seq<Message>, i: nat): (r: seq<Message>)
    requires i < |box|
  {
    box[..i] + box[i + 1..]
  }

  /** Replace box `id`, padding the table with empty boxes up to it. */
  function SetBox(boxes: Boxes, id: nat, box: seq<Message>): (r: Boxes)
    ensures |r| == if id < |boxes| then |boxes| else id + 1
    ensures forall d :: 0 <= d < |r| ==> r[d] == if d == id then box else if d < |boxes| then boxes[d] else []
  {
    if id < |boxes| then boxes[id := box] else boxes + seq(id - |boxes|, i => []) + [box]
  }

  /** What the kernel does to mailboxes. */
  datatype BoxOp = Push(to: nat, msg: Message) | Pop(me: nat) | TakeFrom(me: nat, sender: nat) | ResetBox(id: nat)

  /** The boxes afterwards and the message consumed, if any. */
  function BoxStep(boxes: Boxes, op: BoxOp): (r: (Boxes, Option<Message>)) {
    match op
    case Push(to, msg) => if to < |boxes| then (boxes[to := boxes[to] + [msg]], None) else (boxes, None)
    case Pop(me) =>
      if me < |boxes| && boxes[me] != [] then (boxes[me := boxes[me][1..]], Some(boxes[me][0])) else (boxes, None)
    case TakeFrom(me, sender) =>
      if me < |boxes| && FirstFrom(boxes[me], sender) < |boxes[me]|
      then (boxes[me := RemoveAt(boxes[me], FirstFrom(boxes[me], sender))],
        Some(boxes[me][FirstFrom(boxes[me], sender)]))
      else (boxes, None)
    case ResetBox(id) => (SetBox(boxes, id, []), None)
  }

  // ---- delivery between one sender and one receiver ----

  function From(box: seq<Message>, sender: nat): (r: seq<Message>) {
    if box == [] then [] else (if box[0].from == sender then [box[0]] else []) + From(box[1..], sender)
  }

  lemma {:induction false} FromAppend(a: seq<Message>, b: seq<Message>, sender: nat)
    ensures From(a + b, sender) == From(a, sender) + From(b, sender)
    decreases |a|
  {
    if a == [] {
      assert a + b == b;
      assert From(a, sender) + From(b, sender) == From(b, sender);
    } else {
      var first := if a[0].from == sender then [a[0]] else [];
      assert (a + b)[1..] == a[1..] + b && (a + b)[0] == a[0];
      FromAppend(a[1..], b, sender);
      assert first + (From(a[1..], sender) + From(b, sender)) == (first + From(a[1..], sender)) + From(b, sender);
    }
  }

  /** Selective removal takes the sender's oldest message and leaves the other senders' alone. */
  lemma {:induction false} TakeIsOldest(box: seq<Message>, sender: nat, other: nat)
    requires FirstFrom(box, sender) < |box|
    ensures var i := FirstFrom(box, sender);
            && From(box, sender) == [box[i]] + From(RemoveAt(box, i), sender)
            && (other != sender ==> From(RemoveAt(box, i), other) == From(box, other))
    decreases |box|
  {
    var i := FirstFrom(box, sender);
    if i == 0 {
      assert RemoveAt(box, 0) == box[1..];
    } else {
      TakeIsOldest(box[1..], sender, other);
      var rest := RemoveAt(box[1..], i - 1);
      assert RemoveAt(box, i) == [box[0]] + rest;
      assert ([box[0]] + rest)[1..] == rest;
      assert box[0].from != sender;
      assert From(box, sender) == From(box[1..], sender) && From([box[0]] + rest, sender) == From(rest, sender);
    }
  }

  /** What was pushed by one sender to one receiver since the receiver's last reset, and what it consumed. */
  datatype Log = Log(pushed: seq<Message>, taken: seq<Message>)

  function Track(log: Log, boxes: Boxes, op: BoxOp, s: nat, r: nat): (l: Log) {
    match op
    case Push(to, msg) => if to == r && to < |boxes| && msg.from == s then log.(pushed := log.pushed + [msg]) else log
    case ResetBox(id) => if id == r then Log([], []) else log
    case _ =>
      var got := BoxStep(boxes, op).1;
      if op.me == r && got.Some? && got.value.from == s then log.(taken := log.taken + [got.value]) else log
  }

  function Queued(boxes: Boxes, r: nat): (q: seq<Message>) { if r < |boxes| then boxes[r] else [] }

  /** Consumed, then still queued, is exactly what was pushed. */
  ghost predicate Delivered(log: Log, boxes: Boxes, s: nat, r: nat) {
    log.pushed == log.taken + From(Queued(boxes, r), s)
  }

  lemma StepDelivers(log: Log, boxes: Boxes, op: BoxOp, s: nat, r: nat)
    requires Delivered(log, boxes, s, r)
    ensures Delivered(Track(log, boxes, op, s, r), BoxStep(boxes, op).0, s, r)
  {
    match op
    case Push(to, msg) => PushDelivers(log, boxes, to, msg, s, r);
    case Pop(me) => PopDelivers(log, boxes, me, s, r);
    case TakeFrom(me, sender) => TakeDelivers(log, boxes, me, sender, s, r);
    case ResetBox(id) =>
  }

  lemma PushDelivers(log: Log, boxes: Boxes, to: nat, msg: Message, s: nat, r: nat)
    requires Delivered(log, boxes, s, r)
    ensures Delivered(Track(log, boxes, Push(to, msg), s, r), BoxStep(boxes, Push(to, msg)).0, s, r)
  {
    if to == r && to < |boxes| {
      FromAppend(boxes[r], [msg], s);
      var one := From([msg], s);
      assert [msg][1..] == [] && one == if msg.from == s then [msg] else [];
      assert log.taken + (From(boxes[r], s) + one) == (log.taken + From(boxes[r], s)) + one;
    }
  }

  lemma PopDelivers(log: Log, boxes: Boxes, me: nat, s: nat, r: nat)
    requires Delivered(log, boxes, s, r)
    ensures Delivered(Track(log, boxes, Pop(me), s, r), BoxStep(boxes, Pop(me)).0, s, r)
  {
    if me == r && me < |boxes| && boxes[me] != [] {
      var head, rest := boxes[r][0], From(boxes[r][1..], s);
      if head.from == s { assert log.taken + ([head] + rest) == (log.taken + [head]) + rest; }
    }
  }

  lemma TakeDelivers(log: Log, boxes: Boxes, me: nat, sender: nat, s: nat, r: nat)
    requires Delivered(log, boxes, s, r)
    ensures Delivered(Track(log, boxes, TakeFrom(me, sender), s, r), BoxStep(boxes, TakeFrom(me, sender)).0, s, r)
  {
    if me == r && me < |boxes| && FirstFrom(boxes[me], sender) < |boxes[me]| {
      var i := FirstFrom(boxes[me], sender);
      TakeIsOldest(boxes[r], sender, s);
      if sender == s {
        var rest := From(RemoveAt(boxes[r], i), s);
        assert log.taken + ([boxes[r][i]] + rest) == (log.taken + [boxes[r][i]]) + rest;
      }
    }
  }

  function BoxRun(boxes: Boxes, ops: seq<BoxOp>): (r: Boxes)
    decreases |ops|
  {
    if ops == [] then boxes else BoxRun(BoxStep(boxes, ops[0]).0, ops[1..])
  }

  function TrackRun(log: Log, boxes: Boxes, ops: seq<BoxOp>, s: nat, r: nat): (l: Log)
    decreases |ops|
  {
    if ops == [] then log
    else TrackRun(Track(log, boxes, ops[0], s, r), BoxStep(boxes, ops[0]).0, ops[1..], s, r)
  }

  /** Delivery over every run: first in, first out per sender, and nothing twice. */
  lemma {:induction false} RunDelivers(log: Log, boxes: Boxes, ops: seq<BoxOp>, s: nat, r: nat)
    requires Delivered(log, boxes, s, r)
    ensures Delivered(TrackRun(log, boxes, ops, s, r), BoxRun(boxes, ops), s, r)
    decreases |ops|
  {
    if ops != [] {
      StepDelivers(log, boxes, ops[0], s, r);
      RunDelivers(Track(log, boxes, ops[0], s, r), BoxStep(boxes, ops[0]).0, ops[1..], s, r);
    }
  }

  lemma {:induction false} BoxRunAppend(boxes: Boxes, a: seq<BoxOp>, b: seq<BoxOp>)
    ensures BoxRun(boxes, a + b) == BoxRun(BoxRun(boxes, a), b)
    decreases |a|
  {
    if a == [] {
      assert a + b == b;
    } else {
      assert (a + b)[1..] == a[1..] + b;
      BoxRunAppend(BoxStep(boxes, a[0]).0, a[1..], b);
    }
  }
}
