/** Message passing (ipc.cpp): linked queues that share one pool of message slots. */
module Messages {
  import opened Types

  const MAX_MESSAGES: nat := 64
  const MAX_SIZE: nat := 256
  const MAX_MAILBOXES: nat := 16
  const NULL := -1

  /** A process number, int32_t in the kernel. */
  type Pid = x: int | -0x8000_0000 <= x < 0x8000_0000

  /** IPCMessage and IPCMailbox; pointers are slot numbers, or NULL. */
  datatype Message = Message(sender: Pid, receiver: Pid, length: nat, data: seq<Byte>, used: bool, next: int)
  datatype Mailbox = Mailbox(owner: Pid, head: int, tail: int, count: nat, used: bool)

  // ----- what the mailboxes mean

  datatype Mail = Mail(sender: Pid, payload: seq<Byte>)

  /** One queue for each process that has a mailbox, and the number of messages under way. */
  datatype Post = Post(queues: map<Pid, seq<Mail>>, inFlight: int, boxes: nat)

  function Payload(data: seq<Byte>, length: nat): seq<Byte>
    requires |data| >= if length > MAX_SIZE then MAX_SIZE else length
  {
    data[..if length > MAX_SIZE then MAX_SIZE else length]
  }

  /** ipc_send fails when the pool is full or the receiver has no mailbox. */
  predicate CanSend(p: Post, dest: Pid)
  {
    p.inFlight < MAX_MESSAGES && dest in p.queues
  }

  function Sent(p: Post, dest: Pid, mail: Mail): Post
  {
    if CanSend(p, dest) then p.(queues := p.queues[dest := p.queues[dest] + [mail]], inFlight := p.inFlight + 1) else p
  }

  lemma NothingReceived(p: Post, pid: Pid)
    requires !CanReceive(p, pid)
    ensures Received(p, pid) == p
  {
  }

  predicate CanReceive(p: Post, pid: Pid)
  {
    pid in p.queues && p.queues[pid] != []
  }

  function Received(p: Post, pid: Pid): Post
  {
    if CanReceive(p, pid) then p.(queues := p.queues[pid := p.queues[pid][1..]], inFlight := p.inFlight - 1) else p
  }

  function Opened(p: Post, pid: Pid): Post
  {
    if p.boxes >= MAX_MAILBOXES then p
    else p.(queues := if pid in p.queues then p.queues else p.queues[pid := []], boxes := p.boxes + 1)
  }

  /** What a buffer holds once `mail` has been copied into it. */
  function Delivery(mail: Mail, buffer: seq<Byte>, maxLength: nat): seq<Byte>
    requires maxLength <= |buffer|
  {
    var n := if |mail.payload| > maxLength then maxLength else |mail.payload|;
    mail.payload[..n] + buffer[n..]
  }

  // ----- the steps in plain terms

  /** What an accepted message is and where it goes; one that is not accepted changes nothing. */
  lemma SentInPlain(p: Post, me: Pid, dest: Pid, data: seq<Byte>, size: nat)
    requires |data| >= if size > 256 then 256 else size
    ensures var p' := Sent(p, dest, Mail(me, Payload(data, size)));
            if p.inFlight < 64 && dest in p.queues then
              && p'.queues == p.queues[dest := p.queues[dest] + [Mail(me, data[..if size > 256 then 256 else size])]]
              && p'.inFlight == p.inFlight + 1 && p'.boxes == p.boxes
            else p' == p
  {
  }

  /** Receiving takes the first message away, and only that. */
  lemma ReceivedInPlain(p: Post, pid: Pid)
    ensures var p' := Received(p, pid);
            if pid in p.queues && |p.queues[pid]| > 0 then
              && p'.queues.Keys == p.queues.Keys && [p.queues[pid][0]] + p'.queues[pid] == p.queues[pid]
              && (forall q :: q in p.queues && q != pid ==> p'.queues[q] == p.queues[q])
              && p'.inFlight == p.inFlight - 1 && p'.boxes == p.boxes
            else p' == p
  {
  }

  /** A new mailbox, of which there are sixteen, takes no message away. */
  lemma OpenedInPlain(p: Post, pid: Pid)
    ensures var p' := Opened(p, pid);
            if p.boxes < 16 then
              && p'.queues.Keys == p.queues.Keys + {pid} && Waiting(p', pid) == Waiting(p, pid)
              && (forall q :: q in p.queues ==> p'.queues[q] == p.queues[q])
              && p'.inFlight == p.inFlight && p'.boxes == p.boxes + 1
            else p' == p
  {
  }

  /** The bytes of the message that fit stand in front of what the buffer held behind them. */
  lemma DeliveryInPlain(mail: Mail, buffer: seq<Byte>, maxLength: nat)
    requires maxLength <= |buffer|
    ensures var after := Delivery(mail, buffer, maxLength);
            && |after| == |buffer|
            && forall k :: 0 <= k < |buffer| ==> after[k] == if k < |mail.payload| && k < maxLength then mail.payload[k] else buffer[k]
  {
  }

  // ----- runs: first in, first out

  datatype Event = Send(dest: Pid, mail: Mail) | Receive(pid: Pid) | Open(pid: Pid)

  function Apply(p: Post, e: Event): Post
  {
    match e
    case Send(dest, mail) => Sent(p, dest, mail)
    case Receive(pid) => Received(p, pid)
    case Open(pid) => Opened(p, pid)
  }

  function After(p: Post, run: seq<Event>): Post
  {
    if run == [] then p else Apply(After(p, run[..|run| - 1]), run[|run| - 1])
  }

  /** The messages accepted for a process, in order. */
  function Accepted(p: Post, run: seq<Event>, pid: Pid): seq<Mail>
  {
    if run == [] then []
    else
      var before, last := run[..|run| - 1], run[|run| - 1];
      Accepted(p, before, pid) + AcceptedBy(After(p, before), last, pid)
  }

  /** The messages delivered to a process, in order. */
  function Delivered(p: Post, run: seq<Event>, pid: Pid): seq<Mail>
  {
    if run == [] then []
    else
      var before, last := run[..|run| - 1], run[|run| - 1];
      Delivered(p, before, pid) + DeliveredBy(After(p, before), last, pid)
  }

  function Waiting(p: Post, pid: Pid): seq<Mail>
  {
    if pid in p.queues then p.queues[pid] else []
  }

  /** After any run, what was delivered followed by what is queued is what was queued followed by what was
      accepted: nothing is lost, duplicated, altered or overtaken, whatever the other processes do. */
  lemma {:induction false} FirstInFirstOut(p: Post, run: seq<Event>, pid: Pid)
    ensures Delivered(p, run, pid) + Waiting(After(p, run), pid) == Waiting(p, pid) + Accepted(p, run, pid)
  {
    if run == [] {
    } else {
      var before := run[..|run| - 1];
      FirstInFirstOut(p, before, pid);
      StepInOrder(After(p, before), run[|run| - 1], pid);
      Regroup(Delivered(p, before, pid), DeliveredBy(After(p, before), run[|run| - 1], pid), Waiting(After(p, run), pid),
              Waiting(After(p, before), pid), Waiting(p, pid), Accepted(p, before, pid), AcceptedBy(After(p, before), run[|run| - 1], pid));
    }
  }

  function AcceptedBy(p: Post, e: Event, pid: Pid): seq<Mail>
  {
    if e.Send? && e.dest == pid && CanSend(p, pid) then [e.mail] else []
  }

  function DeliveredBy(p: Post, e: Event, pid: Pid): seq<Mail>
  {
    if e == Receive(pid) && CanReceive(p, pid) then [p.queues[pid][0]] else []
  }

  lemma StepInOrder(p: Post, e: Event, pid: Pid)
    ensures DeliveredBy(p, e, pid) + Waiting(Apply(p, e), pid) == Waiting(p, pid) + AcceptedBy(p, e, pid)
  {
  }

  lemma Regroup(d0: seq<Mail>, d: seq<Mail>, w': seq<Mail>, w: seq<Mail>, q0: seq<Mail>, a0: seq<Mail>, a: seq<Mail>)
    requires d0 + w == q0 + a0 && d + w' == w + a
    ensures (d0 + d) + w' == q0 + (a0 + a)
  {
    assert (d0 + d) + w' == d0 + (d + w') == (d0 + w) + a;
  }

  // ----- the representation

  /** Queue `q` of slots is linked from the head of a mailbox to its tail, and counted. */
  ghost predicate Queue(pool: seq<Message>, box: Mailbox, q: seq<nat>)
  {
    && box.count == |q|
    && box.head == (if q == [] then NULL else q[0])
    && box.tail == (if q == [] then NULL else q[|q| - 1])
    && forall k :: 0 <= k < |q| ==> LinkAt(pool, q, k)
  }

  ghost predicate LinkAt(pool: seq<Message>, q: seq<nat>, k: nat)
    requires k < |q|
  {
    q[k] < |pool| && pool[q[k]].used && pool[q[k]].next == if k + 1 < |q| then q[k + 1] else NULL
  }

  datatype Place = Place(box: nat, position: nat)

  /** Every used slot is in one queue, at one place. */
  ghost predicate Placed(pool: seq<Message>, queues: seq<seq<nat>>, places: map<nat, Place>)
  {
    && (forall s :: s in places <==> 0 <= s < |pool| && pool[s].used)
    && (forall s :: s in places ==>
          places[s].box < |queues| && places[s].position < |queues[places[s].box]| && queues[places[s].box][places[s].position] == s)
    && (forall b, k :: 0 <= b < |queues| && 0 <= k < |queues[b]| ==> queues[b][k] in places && places[queues[b][k]] == Place(b, k))
  }

  ghost predicate GoodMessage(m: Message)
  {
    |m.data| == MAX_SIZE && m.length <= MAX_SIZE
  }

  /** The lowest mailbox of a process among the first `n`; `n` when it has none. */
  function First(boxes: seq<Mailbox>, pid: Pid, n: nat): (r: nat)
    requires n <= |boxes|
    ensures r <= n
    ensures r < n ==> boxes[r].used && boxes[r].owner == pid
    ensures forall i :: 0 <= i < r ==> !(boxes[i].used && boxes[i].owner == pid)
  {
    if n == 0 then 0
    else
      var r := First(boxes, pid, n - 1);
      if r < n - 1 then r
      else if boxes[n - 1].used && boxes[n - 1].owner == pid then n - 1
      else n
  }

  ghost predicate Rep(pool: seq<Message>, boxes: seq<Mailbox>, mailboxCount: nat, queues: seq<seq<nat>>, places: map<nat, Place>)
  {
    && |pool| == MAX_MESSAGES && |boxes| == MAX_MAILBOXES && |queues| == MAX_MAILBOXES && mailboxCount <= MAX_MAILBOXES
    && (forall s :: 0 <= s < MAX_MESSAGES ==> GoodMessage(pool[s]))
    && (forall b :: 0 <= b < MAX_MAILBOXES ==> Queue(pool, boxes[b], queues[b]))
    && (forall b :: 0 <= b < MAX_MAILBOXES ==> (boxes[b].used <==> b < mailboxCount))
    && (forall b :: 0 <= b < MAX_MAILBOXES && queues[b] != [] ==>
          boxes[b].used && First(boxes, boxes[b].owner, MAX_MAILBOXES) == b)
    && Placed(pool, queues, places)
  }

  function MailOf(m: Message): Mail
    requires m.length <= |m.data|
  {
    Mail(m.sender, m.data[..m.length])
  }

  ghost function Contents(pool: seq<Message>, q: seq<nat>): (r: seq<Mail>)
    ensures |r| == |q|
  {
    seq(|q|, k requires 0 <= k < |q| =>
      if q[k] < |pool| && pool[q[k]].length <= |pool[q[k]].data| then MailOf(pool[q[k]]) else Mail(0, []))
  }

  ghost function Owners(boxes: seq<Mailbox>): set<Pid>
  {
    set b | 0 <= b < |boxes| && boxes[b].used :: boxes[b].owner
  }

  ghost function Meaning(pool: seq<Message>, boxes: seq<Mailbox>, mailboxCount: nat, queues: seq<seq<nat>>, places: map<nat, Place>): Post
    requires |boxes| == |queues|
  {
    Post(map pid | pid in Owners(boxes) :: QueueOf(pool, boxes, queues, pid), |places|, mailboxCount)
  }

  /** What is queued for a process: the contents of its lowest mailbox. */
  ghost function QueueOf(pool: seq<Message>, boxes: seq<Mailbox>, queues: seq<seq<nat>>, pid: Pid): seq<Mail>
    requires |boxes| == |queues|
  {
    var b := First(boxes, pid, |boxes|);
    if b < |boxes| then Contents(pool, queues[b]) else []
  }

  lemma FirstIsUnique(boxes: seq<Mailbox>, pid: Pid, b: nat)
    requires b < |boxes| && boxes[b].used && boxes[b].owner == pid
    requires forall i :: 0 <= i < b ==> !(boxes[i].used && boxes[i].owner == pid)
    ensures First(boxes, pid, |boxes|) == b
  {
  }

  lemma OwnersHave(boxes: seq<Mailbox>, pid: Pid)
    ensures pid in Owners(boxes) <==> First(boxes, pid, |boxes|) < |boxes|
  {
    var b := First(boxes, pid, |boxes|);
    assert b < |boxes| ==> boxes[b].used && boxes[b].owner == pid;
  }

  /** A new message for a mailbox: its link, the mailbox, the queue and the place. */
  lemma EnqueueQueue(pool: seq<Message>, box: Mailbox, q: seq<nat>, s: nat, m: Message)
    requires Queue(pool, box, q) && s < |pool| && s !in q && m.used && m.next == NULL
    requires forall j, k :: 0 <= j < k < |q| ==> q[j] != q[k]
    ensures q != [] ==> q[|q| - 1] < |pool|
    ensures var pool1 := pool[s := m];
            var pool2 := if q != [] then pool1[q[|q| - 1] := pool1[q[|q| - 1]].(next := s)] else pool1;
            Queue(pool2, box.(head := if q == [] then s else box.head, tail := s, count := box.count + 1), q + [s])
  {
    if q != [] {
      assert LinkAt(pool, q, |q| - 1);
    }
    var pool1 := pool[s := m];
    var pool2 := if q != [] then pool1[q[|q| - 1] := pool1[q[|q| - 1]].(next := s)] else pool1;
    forall k | 0 <= k < |q + [s]|
      ensures LinkAt(pool2, q + [s], k)
    {
      if k < |q| {
        assert LinkAt(pool, q, k);
      }
    }
  }

  /** Taking the first message of a queue. */
  lemma DequeueQueue(pool: seq<Message>, box: Mailbox, q: seq<nat>, m: Message)
    requires Queue(pool, box, q) && q != []
    requires forall j, k :: 0 <= j < k < |q| ==> q[j] != q[k]
    ensures q[0] < |pool|
    ensures var next := pool[q[0]].next;
            Queue(pool[q[0] := m], box.(head := next, tail := if next == NULL then NULL else box.tail, count := box.count - 1), q[1..])
  {
    assert LinkAt(pool, q, 0);
    var rest, pool' := q[1..], pool[q[0] := m];
    forall k | 0 <= k < |rest|
      ensures LinkAt(pool', rest, k)
    {
      assert LinkAt(pool, q, k + 1);
    }
  }

  /** A queue none of whose slots changes is still that queue. */
  lemma OtherQueue(pool: seq<Message>, pool': seq<Message>, box: Mailbox, q: seq<nat>)
    requires Queue(pool, box, q) && |pool'| == |pool|
    requires forall k :: 0 <= k < |q| && q[k] < |pool| ==> pool'[q[k]] == pool[q[k]]
    ensures Queue(pool', box, q) && Contents(pool', q) == Contents(pool, q)
  {
    forall k | 0 <= k < |q|
      ensures LinkAt(pool', q, k)
      ensures q[k] < |pool|
    {
      assert LinkAt(pool, q, k);
    }
  }

  /** Slots of different queues differ. */
  lemma SlotsApart(pool: seq<Message>, queues: seq<seq<nat>>, places: map<nat, Place>, b: nat)
    requires Placed(pool, queues, places) && b < |queues|
    ensures forall j, k :: 0 <= j < k < |queues[b]| ==> queues[b][j] != queues[b][k]
    ensures forall c, j, k :: 0 <= c < |queues| && c != b && 0 <= j < |queues[b]| && 0 <= k < |queues[c]| ==> queues[b][j] != queues[c][k]
    ensures forall j :: 0 <= j < |queues[b]| ==> queues[b][j] in places && queues[b][j] < |pool| && pool[queues[b][j]].used
  {
  }

  function Behind(box: Mailbox, slot: nat): Mailbox
  {
    box.(head := if box.tail == NULL then slot else box.head, tail := slot, count := box.count + 1)
  }

  function Ahead(box: Mailbox, next: int): Mailbox
    requires box.count > 0
  {
    box.(head := next, tail := if next == NULL then NULL else box.tail, count := box.count - 1)
  }

  function Freed(m: Message): Message
  {
    m.(used := false, next := NULL)
  }

  class Mailboxes {
    const pool: array<Message>        // msg_pool
    const mailboxes: array<Mailbox>
    var mailboxCount: nat             // mailbox_count
    ghost var queues: seq<seq<nat>>   // the slots of each mailbox, first to last
    ghost var places: map<nat, Place> // where each used slot is queued

    ghost predicate Valid()
      reads this, pool, mailboxes
    {
      Rep(pool[..], mailboxes[..], mailboxCount, queues, places)
    }

    ghost function View(): Post
      requires mailboxes.Length == |queues|
      reads this, pool, mailboxes
    {
      Meaning(pool[..], mailboxes[..], mailboxCount, queues, places)
    }

    /** ipc_init. */
    constructor ()
      ensures Valid() && fresh(pool) && fresh(mailboxes)
      ensures View() == Post(map[], 0, 0)
    {
      var blank := Message(0, 0, 0, seq(MAX_SIZE, _ => 0), false, NULL);
      pool := new Message[MAX_MESSAGES](_ => blank);
      mailboxes := new Mailbox[MAX_MAILBOXES](_ => Mailbox(0, NULL, NULL, 0, false));
      mailboxCount := 0;
      queues, places := seq(MAX_MAILBOXES, _ => []), map[];
      new;
      for i := 0 to MAX_MESSAGES
        invariant forall s :: 0 <= s < MAX_MESSAGES ==> GoodMessage(pool[s]) && !pool[s].used
        invariant forall b :: 0 <= b < MAX_MAILBOXES ==> mailboxes[b] == Mailbox(0, NULL, NULL, 0, false)
        invariant mailboxCount == 0 && places == map[] && queues == seq(MAX_MAILBOXES, _ => [])
      {
        pool[i] := pool[i].(used := false, next := NULL);
      }
      for i := 0 to MAX_MAILBOXES
        invariant forall s :: 0 <= s < MAX_MESSAGES ==> GoodMessage(pool[s]) && !pool[s].used
        invariant forall b :: 0 <= b < MAX_MAILBOXES ==> mailboxes[b] == Mailbox(0, NULL, NULL, 0, false)
        invariant mailboxCount == 0 && places == map[] && queues == seq(MAX_MAILBOXES, _ => [])
      {
        mailboxes[i] := mailboxes[i].(used := false, head := NULL, tail := NULL, count := 0);
      }
    }

    /** alloc_message: the lowest unused slot, or NULL when all are in use. */
    method AllocMessage() returns (slot: int)
      requires Valid()
      modifies pool
      ensures pool.Length == MAX_MESSAGES
      ensures slot == NULL <==> |places| == MAX_MESSAGES
      ensures slot == NULL ==> pool[..] == old(pool[..])
      ensures slot != NULL ==>
                && 0 <= slot < MAX_MESSAGES && !old(pool[slot].used)
                && pool[..] == old(pool[..])[slot := old(pool[slot]).(used := true, next := NULL)]
    {
      hide First, Queue, LinkAt, GoodMessage, Placed;
      for i := 0 to MAX_MESSAGES
        invariant pool[..] == old(pool[..])
        invariant forall s :: 0 <= s < i ==> pool[s].used
      {
        if !pool[i].used {
          SomeUnused(pool[..], queues, places, i);
          pool[i] := pool[i].(used := true);
          pool[i] := pool[i].(next := NULL);
          return i;
        }
      }
      AllUsed(pool[..], queues, places);
      return NULL;
    }

    /** The part of ipc_send that fills a slot. */
    method Fill(slot: nat, me: Pid, dest: Pid, data: seq<Byte>, length: nat)
      requires slot < pool.Length && |pool[slot].data| == MAX_SIZE && length <= MAX_SIZE && length <= |data|
      modifies pool
      ensures pool[..] == old(pool[..])[slot := pool[slot]]
      ensures GoodMessage(pool[slot]) && pool[slot].used == old(pool[slot].used) && pool[slot].next == old(pool[slot].next)
      ensures MailOf(pool[slot]) == Mail(me, data[..length])
    {
      pool[slot] := pool[slot].(sender := me);
      pool[slot] := pool[slot].(receiver := dest);
      pool[slot] := pool[slot].(length := length);
      for i := 0 to length
        invariant pool[..] == old(pool[..])[slot := pool[slot]]
        invariant |pool[slot].data| == MAX_SIZE && pool[slot].data[..i] == data[..i]
        invariant pool[slot].sender == me && pool[slot].length == length
        invariant pool[slot].used == old(pool[slot].used) && pool[slot].next == old(pool[slot].next)
      {
        pool[slot] := pool[slot].(data := pool[slot].data[i := data[i]]);
      }
    }

    /** The part of ipc_send that links a filled slot in behind the last message of mailbox `b`. */
    method LinkLast(slot: nat, b: nat)
      requires slot < pool.Length && b < mailboxes.Length && mailboxes[b].tail < pool.Length && mailboxes[b].tail != slot
      requires mailboxes[b].tail != NULL ==> mailboxes[b].tail >= 0
      modifies pool, mailboxes
      ensures var box, tail := old(mailboxes[b]), old(mailboxes[b].tail);
              var m := old(pool[slot]).(next := NULL);
              && mailboxes[..] == old(mailboxes[..])[b := box.(head := if tail == NULL then slot else box.head, tail := slot, count := box.count + 1)]
              && pool[..] == if tail == NULL then old(pool[..])[slot := m]
                             else old(pool[..])[slot := m][tail := old(pool[tail]).(next := slot)]
    {
      pool[slot] := pool[slot].(next := NULL);
      if mailboxes[b].tail != NULL {
        pool[mailboxes[b].tail] := pool[mailboxes[b].tail].(next := slot);
      } else {
        mailboxes[b] := mailboxes[b].(head := slot);
      }
      mailboxes[b] := mailboxes[b].(tail := slot);
      mailboxes[b] := mailboxes[b].(count := mailboxes[b].count + 1);
    }

    /** free_message. */
    method FreeMessage(slot: int)
      requires slot == NULL || 0 <= slot < pool.Length
      modifies pool
      ensures pool[..] == if slot == NULL then old(pool[..]) else old(pool[..])[slot := old(pool[slot]).(used := false, next := NULL)]
    {
      if slot != NULL {
        pool[slot] := pool[slot].(used := false);
        pool[slot] := pool[slot].(next := NULL);
      }
    }

    /** The branch of ipc_send taken when `b` is the lowest mailbox of the receiver and `slot` has been filled;
        `pool0` is the pool before the slot was taken. */
    method Deliver(slot: nat, b: nat, ghost pool0: seq<Message>)
      requires Rep(pool0, mailboxes[..], mailboxCount, queues, places)
      requires slot < MAX_MESSAGES == pool.Length && b < MAX_MAILBOXES == mailboxes.Length && !pool0[slot].used
      requires pool[..] == pool0[slot := pool[slot]] && GoodMessage(pool[slot]) && pool[slot].used && pool[slot].next == NULL
      requires mailboxes[b].used && First(mailboxes[..], mailboxes[b].owner, MAX_MAILBOXES) == b
      modifies this`queues, this`places, pool, mailboxes
      ensures Valid() && |queues| == MAX_MAILBOXES
      ensures var before := Meaning(pool0, old(mailboxes[..]), mailboxCount, old(queues), old(places));
              && CanSend(before, old(mailboxes[b].owner))
              && View() == Sent(before, old(mailboxes[b].owner), MailOf(old(pool[slot])))
    {
      hide Rep, Placed, Queue, Meaning, First, Sent, CanSend, LinkAt;
      ghost var boxes, m := mailboxes[..], pool[slot];
      RepFacts(pool0, boxes, mailboxCount, queues, places);
      TailFacts(pool0, boxes, mailboxCount, queues, places, b, slot);
      Enqueued(pool0, boxes, mailboxCount, queues, places, b, slot, m);
      LinkLast(slot, b);
      assert pool[..] == Linked(pool0, queues[b], slot, m);
      assert mailboxes[..] == boxes[b := Behind(boxes[b], slot)];
      places := places[slot := Place(b, |queues[b]|)];
      queues := queues[b := queues[b] + [slot]];
    }

    /** ipc_send, by process `me`. */
    method Send(me: Pid, dest: Pid, data: seq<Byte>, size: nat) returns (r: int)
      requires Valid() && |data| >= if size > MAX_SIZE then MAX_SIZE else size
      modifies this`queues, this`places, pool, mailboxes
      ensures Valid() && View() == Sent(old(View()), dest, Mail(me, Payload(data, size)))
      ensures r == if CanSend(old(View()), dest) then 0 else -1
      ensures r != 0 ==> places == old(places) && queues == old(queues)
    {
      ghost var pool0, boxes0 := pool[..], mailboxes[..];
      RepFacts(pool0, boxes0, mailboxCount, queues, places);
      DestFacts(pool0, boxes0, mailboxCount, queues, places, dest);
      hide Rep, Placed, Queue, Meaning, First, Linked;
      var length := if size > MAX_SIZE then MAX_SIZE else size;
      var slot := AllocMessage();
      if slot == NULL {
        return -1;
      }
      Fill(slot, me, dest, data, length);
      ghost var m := pool[slot];
      assert pool[..] == pool0[slot := m];
      for i := 0 to MAX_MAILBOXES
        invariant pool[..] == pool0[slot := m] && mailboxes[..] == boxes0
        invariant queues == old(queues) && places == old(places)
        invariant forall j :: 0 <= j < i ==> !(boxes0[j].used && boxes0[j].owner == dest)
      {
        if mailboxes[i].used && mailboxes[i].owner == dest {
          FirstIsUnique(boxes0, dest, i);
          Deliver(slot, i, pool0);
          return 0;
        }
      }
      FreeMessage(slot);
      assert pool[..] == pool0[slot := Freed(m)];
      Unqueued(pool0, boxes0, mailboxCount, queues, places, slot, Freed(m));
      return -1;
    }

    /** The part of ipc_receive that copies a message out, no more than the caller has room for. */
    method CopyOut(slot: nat, buffer: array<Byte>, maxLength: nat)
      requires slot < pool.Length && pool[slot].length <= |pool[slot].data| && maxLength <= buffer.Length
      modifies buffer
      ensures var n := if pool[slot].length > maxLength then maxLength else pool[slot].length;
              buffer[..] == pool[slot].data[..n] + old(buffer[n..])
    {
      var toCopy := pool[slot].length;
      if toCopy > maxLength {
        toCopy := maxLength;
      }
      for k := 0 to toCopy
        invariant forall j :: 0 <= j < buffer.Length ==> buffer[j] == if j < k then pool[slot].data[j] else old(buffer[j])
      {
        buffer[k] := pool[slot].data[k];
      }
      assert buffer[..] == pool[slot].data[..toCopy] + old(buffer[toCopy..]);
    }

    /** The part of ipc_receive that unlinks the first message of mailbox `b`. */
    method UnlinkFirst(b: nat) returns (slot: nat)
      requires b < mailboxes.Length && 0 <= mailboxes[b].head < pool.Length && mailboxes[b].count > 0
      modifies mailboxes
      ensures slot == old(mailboxes[b].head) && mailboxes[..] == old(mailboxes[..])[b := Ahead(old(mailboxes[b]), pool[slot].next)]
    {
      slot := mailboxes[b].head;
      mailboxes[b] := mailboxes[b].(head := pool[slot].next);
      if mailboxes[b].head == NULL {
        mailboxes[b] := mailboxes[b].(tail := NULL);
      }
      mailboxes[b] := mailboxes[b].(count := mailboxes[b].count - 1);
    }

    /** The branch of ipc_receive taken when mailbox `b` is not empty. */
    method TakeFirst(b: nat, buffer: array<Byte>, maxLength: nat) returns (length: nat, sender: Pid)
      requires Valid() && b < MAX_MAILBOXES == |queues| && queues[b] != [] && maxLength <= buffer.Length && mailboxes.Length == MAX_MAILBOXES
      modifies this`queues, this`places, pool, mailboxes, buffer
      ensures Valid() && |queues| == MAX_MAILBOXES
      ensures var before, pid := old(View()), old(mailboxes[b].owner);
              && CanReceive(before, pid) && View() == Received(before, pid)
              && var mail := before.queues[pid][0];
              && length == |mail.payload| && sender == mail.sender
              && buffer[..] == Delivery(mail, old(buffer[..]), maxLength)
    {
      hide Rep, Placed, Queue, Meaning, First, Received, CanReceive, Shifted, LinkAt;
      ghost var pool0, boxes0 := pool[..], mailboxes[..];
      RepFacts(pool0, boxes0, mailboxCount, queues, places);
      HeadFacts(pool0, boxes0, mailboxCount, queues, places, b);
      Dequeued(pool0, boxes0, mailboxCount, queues, places, b);
      var slot := UnlinkFirst(b);
      sender := pool[slot].sender;
      CopyOut(slot, buffer, maxLength);
      length := pool[slot].length;
      FreeMessage(slot);
      assert pool[..] == pool0[slot := Freed(pool0[slot])];
      places := Shifted(places, b, slot);
      queues := queues[b := queues[b][1..]];
    }

    /** ipc_mailbox_recv, and ipc_receive, where `pid` is the calling process. The result is the length of the
        message, even when less of it has been copied. */
    method Receive(pid: Pid, buffer: array<Byte>, maxLength: nat) returns (r: int, sender: Pid)
      requires Valid() && maxLength <= buffer.Length
      modifies this`queues, this`places, pool, mailboxes, buffer
      ensures Valid() && View() == Received(old(View()), pid)
      ensures !CanReceive(old(View()), pid) ==> r == -1 && buffer[..] == old(buffer[..])
      ensures CanReceive(old(View()), pid) ==>
                var mail := old(View()).queues[pid][0];
                r == |mail.payload| && sender == mail.sender && buffer[..] == Delivery(mail, old(buffer[..]), maxLength)
    {
      hide Rep, Placed, Queue, Meaning, First, Delivery, LinkAt, GoodMessage, Received;
      ghost var pool0, boxes0 := pool[..], mailboxes[..];
      RepFacts(pool0, boxes0, mailboxCount, queues, places);
      sender := 0;
      for i := 0 to MAX_MAILBOXES
        invariant pool[..] == pool0 && mailboxes[..] == boxes0 && buffer[..] == old(buffer[..])
        invariant queues == old(queues) && places == old(places)
        invariant forall j :: 0 <= j < i && boxes0[j].used && boxes0[j].owner == pid ==> queues[j] == []
      {
        HeadFacts(pool0, boxes0, mailboxCount, queues, places, i);
        if mailboxes[i].used && mailboxes[i].owner == pid {
          if mailboxes[i].head != NULL {
            r, sender := TakeFirst(i, buffer, maxLength);
            return;
          }
        }
      }
      NothingQueued(pool0, boxes0, mailboxCount, queues, places, pid);
      NothingReceived(View(), pid);
      return -1, sender;
    }

    /** A message from end to end: sent to a process with an empty queue and received by it. */
    method SendAndReceive(me: Pid, dest: Pid, data: seq<Byte>, size: nat, buffer: array<Byte>, maxLength: nat)
      returns (r: int, sender: Pid)
      requires Valid() && dest in View().queues && View().queues[dest] == [] && View().inFlight < 64
      requires |data| >= (if size > 256 then 256 else size) && maxLength <= buffer.Length
      modifies this`queues, this`places, pool, mailboxes, buffer
      ensures Valid() && sender == me && r == if size > 256 then 256 else size
      ensures forall k :: 0 <= k < buffer.Length ==> buffer[k] == if k < r && k < maxLength then data[k] else old(buffer[k])
      ensures View() == old(View())
    {
      hide Meaning, Placed, Queue, First, Sent, Received, Delivery, Payload, CanSend;
      ghost var p, bytes := View(), buffer[..];
      SentInPlain(p, me, dest, data, size);
      r := Send(me, dest, data, size);
      ghost var p1 := View();
      ReceivedInPlain(p1, dest);
      ghost var mail := Mail(me, data[..if size > 256 then 256 else size]);
      assert p1.queues[dest] == [mail];
      DeliveryInPlain(mail, bytes, maxLength);
      r, sender := Receive(dest, buffer, maxLength);
      assert View().queues == p.queues;
    }

    /** ipc_mailbox_create. */
    method CreateMailbox(pid: Pid) returns (r: int)
      requires Valid()
      modifies this`mailboxCount, mailboxes
      ensures Valid() && View() == Opened(old(View()), pid)
      ensures r == 0 <==> old(mailboxCount) < MAX_MAILBOXES
      ensures r == 0 || r == -1
    {
      for i := 0 to MAX_MAILBOXES
        invariant i <= mailboxCount && mailboxes[..] == old(mailboxes[..]) && mailboxCount == old(mailboxCount)
      {
        if !mailboxes[i].used {
          ghost var boxes := mailboxes[..];
          assert i == mailboxCount && queues[i] == [];
          mailboxes[i] := mailboxes[i].(used := true, owner := pid, head := NULL, tail := NULL, count := 0);
          mailboxCount := mailboxCount + 1;
          OpenedRep(pool[..], boxes, queues, places, i, pid);
          assert mailboxes[..] == boxes[i := Mailbox(pid, NULL, NULL, 0, true)];
          return 0;
        }
      }
      return -1;
    }
  }

  lemma SomeUnused(pool: seq<Message>, queues: seq<seq<nat>>, places: map<nat, Place>, s: nat)
    requires |pool| == MAX_MESSAGES && Placed(pool, queues, places) && s < MAX_MESSAGES && !pool[s].used
    ensures |places| < MAX_MESSAGES
  {
    BelowSize(MAX_MESSAGES);
    SubsetSize(places.Keys, Below(MAX_MESSAGES));
    assert s in Below(MAX_MESSAGES) && s !in places.Keys;
  }

  lemma AllUsed(pool: seq<Message>, queues: seq<seq<nat>>, places: map<nat, Place>)
    requires |pool| == MAX_MESSAGES && Placed(pool, queues, places)
    requires forall s :: 0 <= s < MAX_MESSAGES ==> pool[s].used
    ensures |places| == MAX_MESSAGES
  {
    BelowSize(MAX_MESSAGES);
    assert places.Keys == Below(MAX_MESSAGES);
  }

  lemma OpenedFirst(boxes: seq<Mailbox>, n: nat, pid: Pid, p: Pid)
    requires n < |boxes| && forall b :: 0 <= b < |boxes| ==> (boxes[b].used <==> b < n)
    ensures var boxes' := boxes[n := Mailbox(pid, NULL, NULL, 0, true)];
            var b := First(boxes, p, |boxes|);
            && First(boxes', p, |boxes|) == (if b == |boxes| && p == pid then n else b)
            && (p in Owners(boxes) <==> b < |boxes|)
            && (p in Owners(boxes') <==> p in Owners(boxes) || p == pid)
  {
    var boxes' := boxes[n := Mailbox(pid, NULL, NULL, 0, true)];
    var b := First(boxes, p, |boxes|);
    OwnersHave(boxes, p);
    OwnersHave(boxes', p);
    if b < |boxes| {
      FirstIsUnique(boxes', p, b);
    } else if p == pid {
      FirstIsUnique(boxes', p, n);
    }
  }

  lemma OpenedKeepsRep(pool: seq<Message>, boxes: seq<Mailbox>, queues: seq<seq<nat>>, places: map<nat, Place>, n: nat, pid: Pid)
    requires Rep(pool, boxes, n, queues, places) && n < MAX_MAILBOXES
    ensures Rep(pool, boxes[n := Mailbox(pid, NULL, NULL, 0, true)], n + 1, queues, places)
  {
    hide First, Owners, LinkAt, Placed;
    assert queues[n] == [];
    forall p: Pid
      ensures var b := First(boxes, p, MAX_MAILBOXES);
              First(boxes[n := Mailbox(pid, NULL, NULL, 0, true)], p, MAX_MAILBOXES) ==
              if b == MAX_MAILBOXES && p == pid then n else b
    {
      OpenedFirst(boxes, n, pid, p);
    }
  }

  /** A new mailbox comes last, so it takes nothing over from an older one of the same process. */
  lemma OpenedRep(pool: seq<Message>, boxes: seq<Mailbox>, queues: seq<seq<nat>>, places: map<nat, Place>, n: nat, pid: Pid)
    requires Rep(pool, boxes, n, queues, places) && n < MAX_MAILBOXES
    ensures var boxes' := boxes[n := Mailbox(pid, NULL, NULL, 0, true)];
            && Rep(pool, boxes', n + 1, queues, places)
            && Meaning(pool, boxes', n + 1, queues, places) == Opened(Meaning(pool, boxes, n, queues, places), pid)
  {
    OpenedKeepsRep(pool, boxes, queues, places, n, pid);
    assert queues[n] == [];
    OpenedMeaning(pool, boxes, queues, places, n, pid);
  }

  lemma OpenedMeaning(pool: seq<Message>, boxes: seq<Mailbox>, queues: seq<seq<nat>>, places: map<nat, Place>, n: nat, pid: Pid)
    requires n < MAX_MAILBOXES == |boxes| == |queues| && queues[n] == []
    requires forall b :: 0 <= b < |boxes| ==> (boxes[b].used <==> b < n)
    ensures Meaning(pool, boxes[n := Mailbox(pid, NULL, NULL, 0, true)], n + 1, queues, places) ==
            Opened(Meaning(pool, boxes, n, queues, places), pid)
  {
    hide First, Owners, QueueOf;
    var boxes' := boxes[n := Mailbox(pid, NULL, NULL, 0, true)];
    forall p: Pid
      ensures QueueOf(pool, boxes', queues, p) == QueueOf(pool, boxes, queues, p)
      ensures p in Owners(boxes') <==> p in Owners(boxes) || p == pid
    {
      OpenedFirst(boxes, n, pid, p);
      OpenedQueue(pool, boxes, queues, n, pid, p);
    }
    OpenedQueue(pool, boxes, queues, n, pid, pid);
    var before, after := Meaning(pool, boxes, n, queues, places), Meaning(pool, boxes', n + 1, queues, places);
    MoreQueues(before.queues, after.queues, pid);
  }

  lemma MoreQueues(a: map<Pid, seq<Mail>>, b: map<Pid, seq<Mail>>, pid: Pid)
    requires b.Keys == a.Keys + {pid}
    requires forall p :: p in a ==> b[p] == a[p]
    requires pid !in a ==> b[pid] == []
    ensures pid in a ==> b == a
    ensures pid !in a ==> b == a[pid := []]
  {
    if pid in a {
      assert b == a;
    } else {
      assert b == a[pid := []];
    }
  }

  lemma OpenedQueue(pool: seq<Message>, boxes: seq<Mailbox>, queues: seq<seq<nat>>, n: nat, pid: Pid, p: Pid)
    requires n < |boxes| == |queues| && queues[n] == [] && forall b :: 0 <= b < |boxes| ==> (boxes[b].used <==> b < n)
    ensures QueueOf(pool, boxes[n := Mailbox(pid, NULL, NULL, 0, true)], queues, p) == QueueOf(pool, boxes, queues, p)
    ensures p !in Owners(boxes) ==> QueueOf(pool, boxes, queues, p) == []
  {
    OpenedFirst(boxes, n, pid, p);
    assert Contents(pool, queues[n]) == [];
  }

  /** Of the mailboxes of a process only the lowest is ever not empty. */
  lemma OneMailboxHoldsMail(pool: seq<Message>, boxes: seq<Mailbox>, n: nat, queues: seq<seq<nat>>, places: map<nat, Place>, b: nat, c: nat)
    requires Rep(pool, boxes, n, queues, places) && b < MAX_MAILBOXES && c < MAX_MAILBOXES
    requires boxes[b].owner == boxes[c].owner && boxes[b].used && queues[c] != []
    ensures c <= b && (queues[b] != [] ==> b == c)
  {
    hide Queue, Placed;
    assert First(boxes, boxes[c].owner, MAX_MAILBOXES) == c;
  }

  // ----- sending and receiving

  /** The places after a slot has been queued last in mailbox `b`. */
  lemma EnqueuedPlaces(pool: seq<Message>, queues: seq<seq<nat>>, places: map<nat, Place>, b: nat, s: nat, pool': seq<Message>)
    requires Placed(pool, queues, places) && b < |queues| && s < |pool| && s !in places && |pool'| == |pool|
    requires forall t :: 0 <= t < |pool| ==> (pool'[t].used <==> pool[t].used || t == s)
    ensures Placed(pool', queues[b := queues[b] + [s]], places[s := Place(b, |queues[b]|)])
    ensures |places[s := Place(b, |queues[b]|)]| == |places| + 1
    ensures forall c, k :: 0 <= c < |queues| && 0 <= k < |queues[c]| ==> queues[c][k] != s
  {
  }

  function Shifted(places: map<nat, Place>, b: nat, s: nat): map<nat, Place>
  {
    map t | t in places && t != s ::
      if places[t].box == b && places[t].position > 0 then Place(b, places[t].position - 1) else places[t]
  }

  /** The places after the first slot of mailbox `b` has been taken. */
  lemma DequeuedPlaces(pool: seq<Message>, queues: seq<seq<nat>>, places: map<nat, Place>, b: nat, pool': seq<Message>)
    requires Placed(pool, queues, places) && b < |queues| && queues[b] != [] && |pool'| == |pool|
    requires forall t :: 0 <= t < |pool| ==> (pool'[t].used <==> pool[t].used && t != queues[b][0])
    ensures Placed(pool', queues[b := queues[b][1..]], Shifted(places, b, queues[b][0]))
    ensures |places| > 0 && |Shifted(places, b, queues[b][0])| == |places| - 1
  {
    var s := queues[b][0];
    var queues', places' := queues[b := queues[b][1..]], Shifted(places, b, s);
    assert places[s] == Place(b, 0);
    assert places'.Keys == places.Keys - {s};
    assert forall t :: t in places' <==> 0 <= t < |pool'| && pool'[t].used;
    hide Shifted;
    forall t | t in places'
      ensures places'[t].box < |queues'| && places'[t].position < |queues'[places'[t].box]| && queues'[places'[t].box][places'[t].position] == t
    {
      ShiftedPlace(pool, queues, places, b, t);
    }
    forall c, k | 0 <= c < |queues'| && 0 <= k < |queues'[c]|
      ensures queues'[c][k] in places' && places'[queues'[c][k]] == Place(c, k)
    {
      ShiftedSlot(pool, queues, places, b, c, k);
    }
  }

  lemma ShiftedPlace(pool: seq<Message>, queues: seq<seq<nat>>, places: map<nat, Place>, b: nat, t: nat)
    requires Placed(pool, queues, places) && b < |queues| && queues[b] != [] && t in places && t != queues[b][0]
    ensures var p, queues' := Shifted(places, b, queues[b][0])[t], queues[b := queues[b][1..]];
            p.box < |queues'| && p.position < |queues'[p.box]| && queues'[p.box][p.position] == t
  {
    assert places[t].box == b ==> places[t].position > 0;
  }

  lemma ShiftedSlot(pool: seq<Message>, queues: seq<seq<nat>>, places: map<nat, Place>, b: nat, c: nat, k: nat)
    requires Placed(pool, queues, places) && b < |queues| && queues[b] != []
    requires c < |queues| && k < |queues[b := queues[b][1..]][c]|
    ensures var places', t := Shifted(places, b, queues[b][0]), queues[b := queues[b][1..]][c][k];
            t in places' && places'[t] == Place(c, k)
  {
    assert places[queues[b][0]] == Place(b, 0);
    assert queues[c][if c == b then k + 1 else k] == queues[b := queues[b][1..]][c][k];
  }

  /** Owners decide which mailbox serves a process. */
  lemma {:induction false} FirstByOwner(boxes: seq<Mailbox>, boxes': seq<Mailbox>, pid: Pid, n: nat)
    requires n <= |boxes| == |boxes'|
    requires forall b :: 0 <= b < |boxes| ==> boxes'[b].used == boxes[b].used && boxes'[b].owner == boxes[b].owner
    ensures First(boxes', pid, n) == First(boxes, pid, n)
  {
    if n > 0 {
      FirstByOwner(boxes, boxes', pid, n - 1);
    }
  }

  /** The state after the queue of mailbox `b` has become `q`. */
  ghost predicate QueueChanged(pool: seq<Message>, pool': seq<Message>, boxes: seq<Mailbox>, box: Mailbox,
                               queues: seq<seq<nat>>, n: nat, b: nat, q: seq<nat>)
  {
    && |pool| == |pool'| == MAX_MESSAGES && |boxes| == |queues| == MAX_MAILBOXES && b < MAX_MAILBOXES
    && boxes[b].used && First(boxes, boxes[b].owner, MAX_MAILBOXES) == b
    && box.used && box.owner == boxes[b].owner
    && Queue(pool', box, q)
    && (forall s :: 0 <= s < MAX_MESSAGES ==> GoodMessage(pool'[s]))
    && forall c, k :: 0 <= c < MAX_MAILBOXES && c != b && 0 <= k < |queues[c]| && queues[c][k] < |pool| ==>
         pool'[queues[c][k]] == pool[queues[c][k]]
  }

  lemma ChangedRep(pool: seq<Message>, pool': seq<Message>, boxes: seq<Mailbox>, box: Mailbox,
                   queues: seq<seq<nat>>, places: map<nat, Place>, places': map<nat, Place>, n: nat, b: nat, q: seq<nat>)
    requires Rep(pool, boxes, n, queues, places)
    requires QueueChanged(pool, pool', boxes, box, queues, n, b, q)
    requires Placed(pool', queues[b := q], places')
    ensures Rep(pool', boxes[b := box], n, queues[b := q], places')
  {
    hide First, Queue, Placed, GoodMessage;
    var boxes', queues' := boxes[b := box], queues[b := q];
    forall c | 0 <= c < MAX_MAILBOXES
      ensures Queue(pool', boxes'[c], queues'[c])
      ensures queues'[c] != [] ==> boxes'[c].used && First(boxes', boxes'[c].owner, MAX_MAILBOXES) == c
    {
      FirstByOwner(boxes, boxes', boxes'[c].owner, MAX_MAILBOXES);
      if c != b {
        OtherQueue(pool, pool', boxes[c], queues[c]);
      }
    }
  }

  /** Only the process that owns the mailbox sees a change. */
  lemma ChangedMeaning(pool: seq<Message>, pool': seq<Message>, boxes: seq<Mailbox>, box: Mailbox,
                       queues: seq<seq<nat>>, places: map<nat, Place>, places': map<nat, Place>, n: nat, b: nat, q: seq<nat>)
    requires Rep(pool, boxes, n, queues, places)
    requires QueueChanged(pool, pool', boxes, box, queues, n, b, q)
    ensures var before := Meaning(pool, boxes, n, queues, places);
            && boxes[b].owner in before.queues && before.queues[boxes[b].owner] == Contents(pool, queues[b])
            && Meaning(pool', boxes[b := box], n, queues[b := q], places') ==
               Post(before.queues[boxes[b].owner := Contents(pool', q)], |places'|, n)
  {
    hide First, Queue, Placed, GoodMessage, Contents, Owners, LinkAt, Rep;
    RepFacts(pool, boxes, n, queues, places);
    var boxes', queues', pid := boxes[b := box], queues[b := q], boxes[b].owner;
    OwnersHave(boxes, pid);
    forall p: Pid
      ensures p in Owners(boxes') <==> p in Owners(boxes)
      ensures p in Owners(boxes) && p != pid ==> QueueOf(pool', boxes', queues', p) == QueueOf(pool, boxes, queues, p)
      ensures p == pid ==> QueueOf(pool', boxes', queues', p) == Contents(pool', q)
    {
      FirstByOwner(boxes, boxes', p, MAX_MAILBOXES);
      OwnersHave(boxes, p);
      OwnersHave(boxes', p);
      var c := First(boxes, p, MAX_MAILBOXES);
      if c < MAX_MAILBOXES && c != b {
        QueueFacts(pool, boxes, n, queues, places, c);
        OtherQueue(pool, pool', boxes[c], queues[c]);
      }
      FirstHasOwner(boxes, p);
    }
    var before, after := Meaning(pool, boxes, n, queues, places), Meaning(pool', boxes', n, queues', places');
    assert after.queues == before.queues[pid := Contents(pool', q)];
  }

  lemma FirstHasOwner(boxes: seq<Mailbox>, pid: Pid)
    ensures First(boxes, pid, |boxes|) < |boxes| ==> boxes[First(boxes, pid, |boxes|)].owner == pid
  {
  }

  lemma RepFacts(pool: seq<Message>, boxes: seq<Mailbox>, n: nat, queues: seq<seq<nat>>, places: map<nat, Place>)
    requires Rep(pool, boxes, n, queues, places)
    ensures |pool| == MAX_MESSAGES && |boxes| == |queues| == MAX_MAILBOXES
    ensures forall s :: 0 <= s < MAX_MESSAGES ==> GoodMessage(pool[s])
    ensures |places| <= MAX_MESSAGES
  {
    BelowSize(MAX_MESSAGES);
    SubsetSize(places.Keys, Below(MAX_MESSAGES));
  }

  lemma DestFacts(pool: seq<Message>, boxes: seq<Mailbox>, n: nat, queues: seq<seq<nat>>, places: map<nat, Place>, dest: Pid)
    requires |boxes| == |queues|
    ensures var p := Meaning(pool, boxes, n, queues, places);
            && p.inFlight == |places|
            && (dest in p.queues <==> First(boxes, dest, |boxes|) < |boxes|)
  {
    OwnersHave(boxes, dest);
  }

  lemma FreshSlot(pool: seq<Message>, boxes: seq<Mailbox>, n: nat, queues: seq<seq<nat>>, places: map<nat, Place>, slot: nat)
    requires Rep(pool, boxes, n, queues, places) && slot < |pool| && !pool[slot].used
    ensures slot !in places
    ensures forall c, k :: 0 <= c < |queues| && 0 <= k < |queues[c]| ==> queues[c][k] != slot
  {
  }

  /** The pool after `slot`, holding `m`, has been linked in behind queue `q`. */
  function Linked(pool: seq<Message>, q: seq<nat>, slot: nat, m: Message): seq<Message>
    requires slot < |pool|
  {
    var pool1 := pool[slot := m];
    if q != [] && q[|q| - 1] < |pool| then pool1[q[|q| - 1] := pool1[q[|q| - 1]].(next := slot)] else pool1
  }

  lemma TailFacts(pool: seq<Message>, boxes: seq<Mailbox>, n: nat, queues: seq<seq<nat>>, places: map<nat, Place>, b: nat, slot: nat)
    requires Rep(pool, boxes, n, queues, places) && b < |boxes| && slot < |pool| && !pool[slot].used
    ensures boxes[b].tail == (if queues[b] == [] then NULL else queues[b][|queues[b]| - 1])
    ensures queues[b] != [] ==> queues[b][|queues[b]| - 1] < |pool| && queues[b][|queues[b]| - 1] != slot
  {
    assert Queue(pool, boxes[b], queues[b]);
    assert queues[b] != [] ==> LinkAt(pool, queues[b], |queues[b]| - 1);
  }

  /** The slots of a queue are used and all different, and no other queue has one of them. */
  lemma QueueFacts(pool: seq<Message>, boxes: seq<Mailbox>, n: nat, queues: seq<seq<nat>>, places: map<nat, Place>, b: nat)
    requires Rep(pool, boxes, n, queues, places) && b < MAX_MAILBOXES
    ensures |boxes| == |queues| == MAX_MAILBOXES && |pool| == MAX_MESSAGES
    ensures Queue(pool, boxes[b], queues[b]) && Placed(pool, queues, places)
    ensures forall j, k :: 0 <= j < k < |queues[b]| ==> queues[b][j] != queues[b][k]
    ensures forall c, j, k :: 0 <= c < MAX_MAILBOXES && c != b && 0 <= j < |queues[b]| && 0 <= k < |queues[c]| ==> queues[b][j] != queues[c][k]
    ensures forall j :: 0 <= j < |queues[b]| ==> queues[b][j] < MAX_MESSAGES
    ensures forall s :: 0 <= s < MAX_MESSAGES ==> GoodMessage(pool[s])
  {
    hide First, Queue;
    SlotsApart(pool, queues, places, b);
  }

  lemma EnqueuedChange(pool: seq<Message>, boxes: seq<Mailbox>, n: nat, queues: seq<seq<nat>>, places: map<nat, Place>,
                       b: nat, slot: nat, m: Message)
    requires Rep(pool, boxes, n, queues, places) && b < MAX_MAILBOXES && slot < MAX_MESSAGES && !pool[slot].used
    requires boxes[b].used && First(boxes, boxes[b].owner, MAX_MAILBOXES) == b
    requires GoodMessage(m) && m.used && m.next == NULL
    ensures QueueChanged(pool, Linked(pool, queues[b], slot, m), boxes, Behind(boxes[b], slot), queues, n, b, queues[b] + [slot])
  {
    hide First, Placed, Rep, LinkAt, Queue;
    QueueFacts(pool, boxes, n, queues, places, b);
    FreshSlot(pool, boxes, n, queues, places, slot);
    TailFacts(pool, boxes, n, queues, places, b, slot);
    EnqueueQueue(pool, boxes[b], queues[b], slot, m);
    var box, box' := boxes[b], Behind(boxes[b], slot);
    assert box' == box.(head := if queues[b] == [] then slot else box.head, tail := slot, count := box.count + 1);
  }

  lemma EnqueuedBelow(pool: seq<Message>, boxes: seq<Mailbox>, n: nat, queues: seq<seq<nat>>, places: map<nat, Place>,
                      b: nat, slot: nat, m: Message)
    requires Rep(pool, boxes, n, queues, places) && b < MAX_MAILBOXES && slot < MAX_MESSAGES && !pool[slot].used && m.used
    ensures Placed(Linked(pool, queues[b], slot, m), queues[b := queues[b] + [slot]], places[slot := Place(b, |queues[b]|)])
    ensures |places| < MAX_MESSAGES && |places[slot := Place(b, |queues[b]|)]| == |places| + 1
  {
    hide Rep, Placed, Queue, First, LinkAt;
    QueueFacts(pool, boxes, n, queues, places, b);
    FreshSlot(pool, boxes, n, queues, places, slot);
    SomeUnused(pool, queues, places, slot);
    EnqueuedPlaces(pool, queues, places, b, slot, Linked(pool, queues[b], slot, m));
  }

  lemma EnqueuedContents(pool: seq<Message>, boxes: seq<Mailbox>, n: nat, queues: seq<seq<nat>>, places: map<nat, Place>,
                         b: nat, slot: nat, m: Message)
    requires Rep(pool, boxes, n, queues, places) && b < MAX_MAILBOXES && slot < MAX_MESSAGES && !pool[slot].used
    requires GoodMessage(m)
    ensures Contents(Linked(pool, queues[b], slot, m), queues[b] + [slot]) == Contents(pool, queues[b]) + [MailOf(m)]
  {
    QueueFacts(pool, boxes, n, queues, places, b);
    FreshSlot(pool, boxes, n, queues, places, slot);
    var q, pool' := queues[b], Linked(pool, queues[b], slot, m);
    hide Rep, Placed, Queue, Contents;
    ContentsGrow(pool, pool', q, slot, m);
  }

  /** A message linked in behind the last one of the lowest mailbox of a process is sent to that process. */
  lemma Enqueued(pool: seq<Message>, boxes: seq<Mailbox>, n: nat, queues: seq<seq<nat>>, places: map<nat, Place>,
                 b: nat, slot: nat, m: Message)
    requires Rep(pool, boxes, n, queues, places) && b < MAX_MAILBOXES && slot < MAX_MESSAGES && !pool[slot].used
    requires boxes[b].used && First(boxes, boxes[b].owner, MAX_MAILBOXES) == b
    requires GoodMessage(m) && m.used && m.next == NULL
    ensures var q, places' := queues[b] + [slot], places[slot := Place(b, |queues[b]|)];
            var before, boxes' := Meaning(pool, boxes, n, queues, places), boxes[b := Behind(boxes[b], slot)];
            && Rep(Linked(pool, queues[b], slot, m), boxes', n, queues[b := q], places')
            && CanSend(before, boxes[b].owner)
            && Meaning(Linked(pool, queues[b], slot, m), boxes', n, queues[b := q], places') ==
               Sent(before, boxes[b].owner, MailOf(m))
  {
    RepFacts(pool, boxes, n, queues, places);
    var q, places', pool' := queues[b] + [slot], places[slot := Place(b, |queues[b]|)], Linked(pool, queues[b], slot, m);
    var box' := Behind(boxes[b], slot);
    hide Rep, First, Placed, Linked, QueueChanged, Contents, Behind, MailOf;
    EnqueuedChange(pool, boxes, n, queues, places, b, slot, m);
    EnqueuedBelow(pool, boxes, n, queues, places, b, slot, m);
    EnqueuedContents(pool, boxes, n, queues, places, b, slot, m);
    ChangedRep(pool, pool', boxes, box', queues, places, places', n, b, q);
    ChangedMeaning(pool, pool', boxes, box', queues, places, places', n, b, q);
    DestFacts(pool, boxes, n, queues, places, boxes[b].owner);
    hide Meaning;
  }

  lemma ContentsGrow(pool: seq<Message>, pool': seq<Message>, q: seq<nat>, slot: nat, m: Message)
    requires |pool'| == |pool| && slot < |pool| && pool'[slot] == m && m.length <= |m.data|
    requires forall k :: 0 <= k < |q| && q[k] < |pool| ==>
               pool'[q[k]].sender == pool[q[k]].sender && pool'[q[k]].length == pool[q[k]].length && pool'[q[k]].data == pool[q[k]].data
    ensures Contents(pool', q + [slot]) == Contents(pool, q) + [MailOf(m)]
  {
  }

  lemma UnqueuedQueue(pool: seq<Message>, boxes: seq<Mailbox>, n: nat, queues: seq<seq<nat>>, places: map<nat, Place>,
                      slot: nat, m: Message, c: nat)
    requires Rep(pool, boxes, n, queues, places) && slot < MAX_MESSAGES && !pool[slot].used && c < MAX_MAILBOXES
    ensures Queue(pool[slot := m], boxes[c], queues[c]) && Contents(pool[slot := m], queues[c]) == Contents(pool, queues[c])
  {
    hide First, Queue, Contents;
    FreshSlot(pool, boxes, n, queues, places, slot);
    OtherQueue(pool, pool[slot := m], boxes[c], queues[c]);
  }

  lemma UnqueuedRep(pool: seq<Message>, boxes: seq<Mailbox>, n: nat, queues: seq<seq<nat>>, places: map<nat, Place>, slot: nat, m: Message)
    requires Rep(pool, boxes, n, queues, places) && slot < MAX_MESSAGES && !pool[slot].used && !m.used && GoodMessage(m)
    ensures Rep(pool[slot := m], boxes, n, queues, places)
  {
    hide First, Queue, GoodMessage;
    forall c: nat | c < MAX_MAILBOXES
      ensures Queue(pool[slot := m], boxes[c], queues[c])
    {
      UnqueuedQueue(pool, boxes, n, queues, places, slot, m, c);
    }
  }

  /** A slot outside every queue can hold anything, as long as it is unused. */
  lemma Unqueued(pool: seq<Message>, boxes: seq<Mailbox>, n: nat, queues: seq<seq<nat>>, places: map<nat, Place>, slot: nat, m: Message)
    requires Rep(pool, boxes, n, queues, places) && slot < MAX_MESSAGES && !pool[slot].used && !m.used && GoodMessage(m)
    ensures Rep(pool[slot := m], boxes, n, queues, places)
    ensures Meaning(pool[slot := m], boxes, n, queues, places) == Meaning(pool, boxes, n, queues, places)
  {
    hide First, Queue, Placed, Contents, GoodMessage, Owners, Rep, LinkAt;
    RepFacts(pool, boxes, n, queues, places);
    UnqueuedRep(pool, boxes, n, queues, places, slot, m);
    forall p: Pid
      ensures QueueOf(pool[slot := m], boxes, queues, p) == QueueOf(pool, boxes, queues, p)
    {
      var c := First(boxes, p, |boxes|);
      if c < |boxes| {
        UnqueuedQueue(pool, boxes, n, queues, places, slot, m, c);
      }
    }
    assert Meaning(pool[slot := m], boxes, n, queues, places).queues == Meaning(pool, boxes, n, queues, places).queues;
  }

  // ----- receiving

  lemma HeadFacts(pool: seq<Message>, boxes: seq<Mailbox>, n: nat, queues: seq<seq<nat>>, places: map<nat, Place>, b: nat)
    requires Rep(pool, boxes, n, queues, places) && b < MAX_MAILBOXES
    ensures boxes[b].head == (if queues[b] == [] then NULL else queues[b][0]) && boxes[b].count == |queues[b]|
    ensures queues[b] != [] ==>
              var s := queues[b][0];
              && s < MAX_MESSAGES && pool[s].used && pool[s].length <= MAX_SIZE == |pool[s].data|
              && boxes[b].used && First(boxes, boxes[b].owner, MAX_MAILBOXES) == b
  {
    assert Queue(pool, boxes[b], queues[b]);
    assert queues[b] != [] ==> LinkAt(pool, queues[b], 0);
    hide First, Placed;
  }

  lemma DequeuedChange(pool: seq<Message>, boxes: seq<Mailbox>, n: nat, queues: seq<seq<nat>>, places: map<nat, Place>, b: nat)
    requires Rep(pool, boxes, n, queues, places) && b < MAX_MAILBOXES && queues[b] != []
    ensures var s := queues[b][0];
            && s < |pool| && boxes[b].count > 0
            && QueueChanged(pool, pool[s := Freed(pool[s])], boxes, Ahead(boxes[b], pool[s].next), queues, n, b, queues[b][1..])
  {
    hide First, Placed, Rep, LinkAt, Queue;
    HeadFacts(pool, boxes, n, queues, places, b);
    QueueFacts(pool, boxes, n, queues, places, b);
    DequeueQueue(pool, boxes[b], queues[b], Freed(pool[queues[b][0]]));
  }

  lemma DequeuedBelow(pool: seq<Message>, boxes: seq<Mailbox>, n: nat, queues: seq<seq<nat>>, places: map<nat, Place>, b: nat)
    requires Rep(pool, boxes, n, queues, places) && b < MAX_MAILBOXES && queues[b] != [] && queues[b][0] < MAX_MESSAGES
    ensures Placed(pool[queues[b][0] := Freed(pool[queues[b][0]])], queues[b := queues[b][1..]], Shifted(places, b, queues[b][0]))
    ensures |places| > 0 && |Shifted(places, b, queues[b][0])| == |places| - 1
  {
    QueueFacts(pool, boxes, n, queues, places, b);
    var pool' := pool[queues[b][0] := Freed(pool[queues[b][0]])];
    assert forall t :: 0 <= t < |pool| ==> (pool'[t].used <==> pool[t].used && t != queues[b][0]);
    hide *;
    DequeuedPlaces(pool, queues, places, b, pool');
  }

  lemma DequeuedContents(pool: seq<Message>, boxes: seq<Mailbox>, n: nat, queues: seq<seq<nat>>, places: map<nat, Place>, b: nat)
    requires Rep(pool, boxes, n, queues, places) && b < MAX_MAILBOXES && queues[b] != [] && queues[b][0] < MAX_MESSAGES
    ensures pool[queues[b][0]].length <= |pool[queues[b][0]].data|
    ensures Contents(pool, queues[b]) ==
            [MailOf(pool[queues[b][0]])] + Contents(pool[queues[b][0] := Freed(pool[queues[b][0]])], queues[b][1..])
  {
    QueueFacts(pool, boxes, n, queues, places, b);
    var q, s := queues[b], queues[b][0];
    var pool' := pool[s := Freed(pool[s])];
    hide Rep, Placed, Queue;
    assert forall k :: 1 <= k < |q| ==> pool'[q[k]] == pool[q[k]];
    assert Contents(pool, q) == [MailOf(pool[s])] + Contents(pool', q[1..]);
  }

  /** Unlinking the first message of a mailbox delivers the message at the head of its owner's queue. */
  lemma Dequeued(pool: seq<Message>, boxes: seq<Mailbox>, n: nat, queues: seq<seq<nat>>, places: map<nat, Place>, b: nat)
    requires Rep(pool, boxes, n, queues, places) && b < MAX_MAILBOXES && queues[b] != []
    ensures var s, pid := queues[b][0], boxes[b].owner;
            && s < |pool| && boxes[b].count > 0 && pool[s].length <= |pool[s].data|
            && var pool', boxes', queues', places' :=
                 pool[s := Freed(pool[s])], boxes[b := Ahead(boxes[b], pool[s].next)], queues[b := queues[b][1..]], Shifted(places, b, s);
            var before := Meaning(pool, boxes, n, queues, places);
            && Rep(pool', boxes', n, queues', places')
            && CanReceive(before, pid) && before.queues[pid][0] == MailOf(pool[s])
            && Meaning(pool', boxes', n, queues', places') == Received(before, pid)
  {
    HeadFacts(pool, boxes, n, queues, places, b);
    RepFacts(pool, boxes, n, queues, places);
    var s := queues[b][0];
    var pool', box', q, places' := pool[s := Freed(pool[s])], Ahead(boxes[b], pool[s].next), queues[b][1..], Shifted(places, b, s);
    hide Rep, First, Placed, QueueChanged, Contents, Ahead, Freed, MailOf, Shifted;
    DequeuedChange(pool, boxes, n, queues, places, b);
    DequeuedBelow(pool, boxes, n, queues, places, b);
    DequeuedContents(pool, boxes, n, queues, places, b);
    ChangedRep(pool, pool', boxes, box', queues, places, places', n, b, q);
    ChangedMeaning(pool, pool', boxes, box', queues, places, places', n, b, q);
    var before := Meaning(pool, boxes, n, queues, places);
    assert before.inFlight == |places|;
    hide Meaning;
    assert before.queues[boxes[b].owner][1..] == Contents(pool', q);
  }

  /** A process has something to receive exactly when one of its mailboxes is not empty. */
  lemma NothingQueued(pool: seq<Message>, boxes: seq<Mailbox>, n: nat, queues: seq<seq<nat>>, places: map<nat, Place>, pid: Pid)
    requires Rep(pool, boxes, n, queues, places)
    requires forall b :: 0 <= b < MAX_MAILBOXES && boxes[b].used && boxes[b].owner == pid ==> queues[b] == []
    ensures !CanReceive(Meaning(pool, boxes, n, queues, places), pid)
  {
    RepFacts(pool, boxes, n, queues, places);
    OwnersHave(boxes, pid);
    hide Rep, Owners, Contents;
  }
}
