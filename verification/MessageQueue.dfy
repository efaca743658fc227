/** The message queues of src/kernel/ipc/msg.c. */
module MessageQueue {
  import opened ChunkList

  type Message = seq<bv8>

  // ---------------------------------------------------------------- one queue

  /** A message block: the pointer to the next one, the size, and the bytes. */
  class Block {
    var next: Block?
    const data: Message

    constructor (bytes: Message)
      ensures next == null && data == bytes
    {
      next, data := null, bytes;
    }
  }

  class Queue {
    var id: int
    var first: Block?
    ghost var blocks: seq<Block>
    /** The messages that wait, oldest first. */
    ghost var messages: seq<Message>

    constructor ()
      ensures Valid() && blocks == [] && messages == []
    {
      id, first, blocks, messages := 0, null, [], [];
    }

    ghost predicate Valid()
      reads this, blocks
    {
      && first == BlockAt(0) && |messages| == |blocks|
      && (forall k {:trigger blocks[k]} :: 0 <= k < |blocks| ==>
        blocks[k].next == BlockAt(k + 1) && blocks[k].data == messages[k])
      && (forall j, k :: 0 <= j < k < |blocks| ==> blocks[j] != blocks[k])
    }

    ghost function BlockAt(k: nat): Block?
      reads this
    {
      if k < |blocks| then blocks[k] else null
    }

    /** The part of msgsnd that runs on the queue it found: a new block behind the last. */
    method Send(bytes: Message) returns (ghost added: Block)
      requires Valid()
      modifies this`first, this`blocks, this`messages, blocks
      ensures Valid() && messages == old(messages) + [bytes]
      ensures fresh(added) && blocks == old(blocks) + [added]
    {
      var block := new Block(bytes);
      var cur := first;
      if cur == null {
        first := block;
      } else {
        ghost var k := 0;
        while cur.next != null
          invariant Valid() && k < |blocks| && cur == blocks[k] && block !in blocks
          decreases |blocks| - k
        {
          cur := cur.next;
          k := k + 1;
        }
        assert k == |blocks| - 1;
        cur.next := block;
      }
      blocks, messages := blocks + [block], messages + [bytes];
      added := block;
    }

    /** The part of msgrcv that runs on the queue it found. */
    method Receive(size: nat) returns (ok: bool, bytes: Message)
      requires Valid()
      modifies this`first, this`blocks, this`messages
      ensures Valid()
      ensures ok <==> old(messages) != [] && |old(messages[0])| == size
      ensures ok ==> bytes == old(messages[0]) && messages == old(messages[1..]) && blocks == old(blocks[1..])
      ensures !ok ==> messages == old(messages) && blocks == old(blocks)
    {
      if first == null || size != |first.data| {
        return false, [];
      }
      ok, bytes := true, first.data;
      ghost var was := blocks;
      first := first.next;
      blocks, messages := blocks[1..], messages[1..];
      assert forall k {:trigger blocks[k]} :: 0 <= k < |blocks| ==> blocks[k] == was[k + 1];
    }
  }

  // ---------------------------------------------------------------- all queues, on values

  type Queues = seq<seq<Message>>

  datatype Step =
    | Get
    | Snd(queue: int, bytes: Message)
    | Rcv(queue: int, size: nat)

  predicate Exists(qs: Queues, queue: int) {
    0 <= queue < |qs|
  }

  /** A receive is served: the queue exists and its oldest message has that size. */
  predicate Served(qs: Queues, queue: int, size: nat) {
    Exists(qs, queue) && qs[queue] != [] && |qs[queue][0]| == size
  }

  function Next(qs: Queues, step: Step): Queues {
    match step
    case Get => qs + [[]]
    case Snd(queue, bytes) => if Exists(qs, queue) then qs[queue := qs[queue] + [bytes]] else qs
    case Rcv(queue, size) => if Served(qs, queue, size) then qs[queue := qs[queue][1..]] else qs
  }

  // ---------------------------------------------------------------- all queues, in memory

  class MessageQueues {
    /** msqid_list, and the queues its entries stand for: entry k + 1 is queues[k]. */
    var msqidList: Chunks
    var queues: seq<Queue>
    ghost var value: Queues
    /** The blocks of all queues. */
    ghost var blocks: set<Block>

    constructor ()
      ensures Valid() && value == []
    {
      msqidList, queues, value, blocks := [Zeros(ENTRIES)], [], [], {};
      new;
      NoneAdded(ENTRIES);
    }

    ghost predicate ValidAt(k: nat)
      requires k < |queues| == |value|
      reads this, queues, blocks
    {
      QueueIs(k, value[k])
    }

    ghost predicate QueueIs(k: nat, messages: seq<Message>)
      requires k < |queues|
      reads this, queues, blocks
    {
      && Owns(queues[k]) && queues[k].Valid()
      && queues[k].id == k && queues[k].messages == messages
    }

    ghost predicate Owns(q: Queue)
      reads this, q
    {
      forall b {:trigger b in blocks} :: b in q.blocks ==> b in blocks
    }

    static ghost predicate Apart(p: Queue, q: Queue)
      reads p, q
    {
      p != q && forall b :: b in p.blocks ==> b !in q.blocks
    }

    ghost predicate Valid()
      reads this, queues, blocks
    {
      && |queues| == |value| && OnlyAdded(msqidList, |queues|, ENTRIES)
      && (forall k {:trigger ValidAt(k)} :: 0 <= k < |queues| ==> ValidAt(k))
      && (forall j, k {:trigger Apart(queues[j], queues[k])} :: 0 <= j < k < |queues| ==> Apart(queues[j], queues[k]))
    }

    /** msgget: the id is the position of the new queue in the list. */
    method Msgget() returns (id: nat)
      requires Valid()
      modifies this
      ensures Valid() && value == Next(old(value), Get)
      ensures id == |old(value)|
    {
      hide OnlyAdded, IndexOf, Added, WellFormed;
      var queue := new Queue();
      OneMoreAdded(msqidList, |queues|, ENTRIES);
      queues := queues + [queue];
      msqidList := Added(msqidList, |queues|, ENTRIES);
      id := IndexOf(msqidList, |queues|);
      queue.id := id;
      value := value + [[]];
      assert queue.Valid() && Owns(queue);
      assert ValidAt(id);
      forall k | 0 <= k < |queues|
        ensures ValidAt(k)
      {
        if k < id {
          OldQueue(k);
        }
      }
      forall j, k | 0 <= j < k < |queues|
        ensures Apart(queues[j], queues[k])
      {
        assert k < id ==> old(Apart(queues[j], queues[k]));
      }
    }

    twostate lemma OldQueue(k: nat)
      requires old(Valid()) && k < |old(queues)| <= |queues| == |value| && queues[k] == old(queues)[k]
      requires value[k] == old(value)[k] && blocks == old(blocks) && unchanged(queues[k])
      requires forall b :: b in old(blocks) ==> unchanged(b)
      ensures ValidAt(k)
    {
      assert old(ValidAt(k));
      assert forall b :: b in old(queues[k].blocks) ==> b in old(blocks) && unchanged(b);
      Kept(queues[k]);
    }

    /** alist_get_by_entry_s: the first queue with that id. */
    method Find(msqid: int) returns (queue: Queue?)
      requires Valid()
      ensures Valid()
      ensures queue == if 0 <= msqid < |queues| then queues[msqid] else null
    {
      var k := 0;
      while k < |Contents(msqidList)|
        invariant 0 <= k <= |queues| && Valid() && (0 <= msqid < |queues| ==> k <= msqid)
      {
        assert ValidAt(k);
        var cur := queues[Contents(msqidList)[k] - 1];
        if cur.id == msqid {
          return cur;
        }
        k := k + 1;
      }
      return null;
    }

    static twostate lemma Kept(q: Queue)
      requires old(q.Valid()) && unchanged(q) && forall b :: b in old(q.blocks) ==> unchanged(b)
      ensures q.Valid()
    {
      forall k | 0 <= k < |q.blocks|
        ensures q.blocks[k].next == q.BlockAt(k + 1) && q.blocks[k].data == q.messages[k]
      {
        assert q.blocks[k] in old(q.blocks);
        assert old(q.blocks[k].next) == q.BlockAt(k + 1);
      }
    }

    method Msgsnd(msqid: int, bytes: Message) returns (r: int)
      requires Valid()
      modifies this`value, this`blocks, queues, blocks
      ensures Valid() && value == Next(old(value), Snd(msqid, bytes))
      ensures r == if Exists(old(value), msqid) then 0 else -1
    {
      hide OnlyAdded, Queue.Valid;
      var queue := Find(msqid);
      if queue == null {
        return -1;
      }
      assert ValidAt(msqid);
      ghost var added := queue.Send(bytes);
      blocks := blocks + {added};
      assert Owns(queue) by {
        assert old(Owns(queue));
      }
      value := value[msqid := queue.messages];
      forall k | 0 <= k < |queues|
        ensures ValidAt(k)
      {
        if k != msqid {
          assert old(ValidAt(k));
          assert k < msqid ==> old(Apart(queues[k], queues[msqid]));
          assert msqid < k ==> old(Apart(queues[msqid], queues[k]));
          Kept(queues[k]);
        }
      }
      forall j, k | 0 <= j < k < |queues|
        ensures Apart(queues[j], queues[k])
      {
        assert old(ValidAt(j)) && old(ValidAt(k)) && old(Apart(queues[j], queues[k]));
      }
      return 0;
    }

    method Msgrcv(msqid: int, size: nat) returns (ok: bool, bytes: Message)
      requires Valid()
      modifies this`value, queues
      ensures Valid() && value == Next(old(value), Rcv(msqid, size))
      ensures ok <==> Served(old(value), msqid, size)
      ensures ok ==> bytes == old(value)[msqid][0]
    {
      hide OnlyAdded, Queue.Valid;
      var queue := Find(msqid);
      if queue == null {
        return false, [];
      }
      assert ValidAt(msqid);
      ok, bytes := queue.Receive(size);
      value := value[msqid := queue.messages];
      forall k | 0 <= k < |queues|
        ensures ValidAt(k)
      {
        assert old(ValidAt(k));
        assert k < msqid ==> old(Apart(queues[k], queues[msqid]));
        assert msqid < k ==> old(Apart(queues[msqid], queues[k]));
      }
      forall j, k | 0 <= j < k < |queues|
        ensures Apart(queues[j], queues[k])
      {
        assert old(Apart(queues[j], queues[k]));
      }
    }
  }

  // ---------------------------------------------------------------- whole runs

  function Run(qs: Queues, steps: seq<Step>): Queues
    decreases |steps|
  {
    if steps == [] then qs else Run(Next(qs, steps[0]), steps[1..])
  }

  /** What one step sends to queue `q`, and what it receives from it. */
  function Sends(qs: Queues, step: Step, q: nat): seq<Message> {
    if step.Snd? && step.queue == q && Exists(qs, q) then [step.bytes] else []
  }

  function Receives(qs: Queues, step: Step, q: nat): seq<Message> {
    if step.Rcv? && step.queue == q && Served(qs, q, step.size) then [qs[q][0]] else []
  }

  function SentTo(qs: Queues, steps: seq<Step>, q: nat): seq<Message>
    decreases |steps|
  {
    if steps == [] then [] else Sends(qs, steps[0], q) + SentTo(Next(qs, steps[0]), steps[1..], q)
  }

  function ReceivedFrom(qs: Queues, steps: seq<Step>, q: nat): seq<Message>
    decreases |steps|
  {
    if steps == [] then [] else Receives(qs, steps[0], q) + ReceivedFrom(Next(qs, steps[0]), steps[1..], q)
  }

  function Waiting(qs: Queues, q: nat): seq<Message> {
    if q < |qs| then qs[q] else []
  }

  lemma StepConserves(qs: Queues, step: Step, q: nat)
    ensures Waiting(qs, q) + Sends(qs, step, q) == Receives(qs, step, q) + Waiting(Next(qs, step), q)
  {
  }

  /** In every run, what a queue held and what is sent to it comes out in that order: received
      so far, then still waiting. No message is lost, doubled, reordered or changed. */
  lemma {:induction false} FirstInFirstOut(qs: Queues, steps: seq<Step>, q: nat)
    ensures Waiting(qs, q) + SentTo(qs, steps, q) == ReceivedFrom(qs, steps, q) + Waiting(Run(qs, steps), q)
    decreases |steps|
  {
    if steps != [] {
      var next := Next(qs, steps[0]);
      StepConserves(qs, steps[0], q);
      FirstInFirstOut(next, steps[1..], q);
      Join(Waiting(qs, q), Sends(qs, steps[0], q), Receives(qs, steps[0], q), Waiting(next, q),
           SentTo(next, steps[1..], q), ReceivedFrom(next, steps[1..], q), Waiting(Run(next, steps[1..]), q));
    }
  }

  lemma Join(w: seq<Message>, s: seq<Message>, r: seq<Message>, w1: seq<Message>,
             s1: seq<Message>, r1: seq<Message>, w2: seq<Message>)
    requires w + s == r + w1 && w1 + s1 == r1 + w2
    ensures w + (s + s1) == (r + r1) + w2
  {
    assert w + (s + s1) == (w + s) + s1;
    assert (r + w1) + s1 == r + (w1 + s1);
    assert r + (r1 + w2) == (r + r1) + w2;
  }

  /** From the empty state a receiver sees a prefix of what was sent. */
  lemma ReceivedIsPrefix(steps: seq<Step>, q: nat)
    ensures ReceivedFrom([], steps, q) <= SentTo([], steps, q)
  {
    FirstInFirstOut([], steps, q);
    assert Waiting([], q) + SentTo([], steps, q) == SentTo([], steps, q);
  }

  /** The ids that the msgget calls of a run return. */
  function Ids(qs: Queues, steps: seq<Step>): seq<nat>
    decreases |steps|
  {
    if steps == [] then []
    else (if steps[0].Get? then [|qs|] else []) + Ids(Next(qs, steps[0]), steps[1..])
  }

  /** No id is given out twice, and each names a queue of its own from then on. */
  lemma {:induction false} IdsDistinctAndStable(qs: Queues, steps: seq<Step>)
    ensures forall i, j :: 0 <= i < j < |Ids(qs, steps)| ==> Ids(qs, steps)[i] < Ids(qs, steps)[j]
    ensures forall i :: 0 <= i < |Ids(qs, steps)| ==> |qs| <= Ids(qs, steps)[i] < |Run(qs, steps)|
    ensures |Run(qs, steps)| == |qs| + |Ids(qs, steps)|
    decreases |steps|
  {
    if steps != [] {
      IdsDistinctAndStable(Next(qs, steps[0]), steps[1..]);
    }
  }
}
