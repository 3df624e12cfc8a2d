/** The input manager: a linked queue with head and tail pointers, cut in place. It does what the
    functions of module Inputs say. */
module InputQueue {
  import opened Inputs

  /** The inputs of q before index i let x pass. */
  ghost predicate LetsPass(q: seq<Input>, x: Input, i: nat)
  {
    forall j :: 0 <= j < i && j < |q| ==> q[j].filetime <= x.filetime && !Same(q[j], x) && !Overtakes(x, q[j])
  }

  lemma {:induction false} PushSkips(q: seq<Input>, x: Input, i: nat)
    requires i <= |q| && LetsPass(q, x, i)
    ensures Push(q, x) == (q[..i] + Push(q[i..], x).0, Push(q[i..], x).1)
  {
    if i == 0 {
      assert q[0..] == q && q[..0] + Push(q, x).0 == Push(q, x).0;
    } else {
      assert LetsPass(q[1..], x, i - 1);
      PushSkips(q[1..], x, i - 1);
      assert q[1..][i - 1..] == q[i..];
      HeadInFront(q, i, Push(q[i..], x).0);
    }
  }

  lemma HeadInFront(q: seq<Input>, i: nat, rest: seq<Input>)
    requires 0 < i <= |q|
    ensures q[..i] + rest == [q[0]] + (q[1..][..i - 1] + rest)
  {
  }

  /** The scan stopped at a duplicate of x, at the place where x goes, or at the end. */
  ghost predicate StopsAtIndex(q: seq<Input>, x: Input, i: nat, duplicate: bool)
  {
    && i <= |q| && LetsPass(q, x, i)
    && (duplicate ==> i < |q| && Same(q[i], x))
    && (!duplicate && i < |q| ==> q[i].filetime > x.filetime || (Overtakes(x, q[i]) && !Same(q[i], x)))
  }

  lemma PushByScan(q: seq<Input>, x: Input, i: nat, duplicate: bool)
    requires StopsAtIndex(q, x, i, duplicate)
    ensures Push(q, x) == if duplicate then (q, false) else (q[..i] + ([x] + q[i..]), true)
  {
    PushSkips(q, x, i);
    assert q[..i] + q[i..] == q;
  }

  lemma {:induction false} TakeSkips(q: seq<Input>, n: nat, end: int, i: nat)
    requires i <= Take(q, n, end)
    ensures Take(q, n, end) == i + Take(q[i..], n + i, Reach(q[..i], end))
  {
    if i > 0 {
      var end' := Later(end, End(q[0]));
      TakeSkips(q[1..], n + 1, end', i - 1);
      assert q[1..][i - 1..] == q[i..] && q[..i][1..] == q[1..][..i - 1];
    }
  }

  lemma {:induction false} ReachStep(q: seq<Input>, end: int, i: nat)
    requires i < |q|
    ensures Reach(q[..i + 1], end) == Later(Reach(q[..i], end), End(q[i]))
  {
    if i > 0 {
      ReachStep(q[1..], Later(end, End(q[0])), i - 1);
      assert q[..i + 1][1..] == q[1..][..i] && q[..i][1..] == q[1..][..i - 1];
    }
  }

  lemma QueueStaysInOrder(q: seq<Input>, x: Input)
    ensures Ordered(q) ==> Ordered(Push(q, x).0) && InOrder(Push(q, x).0)
  {
    if Ordered(q) {
      PushOrdered(q, x);
      OrderedIsInOrder(Push(q, x).0);
    }
  }

  /** bgpstream_input_t. */
  class InputNode {
    const input: Input
    var next: InputNode?

    constructor (input: Input)
      ensures this.input == input && next == null
    {
      this.input, next := input, null;
    }
  }

  /** The nodes of a chain, each pointing to the one after it. */
  ghost predicate Chained(ns: seq<InputNode>)
    reads ns
  {
    && (forall i {:trigger ns[i].next} :: 0 <= i < |ns| ==> ns[i].next == if i + 1 < |ns| then ns[i + 1] else null)
    && (forall i, j :: 0 <= i < j < |ns| ==> ns[i] != ns[j])
  }

  ghost function InputsOf(ns: seq<InputNode>): (q: seq<Input>)
    ensures |q| == |ns| && forall i :: 0 <= i < |q| ==> q[i] == ns[i].input
  {
    seq(|ns|, i requires 0 <= i < |ns| => ns[i].input)
  }

  lemma SplicedInputs(ns: seq<InputNode>, node: InputNode, i: nat)
    requires i <= |ns|
    ensures InputsOf(ns[..i] + [node] + ns[i..]) == InputsOf(ns)[..i] + ([node.input] + InputsOf(ns)[i..])
  {
  }

  ghost function At(ns: seq<InputNode>, i: nat): InputNode?
  {
    if i < |ns| then ns[i] else null
  }

  class InputMgr {
    var head: InputNode?
    var tail: InputNode?
    var lastToProcess: InputNode?
    var empty: bool
    ghost var nodes: seq<InputNode>

    ghost predicate Valid()
      reads this, nodes
    {
      && Chained(nodes)
      && head == At(nodes, 0)
      && tail == (if nodes == [] then null else nodes[|nodes| - 1])
      && (empty <==> nodes == [])
    }

    ghost function Contents(): seq<Input>
      reads this
    {
      InputsOf(nodes)
    }

    constructor ()
      ensures Valid() && Contents() == [] && nodes == []
    {
      head, tail, lastToProcess, empty := null, null, null, true;
      nodes := [];
    }

    /** x becomes the whole queue. */
    method First(x: Input)
      requires Valid() && empty
      modifies this
      ensures Valid() && Contents() == [x] && fresh(nodes)
    {
      var node := new InputNode(x);
      head, tail, empty, nodes := node, node, false, [node];
    }

    /** The new node goes behind all others. */
    method Append(node: InputNode)
      requires Valid() && node !in nodes && node.next == null && nodes != []
      modifies this, nodes, node
      ensures Valid() && nodes == old(nodes) + [node]
    {
      tail.next := node;
      tail := node;
      nodes := nodes + [node];
    }

    /** The new node goes to index i, between previous and current. */
    method Splice(node: InputNode, previous: InputNode?, current: InputNode?, ghost i: nat)
      requires Valid() && node !in nodes && node.next == null && i <= |nodes| && nodes != []
      requires current == At(nodes, i) && previous == nodes[if i == 0 then 0 else i - 1]
      modifies this, nodes, node
      ensures Valid() && nodes == old(nodes)[..i] + [node] + old(nodes)[i..]
      ensures forall k :: 0 <= k < |nodes| ==> nodes[k] == node || nodes[k] in old(nodes)
    {
      if current == null {
        Append(node);
        assert nodes == old(nodes)[..i] + [node] + old(nodes)[i..];
        return;
      }
      if current == previous {
        node.next := head;
        head := node;
      } else {
        node.next := current;
        previous.next := node;
      }
      nodes := nodes[..i] + [node] + nodes[i..];
    }

    method InsertAt(x: Input, previous: InputNode?, current: InputNode?, ghost i: nat)
      requires Valid() && i <= |nodes| && nodes != []
      requires current == At(nodes, i) && previous == nodes[if i == 0 then 0 else i - 1]
      modifies this, nodes
      ensures Valid() && Contents() == old(Contents())[..i] + ([x] + old(Contents())[i..])
      ensures forall k :: 0 <= k < |nodes| ==> nodes[k] in old(nodes) || fresh(nodes[k])
    {
      var node := new InputNode(x);
      Splice(node, previous, current, i);
      SplicedInputs(old(nodes), node, i);
    }

    /** The scan of bgpstream_input_mgr_push_sorted_input: past every input that lets x pass, to a
        duplicate of x or to the place where x goes. */
    method Scan(x: Input) returns (duplicate: bool, previous: InputNode?, current: InputNode?, ghost i: nat)
      requires Valid() && nodes != []
      ensures i <= |nodes| && current == At(nodes, i) && previous == nodes[if i == 0 then 0 else i - 1]
      ensures StopsAtIndex(Contents(), x, i, duplicate)
    {
      duplicate := false;
      current, previous := head, head;
      i := 0;
      while current != null && current.input.filetime <= x.filetime
        invariant i <= |nodes| && current == At(nodes, i) && previous == nodes[if i == 0 then 0 else i - 1]
        invariant LetsPass(Contents(), x, i)
        decreases |nodes| - i
      {
        if Same(current.input, x) {
          duplicate := true;
          return;
        }
        if Overtakes(x, current.input) {
          return;
        }
        assert current.next == At(nodes, i + 1);
        previous, current, i := current, current.next, i + 1;
      }
    }

    /** bgpstream_input_mgr_push_sorted_input. */
    method PushSortedInput(x: Input) returns (added: bool)
      requires Valid()
      modifies this, nodes
      ensures Valid() && (Contents(), added) == Push(old(Contents()), x)
      ensures Ordered(old(Contents())) ==> Ordered(Contents()) && InOrder(Contents())
      ensures forall k :: 0 <= k < |nodes| ==> nodes[k] in old(nodes) || fresh(nodes[k])
    {
      QueueStaysInOrder(Contents(), x);
      if empty {
        First(x);
        assert old(Contents()) == [] && [x] + old(Contents()) == [x];
        return true;
      }
      added := PushAmong(x);
    }

    /** The scan and the splice, when something is queued. */
    method PushAmong(x: Input) returns (added: bool)
      requires Valid() && nodes != []
      modifies this, nodes
      ensures Valid() && (Contents(), added) == Push(old(Contents()), x)
      ensures forall k :: 0 <= k < |nodes| ==> nodes[k] in old(nodes) || fresh(nodes[k])
    {
      var duplicate, previous, current, i := Scan(x);
      PushByScan(Contents(), x, i, duplicate);
      if duplicate {
        return false;
      }
      InsertAt(x, previous, current, i);
      added := true;
    }

    /** The scan of bgpstream_input_mgr_set_last_to_process: the last input the batch takes. */
    method LastOfBatch() returns (last: InputNode?)
      requires Valid()
      ensures var k := BatchLength(Contents()); last == if k == 0 then null else nodes[k - 1]
    {
      last := null;
      var it := head;
      if it == null {
        return;
      }
      ghost var q := Contents();
      var end := End(it.input);
      var readers := 0;
      while it != null && readers < MAX_READERS
        invariant readers <= |nodes| && it == At(nodes, readers)
        invariant last == if readers == 0 then null else nodes[readers - 1]
        invariant readers <= BatchLength(q) && end == Reach(q[..readers], End(q[0]))
        decreases |nodes| - readers
      {
        TakeSkips(q, 0, End(q[0]), readers);
        ReachStep(q, End(q[0]), readers);
        if Start(it.input) >= end {
          return;
        }
        if end < End(it.input) {
          end := End(it.input);
        }
        last := it;
        assert it.next == At(nodes, readers + 1);
        it := it.next;
        readers := readers + 1;
      }
      TakeSkips(q, 0, End(q[0]), readers);
    }

    /** bgpstream_input_mgr_set_last_to_process. */
    method SetLastToProcess() returns (ghost k: nat)
      requires Valid()
      modifies this`lastToProcess
      ensures Valid() && k == BatchLength(Contents()) && k <= |nodes|
      ensures lastToProcess == if k == 0 then null else nodes[k - 1]
    {
      k := BatchLength(Contents());
      lastToProcess := LastOfBatch();
    }

    /** Everything up to lastToProcess leaves the queue. */
    method Cut(ghost k: nat) returns (batch: InputNode?, ghost taken: seq<InputNode>)
      requires Valid() && 0 < k <= |nodes| && lastToProcess == nodes[k - 1]
      modifies this, nodes
      ensures Valid() && lastToProcess == null
      ensures Chained(taken) && batch == At(taken, 0) && |taken| == k && old(nodes) == taken + nodes
    {
      batch := head;
      assert lastToProcess.next == At(nodes, k);
      head := lastToProcess.next;
      lastToProcess.next := null;
      taken, nodes := nodes[..k], nodes[k..];
      lastToProcess := null;
      if head == null {
        tail := null;
        empty := true;
      }
    }

    /** bgpstream_input_mgr_get_queue_to_process: the batch leaves the queue as a chain of its own. */
    method GetQueueToProcess() returns (batch: InputNode?, ghost taken: seq<InputNode>)
      requires Valid()
      modifies this, nodes
      ensures Valid() && Chained(taken) && batch == At(taken, 0)
      ensures old(nodes) == taken + nodes && |taken| == BatchLength(old(Contents()))
    {
      if empty {
        return null, [];
      }
      ghost var k := SetLastToProcess();
      if lastToProcess == null {
        return null, [];
      }
      batch, taken := Cut(k);
    }
  }
}
