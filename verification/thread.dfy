/** The task queue of `app/thread.c`: a singly linked list of tasks with
    `head` and `last` pointers, taken one operation at a time (the mutex
    and condition variable that guard it are not part of this model). */
module TaskQueue {
  import opened Wrappers

  /** `ThreadTask`: a payload pointer (`None` is NULL) and the next node. */
  class Node<T> {
    var payload: Option<T>
    var next: Node?<T>

    /** `malloc` and the two field writes of `add_task`. */
    constructor (payload: Option<T>)
      ensures this.payload == payload && next == null
    {
      this.payload := payload;
      next := null;
    }
  }

  /** `ThreadQueue`. `spine` is the list of nodes reachable from `head`, in
      order, and `contents` their payloads. */
  class Queue<T> {
    var head: Node?<T>
    var last: Node?<T>
    ghost var spine: seq<Node<T>>
    ghost var contents: seq<Option<T>>
    ghost var Repr: set<object>

    /** The shape every operation keeps: `spine` is a NULL-terminated
        chain without repeats that starts at `head`, and `head` and `last`
        are NULL together. */
    ghost predicate Valid()
      reads this, Repr
    {
      && this in Repr
      && (forall i :: 0 <= i < |spine| ==> spine[i] in Repr)
      && (last != null ==> last in Repr)
      && |contents| == |spine|
      && (forall i :: 0 <= i < |spine| ==> spine[i].payload == contents[i])
      && (forall i, j :: 0 <= i < j < |spine| ==> spine[i] != spine[j])
      && (forall i :: 0 <= i < |spine| - 1 ==> spine[i].next == spine[i + 1])
      && (spine == [] ==> head == null && last == null)
      && (spine != [] ==> head == spine[0] && spine[|spine| - 1].next == null && last != null)
    }

    /** `last` points at the end of the chain, so every task added is
        reachable from `head`. */
    ghost predicate Linked()
      reads this, Repr
      requires Valid()
    {
      spine != [] ==> last == spine[|spine| - 1]
    }

    /** `init_queue()`: `head` and `last` are NULL. */
    constructor ()
      ensures Valid() && Linked() && fresh(Repr)
      ensures head == null && last == null && contents == []
    {
      head, last := null, null;
      spine, contents := [], [];
      Repr := {this};
    }

    /** `add_task(queue, task)` as written: the new node becomes `last`, and
        `head` only when the queue was empty; the old last node's `next` is
        never set. On a non-empty queue the new node is therefore unreachable
        from `head`: the contents do not change. */
    method AddTaskAsWritten(task: Option<T>)
      requires Valid()
      modifies this
      ensures Valid() && fresh(Repr - old(Repr))
      ensures last != null && last.payload == task && last.next == null
      ensures old(contents) == [] ==> contents == [task] && Linked()
      ensures old(contents) != [] ==> contents == old(contents) && head == old(head) && last !in spine
    {
      var node := new Node(task);
      last := node;
      Repr := Repr + {node};
      if head == null {
        head := node;
        spine, contents := [node], [task];
      }
    }

    /** `add_task` with the link it is missing, `queue->last->next =
        task_node` on a non-empty queue: the new task joins the end of the
        queue. */
    method AddTask(task: Option<T>)
      requires Valid() && Linked()
      modifies this, last
      ensures Valid() && Linked() && fresh(Repr - old(Repr))
      ensures contents == old(contents) + [task]
    {
      var node := new Node(task);
      if head == null {
        head := node;
      } else {
        last.next := node;
      }
      last := node;
      spine, contents := spine + [node], contents + [task];
      Repr := Repr + {node};
    }

    /** `pop_task(queue)`: NULL on an empty queue, which is left as it is;
        otherwise the head's payload, with `head` advanced to the next
        node and `last` reset once the queue is empty. */
    method PopTask() returns (task: Option<T>)
      requires Valid()
      modifies this
      ensures Valid() && Repr == old(Repr)
      ensures old(contents) == [] ==> task == None && head == old(head) && last == old(last) && contents == []
      ensures old(contents) != [] ==> task == old(contents)[0] && contents == old(contents)[1..]
      ensures old(Linked()) ==> Linked()
    {
      if head == null {
        return None;
      }
      var node := head;
      task := node.payload;
      head := node.next;
      spine, contents := spine[1..], contents[1..];
      if head == null {
        last := null;
      }
    }

    /** `free_queue(queue)`: walks the chain from `head`, sets each non-NULL
        payload to NULL after freeing it, unlinks the node, and leaves
        `head` and `last` NULL. Nodes off the chain (popped ones, or ones
        the `add_task` of the source never linked) are not touched. */
    method FreeQueue()
      requires Valid()
      modifies this, spine
      ensures Valid() && Linked() && Repr == old(Repr)
      ensures head == null && last == null && contents == []
      ensures forall n :: n in old(spine) ==> n.payload == None && n.next == old(n.next)
      ensures forall n: Node<T> :: n in old(Repr) && n !in old(spine) ==> n.payload == old(n.payload) && n.next == old(n.next)
    {
      ghost var nodes := spine;
      ghost var k := 0;
      while head != null
        invariant k <= |nodes| && Repr == old(Repr) && this in Repr
        invariant forall i :: 0 <= i < |nodes| ==> nodes[i] in Repr && nodes[i].next == old(nodes[i].next)
        invariant forall i :: 0 <= i < k ==> nodes[i].payload == None
        invariant forall i, j :: 0 <= i < j < |nodes| ==> nodes[i] != nodes[j]
        invariant forall i :: 0 <= i < |nodes| - 1 ==> nodes[i].next == nodes[i + 1]
        invariant nodes != [] ==> nodes[|nodes| - 1].next == null
        invariant head == if k < |nodes| then nodes[k] else null
        decreases |nodes| - k
      {
        if head.payload != None {
          head.payload := None;
        }
        var curr := head;
        head := curr.next;
        k := k + 1;
      }
      head, last := null, null;
      spine, contents := [], [];
    }
  }

  /** `n` NULL payloads: what `pop_task` returns on an empty queue. */
  function Nulls<T>(n: nat): (r: seq<Option<T>>)
    ensures |r| == n && forall i :: 0 <= i < n ==> r[i] == None
  {
    if n == 0 then [] else Nulls(n - 1) + [None]
  }

  /** The tasks added to a new queue with the `add_task` of the source,
      then as many pops: only the first task comes back, every later one
      is lost and the pops after the first find the queue empty. */
  method AddThenPopAsWritten<T>(tasks: seq<Option<T>>) returns (popped: seq<Option<T>>)
    requires tasks != []
    ensures popped == [tasks[0]] + Nulls(|tasks| - 1)
  {
    var q := new Queue<T>();
    for i := 0 to |tasks|
      invariant q.Valid() && fresh(q.Repr)
      invariant q.contents == tasks[..if i == 0 then 0 else 1]
    {
      q.AddTaskAsWritten(tasks[i]);
    }
    var first := q.PopTask();
    popped := [first];
    for i := 1 to |tasks|
      invariant q.Valid() && fresh(q.Repr) && q.contents == []
      invariant popped == [tasks[0]] + Nulls(i - 1)
    {
      var t := q.PopTask();
      popped := popped + [t];
    }
  }

  /** The same with the linking `add_task`: all tasks come back in the
      order they were added. */
  method AddThenPop<T>(tasks: seq<Option<T>>) returns (popped: seq<Option<T>>)
    ensures popped == tasks
  {
    var q := new Queue<T>();
    for i := 0 to |tasks|
      invariant q.Valid() && q.Linked() && fresh(q.Repr)
      invariant q.contents == tasks[..i]
    {
      q.AddTask(tasks[i]);
    }
    popped := [];
    for i := 0 to |tasks|
      invariant q.Valid() && fresh(q.Repr)
      invariant q.contents == tasks[i..] && popped == tasks[..i]
    {
      var t := q.PopTask();
      popped := popped + [t];
    }
  }
}
