/** The first-come-first-serve scheduler: its work queue over a task graph. */
module Scheduler {
  import opened Types

  /** Successors are listed in iteration order; `types` holds each task's "type" metadata. */
  datatype TaskGraph = TaskGraph(
    types: map<string, Option<string>>, children: map<string, seq<string>>, starts: seq<string>)

  predicate Unique<T(==)>(s: seq<T>) {
    forall a, b :: 0 <= a < b < |s| ==> s[a] != s[b]
  }

  function Children(g: TaskGraph, key: string): seq<string> {
    if key in g.children then g.children[key] else []
  }

  /** Start nodes and successor lists come from maps, so they hold each key once; every node is a
      key of the successor map. */
  ghost predicate WellFormed(g: TaskGraph) {
    && Unique(g.starts) && (forall s :: s in g.starts ==> s in g.children)
    && (forall k :: k in g.children ==> Unique(g.children[k]))
    && (forall k, c :: k in g.children && c in g.children[k] ==> c in g.children)
  }

  function NodeOf(g: TaskGraph, key: string): Node {
    Node(key, if key in g.types then g.types[key] else None)
  }

  function Without(keys: seq<string>, lookup: set<string>): seq<string> {
    if keys == [] then []
    else
      var k := |keys| - 1;
      Without(keys[..k], lookup) + (if keys[k] in lookup then [] else [keys[k]])
  }

  /** What a task's completion adds to the queue: its successors that are not start nodes. */
  function Fresh(g: TaskGraph, key: string): seq<string> {
    Without(Children(g, key), set s | s in g.starts)
  }

  function Next(g: TaskGraph, queue: seq<string>): seq<string>
    requires queue != []
  {
    queue[1..] + Fresh(g, queue[0])
  }

  /** The front task, if any, and the queue once it was taken. */
  function Front(g: TaskGraph, queue: seq<string>): Option<Node> {
    if queue == [] then None else Some(NodeOf(g, queue[0]))
  }

  function Dispatched(g: TaskGraph, queue: seq<string>): seq<string> {
    if queue == [] then [] else Next(g, queue)
  }

  /** The source's scheduler object. */
  class FcfsScheduler {
    const graph: TaskGraph
    var taskQueue: seq<string>
    var lookup: set<string>

    ghost predicate Valid()
      reads this
    {
      lookup == set s | s in graph.starts
    }

    constructor (graph: TaskGraph)
      ensures Valid() && this.graph == graph && taskQueue == graph.starts
    {
      this.graph := graph;
      taskQueue := [];
      lookup := {};
      new;
      Initialize();
    }

    /** Puts all the start nodes into the queue. */
    method Initialize()
      modifies this
      ensures taskQueue == old(taskQueue) + graph.starts
      ensures lookup == old(lookup) + set s | s in graph.starts
    {
      for k := 0 to |graph.starts|
        invariant taskQueue == old(taskQueue) + graph.starts[..k]
        invariant lookup == old(lookup) + set s | s in graph.starts[..k]
      {
        assert graph.starts[..k + 1] == graph.starts[..k] + [graph.starts[k]];
        taskQueue := taskQueue + [graph.starts[k]];
        lookup := lookup + {graph.starts[k]};
      }
      assert graph.starts[..|graph.starts|] == graph.starts;
    }

    method GetCurrentTask() returns (task: Node)
      requires taskQueue != []
      ensures task == NodeOf(graph, taskQueue[0])
    {
      task := NodeOf(graph, taskQueue[0]);
    }

    method PrepareNextTask()
      requires Valid() && taskQueue != []
      modifies this`taskQueue
      ensures Valid() && taskQueue == Next(graph, old(taskQueue))
    {
      var children := Children(graph, taskQueue[0]);
      for k := 0 to |children|
        invariant taskQueue == old(taskQueue) + Without(children[..k], lookup)
      {
        assert children[..k + 1][..k] == children[..k];
        if children[k] !in lookup {
          taskQueue := taskQueue + [children[k]];
        }
      }
      assert children[..|children|] == children;
      RemoveCurrentTask();
    }

    method RemoveCurrentTask()
      requires taskQueue != []
      modifies this`taskQueue
      ensures taskQueue == old(taskQueue)[1..]
    {
      taskQueue := taskQueue[1..];
    }
  }
}
