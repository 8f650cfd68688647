/**
 * `ICD11_Client.get_icd11_taxonomy` (src/icd11_client.py): a breadth-first
 * crawl of the taxonomy graph from its root. The remote API is a finite map
 * from node id to node; an id outside the map is a request that failed.
 */
module Crawler {
  import opened Wrappers
  import opened Json
  import opened Paths

  /** The nodes `get_node(id)` returns, by id; `get_node` fails for every other id. */
  type Graph = map<string, Obj>

  /**
   * The crawl's local state: the keys of `has_crawled` in insertion order,
   * the pending child references, the crawled nodes and the success counter.
   */
  datatype CrawlState = CrawlState(visited: seq<string>, queue: seq<Json>, data: seq<Obj>, counter: nat)

  /** The ids in `visited`, as a set. */
  function Seen(visited: seq<string>): set<string> {
    set id | id in visited
  }

  /** No element occurs twice. */
  predicate Distinct(s: seq<string>) {
    forall i, j :: 0 <= i < j < |s| ==> s[i] != s[j]
  }

  /**
   * The queue made from the root's `child` value: a list is used as the
   * queue itself; a falsy value ends the loop at once; a non-empty dict
   * fails at `pop(0)` with KeyError, any other truthy value with AttributeError.
   */
  function RootQueue(child: Json): Result<seq<Json>, PyError> {
    if child.JArr? then Ok(child.items)
    else if !Truthy(child) then Ok([])
    else if child.JObj? then Err(KeyError("0"))
    else Err(AttributeError)
  }

  /** The root's id: the last `/`-segment of its `@id`, when that is a string. */
  function RootId(root: Obj): Option<string> {
    match Lookup(root, "@id")
    case Some(JStr(ref)) => Some(LastSegment(ref))
    case _ => None
  }

  /** The state before the loop: the root crawled under the last segment of its `@id`, its children queued. */
  function Start(root: Obj): (r: Result<CrawlState, PyError>)
    ensures r.Ok? ==> r.value.data == [root] && r.value.counter == 0
    ensures r.Ok? ==> RootId(root).Some? && r.value.visited == [RootId(root).value]
    ensures "@id" !in Keys(root) ==> r == Err(KeyError("@id"))
    ensures "@id" in Keys(root) && !Lookup(root, "@id").value.JStr? ==> r == Err(AttributeError)
    ensures RootId(root).Some? && "child" !in Keys(root) ==> r == Err(KeyError("child"))
    ensures RootId(root).Some? && "child" in Keys(root) ==>
      (r.Ok? <==> Lookup(root, "child").value.JArr? || !Truthy(Lookup(root, "child").value))
    ensures r.Ok? && Lookup(root, "child").value.JArr? ==> r.value.queue == Lookup(root, "child").value.items
    ensures r.Ok? && !Lookup(root, "child").value.JArr? ==> r.value.queue == []
  {
    var ref :- Get(root, "@id");
    if !ref.JStr? then Err(AttributeError)
    else
      var child :- Get(root, "child");
      var queue :- RootQueue(child);
      Ok(CrawlState([LastSegment(ref.s)], queue, [root], 0))
  }

  /** The references `queue.extend(node["child"])` appends; none when the node has no `child`. */
  function ChildrenOf(node: Obj): Result<seq<Json>, PyError> {
    match Lookup(node, "child")
    case None => Ok([])
    case Some(v) => Iterate(v)
  }

  /** Crawling a new id of the graph leaves fewer of the graph's ids to crawl. */
  lemma SeenGrows(graph: Graph, visited: seq<string>, id: string)
    requires id in graph && id !in visited
    ensures Seen(visited + [id]) == Seen(visited) + {id}
    ensures |graph.Keys - Seen(visited + [id])| < |graph.Keys - Seen(visited)|
  {
    assert Seen(visited + [id]) == Seen(visited) + {id};
    assert graph.Keys - Seen(visited + [id]) == (graph.Keys - Seen(visited)) - {id};
  }

  /**
   * One iteration of the `while queue` loop. The front reference is taken
   * off; its id is derived; an id already crawled is dropped without a
   * request; a failed request is dropped; a fetched node is appended to
   * `data`, its children to the back of the queue, and its id to `visited`.
   */
  function Step(graph: Graph, st: CrawlState): Result<CrawlState, PyError>
    requires st.queue != []
  {
    var ref := st.queue[0];
    var rest := st.queue[1..];
    if !ref.JStr? then Err(AttributeError)
    else
      var id :- NodeId(ref.s);
      if id in st.visited || id !in graph then Ok(st.(queue := rest))
      else
        var children :- ChildrenOf(graph[id]);
        Ok(CrawlState(st.visited + [id], rest + children, st.data + [graph[id]], st.counter + 1))
  }

  /**
   * Each iteration takes the front of the queue and keeps the rest in order
   * at the front (so the queue is FIFO), only appends to `data` and
   * `visited`, and either crawls a new id of the graph or shortens the queue.
   */
  lemma StepAdvances(graph: Graph, st: CrawlState)
    requires st.queue != [] && Step(graph, st).Ok?
    ensures var next := Step(graph, st).value;
      && |next.queue| >= |st.queue| - 1 && next.queue[..|st.queue| - 1] == st.queue[1..]
      && |next.data| >= |st.data| && next.data[..|st.data|] == st.data
      && |next.visited| >= |st.visited| && next.visited[..|st.visited|] == st.visited
      && (|| (next.visited == st.visited && |next.queue| < |st.queue|)
          || |graph.Keys - Seen(next.visited)| < |graph.Keys - Seen(st.visited)|)
  {
    var id := NodeId(st.queue[0].s).value;
    if id !in st.visited && id in graph {
      SeenGrows(graph, st.visited, id);
    }
  }

  /** A front reference that is not a string fails at `.split`. */
  lemma StepNotText(graph: Graph, st: CrawlState)
    requires st.queue != [] && !st.queue[0].JStr?
    ensures Step(graph, st) == Err(AttributeError)
  {
  }

  /** A front reference without an id (a bare "other" or "unspecified") makes the crawl fail. */
  lemma StepNoId(graph: Graph, st: CrawlState)
    requires st.queue != [] && st.queue[0].JStr? && NodeId(st.queue[0].s).Err?
    ensures Step(graph, st) == Err(NodeId(st.queue[0].s).error)
  {
  }

  /** A reference to an id already crawled is dropped: no request, nothing else changes. */
  lemma StepSkipsVisited(graph: Graph, st: CrawlState, id: string)
    requires st.queue != [] && st.queue[0].JStr? && NodeId(st.queue[0].s) == Ok(id)
    requires id in st.visited
    ensures Step(graph, st) == Ok(st.(queue := st.queue[1..]))
    ensures Request(st) == None
  {
  }

  /**
   * A failed request is dropped: the id is requested but stays uncrawled,
   * and `data`, `visited` and `counter` are unchanged, so a later reference
   * to the same id is requested again.
   */
  lemma StepFetchFails(graph: Graph, st: CrawlState, id: string)
    requires st.queue != [] && st.queue[0].JStr? && NodeId(st.queue[0].s) == Ok(id)
    requires id !in st.visited && id !in graph
    ensures Step(graph, st) == Ok(st.(queue := st.queue[1..]))
    ensures Request(st) == Some(id)
  {
  }

  /** A fetched node whose `child` value cannot be iterated makes `extend` fail. */
  lemma StepChildrenFail(graph: Graph, st: CrawlState, id: string)
    requires st.queue != [] && st.queue[0].JStr? && NodeId(st.queue[0].s) == Ok(id)
    requires id !in st.visited && id in graph && ChildrenOf(graph[id]).Err?
    ensures Step(graph, st) == Err(ChildrenOf(graph[id]).error)
    ensures Request(st) == Some(id)
  {
  }

  /**
   * A fetched node is appended to `data`, its children to the back of the
   * queue in their order, its id to `visited`, and the counter goes up by one.
   */
  lemma StepFetched(graph: Graph, st: CrawlState, id: string, children: seq<Json>)
    requires st.queue != [] && st.queue[0].JStr? && NodeId(st.queue[0].s) == Ok(id)
    requires id !in st.visited && id in graph && ChildrenOf(graph[id]) == Ok(children)
    ensures Step(graph, st) == Ok(CrawlState(st.visited + [id], st.queue[1..] + children, st.data + [graph[id]], st.counter + 1))
    ensures Request(st) == Some(id)
  {
  }

  /** The loop run until the queue is empty, or until an exception escapes it. */
  function Run(graph: Graph, st: CrawlState): Result<CrawlState, PyError>
    decreases |graph.Keys - Seen(st.visited)|, |st.queue|
  {
    if st.queue == [] then Ok(st)
    else
      match Step(graph, st)
      case Err(e) => Err(e)
      case Ok(next) =>
        StepAdvances(graph, st);
        Run(graph, next)
  }

  /** The whole crawl, up to its final state. */
  function Crawl(root: Obj, graph: Graph): Result<CrawlState, PyError> {
    var init :- Start(root);
    Run(graph, init)
  }

  /** The reference semantics of `get_icd11_taxonomy`, with the root's child list left intact. */
  function Taxonomy(root: Obj, graph: Graph): Result<seq<Obj>, PyError> {
    var final :- Crawl(root, graph);
    Ok(final.data)
  }

  /** The id an iteration passes to `get_node`: the front's id, when it is derived and not yet crawled. */
  function Request(st: CrawlState): Option<string>
    requires st.queue != []
  {
    var ref := st.queue[0];
    if ref.JStr? && NodeId(ref.s).Ok? && NodeId(ref.s).value !in st.visited then Some(NodeId(ref.s).value)
    else None
  }

  /** The ids passed to `get_node` from this state on, in order. */
  function Requests(graph: Graph, st: CrawlState): seq<string>
    decreases |graph.Keys - Seen(st.visited)|, |st.queue|
  {
    if st.queue == [] then []
    else
      var asked := match Request(st) case Some(id) => [id] case None => [];
      match Step(graph, st)
      case Err(_) => asked
      case Ok(next) =>
        StepAdvances(graph, st);
        asked + Requests(graph, next)
  }

  /**
   * An iteration changes more than the queue exactly when it fetches a node:
   * skipping a crawled id and a failed request both leave `visited`, `data`
   * and `counter` as they were.
   */
  lemma OnlyFetchesChangeState(graph: Graph, st: CrawlState)
    requires st.queue != [] && Step(graph, st).Ok?
    ensures Step(graph, st).value.visited != st.visited <==> Request(st).Some? && Request(st).value in graph
    ensures !(Request(st).Some? && Request(st).value in graph) ==> Step(graph, st).value == st.(queue := st.queue[1..])
  {
    var next := Step(graph, st).value;
    if Request(st).Some? && Request(st).value in graph {
      assert |next.visited| == |st.visited| + 1;
    }
  }

  /** The reference's id is derived, and it is crawled or not in the graph. */
  predicate Resolved(graph: Graph, visited: seq<string>, ref: Json) {
    ref.JStr? && NodeId(ref.s).Ok? && (NodeId(ref.s).value in visited || NodeId(ref.s).value !in graph)
  }

  /** Every reference of `refs` is resolved. */
  predicate AllResolved(graph: Graph, visited: seq<string>, refs: seq<Json>) {
    forall k :: 0 <= k < |refs| ==> Resolved(graph, visited, refs[k])
  }

  /** Every reference of `refs` is still queued or already resolved. */
  predicate Covered(graph: Graph, st: CrawlState, refs: seq<Json>) {
    forall k :: 0 <= k < |refs| ==> refs[k] in st.queue || Resolved(graph, st.visited, refs[k])
  }

  /** The references `extend` appends for a crawled node; none when its `child` cannot be iterated. */
  function ChildRefs(node: Obj): seq<Json> {
    match ChildrenOf(node)
    case Ok(children) => children
    case Err(_) => []
  }

  /**
   * Every reference the loop has queued once `data` is crawled: the root's
   * queue, then the children of each later node of `data`, in crawl order.
   */
  function Emitted(rootQueue: seq<Json>, data: seq<Obj>): seq<Json>
    decreases |data|
  {
    if |data| <= 1 then rootQueue
    else Emitted(rootQueue, data[..|data| - 1]) + ChildRefs(data[|data| - 1])
  }

  /** The reference names `id`. */
  predicate Names(ref: Json, id: string) {
    ref.JStr? && NodeId(ref.s) == Ok(id)
  }

  /** Some reference of `refs` names `id`. */
  predicate NamedIn(refs: seq<Json>, id: string) {
    exists p :: 0 <= p < |refs| && Names(refs[p], id)
  }

  /** The queue is what is left of all the references queued so far. */
  predicate QueueLeft(rootQueue: seq<Json>, st: CrawlState) {
    var queued := Emitted(rootQueue, st.data);
    |st.queue| <= |queued| && queued[|queued| - |st.queue|..] == st.queue
  }

  /** Each id crawled after the root is named by a reference of the root or of a node crawled before it. */
  predicate CrawledNamed(rootQueue: seq<Json>, st: CrawlState) {
    && |st.visited| == |st.data|
    && forall i :: 1 <= i < |st.visited| ==> NamedIn(Emitted(rootQueue, st.data[..i]), st.visited[i])
  }

  /** Where the crawl's references and ids come from. */
  predicate Provenance(rootQueue: seq<Json>, st: CrawlState) {
    st.data != [] && QueueLeft(rootQueue, st) && CrawledNamed(rootQueue, st)
  }

  /** Crawling one more node queues its children after everything queued before. */
  lemma EmittedAppend(rootQueue: seq<Json>, data: seq<Obj>, node: Obj)
    requires data != []
    ensures Emitted(rootQueue, data + [node]) == Emitted(rootQueue, data) + ChildRefs(node)
  {
    assert (data + [node])[..|data|] == data;
  }

  /** What was queued by a prefix of the crawl is a prefix of what the whole crawl queued. */
  lemma {:induction false} EmittedPrefix(rootQueue: seq<Json>, data: seq<Obj>, i: nat)
    requires 1 <= i <= |data|
    ensures var early := Emitted(rootQueue, data[..i]);
      |early| <= |Emitted(rootQueue, data)| && Emitted(rootQueue, data)[..|early|] == early
    decreases |data|
  {
    if i < |data| {
      var init := data[..|data| - 1];
      assert init[..i] == data[..i];
      EmittedPrefix(rootQueue, init, i);
    } else {
      assert data[..i] == data;
    }
  }

  /** Every reference queued by the crawl is resolved when the root's and every crawled node's are. */
  lemma {:induction false} EmittedResolved(graph: Graph, visited: seq<string>, rootQueue: seq<Json>, data: seq<Obj>)
    requires AllResolved(graph, visited, rootQueue)
    requires forall i :: 1 <= i < |data| ==> ChildrenOf(data[i]).Ok? && AllResolved(graph, visited, ChildrenOf(data[i]).value)
    ensures AllResolved(graph, visited, Emitted(rootQueue, data))
    decreases |data|
  {
    if |data| > 1 {
      var init := data[..|data| - 1];
      forall i | 1 <= i < |init|
        ensures ChildrenOf(init[i]).Ok? && AllResolved(graph, visited, ChildrenOf(init[i]).value)
      {
        assert init[i] == data[i];
      }
      EmittedResolved(graph, visited, rootQueue, init);
      var early := Emitted(rootQueue, init);
      var last := ChildRefs(data[|data| - 1]);
      forall k | 0 <= k < |early + last|
        ensures Resolved(graph, visited, (early + last)[k])
      {
        if k >= |early| {
          assert (early + last)[k] == last[k - |early|];
        }
      }
    }
  }

  /** The state before the loop: its queue is the root's, and only the root is crawled. */
  lemma StartProvenance(root: Obj, init: CrawlState)
    requires Start(root) == Ok(init)
    ensures Provenance(init.queue, init)
  {
    assert init.queue[0..] == init.queue;
  }

  /** Dropping the front reference keeps the provenance of the queue and of the crawled ids. */
  lemma DropProvenance(rootQueue: seq<Json>, st: CrawlState)
    requires Provenance(rootQueue, st) && st.queue != []
    ensures Provenance(rootQueue, st.(queue := st.queue[1..]))
  {
    var queued := Emitted(rootQueue, st.data);
    assert queued[|queued| - |st.queue| + 1..] == queued[|queued| - |st.queue|..][1..];
  }

  /** Crawling a node queues its children after what is left of the queue. */
  lemma FetchQueueLeft(rootQueue: seq<Json>, st: CrawlState, node: Obj, children: seq<Json>)
    requires QueueLeft(rootQueue, st) && st.queue != [] && st.data != []
    requires ChildrenOf(node) == Ok(children)
    ensures QueueLeft(rootQueue, st.(queue := st.queue[1..] + children, data := st.data + [node]))
  {
    var queued := Emitted(rootQueue, st.data);
    EmittedAppend(rootQueue, st.data, node);
    assert ChildRefs(node) == children;
    var cut := |queued| - |st.queue|;
    assert (queued + children)[cut + 1..] == queued[cut + 1..] + children;
    assert queued[cut + 1..] == queued[cut..][1..];
  }

  /** The id the front reference names was named by a reference queued before the new node is crawled. */
  lemma FetchCrawledNamed(rootQueue: seq<Json>, st: CrawlState, id: string, node: Obj)
    requires QueueLeft(rootQueue, st) && CrawledNamed(rootQueue, st) && st.queue != []
    requires Names(st.queue[0], id)
    ensures CrawledNamed(rootQueue, st.(visited := st.visited + [id], data := st.data + [node]))
  {
    var next := st.(visited := st.visited + [id], data := st.data + [node]);
    var queued := Emitted(rootQueue, st.data);
    var cut := |queued| - |st.queue|;
    assert queued[cut] == queued[cut..][0];
    forall i | 1 <= i < |next.visited|
      ensures NamedIn(Emitted(rootQueue, next.data[..i]), next.visited[i])
    {
      if i < |st.visited| {
        assert next.data[..i] == st.data[..i];
        assert next.visited[i] == st.visited[i];
      } else {
        assert next.data[..i] == st.data;
        assert Names(queued[cut], id);
      }
    }
  }

  /**
   * Crawling the id the front reference names keeps the provenance: the
   * front was queued before the new node was crawled, and the node's
   * children go after everything queued before.
   */
  lemma FetchProvenance(rootQueue: seq<Json>, st: CrawlState, id: string, node: Obj, children: seq<Json>)
    requires Provenance(rootQueue, st) && st.queue != []
    requires Names(st.queue[0], id) && ChildrenOf(node) == Ok(children)
    ensures Provenance(rootQueue, CrawlState(st.visited + [id], st.queue[1..] + children, st.data + [node], st.counter + 1))
  {
    FetchQueueLeft(rootQueue, st, node, children);
    FetchCrawledNamed(rootQueue, st, id, node);
  }

  /** Every iteration that succeeds keeps the provenance. */
  lemma StepProvenance(graph: Graph, rootQueue: seq<Json>, st: CrawlState)
    requires Provenance(rootQueue, st) && st.queue != [] && Step(graph, st).Ok?
    ensures Provenance(rootQueue, Step(graph, st).value)
  {
    var id := NodeId(st.queue[0].s).value;
    if id in st.visited {
      StepSkipsVisited(graph, st, id);
      DropProvenance(rootQueue, st);
    } else if id !in graph {
      StepFetchFails(graph, st, id);
      DropProvenance(rootQueue, st);
    } else {
      var children := ChildrenOf(graph[id]).value;
      StepFetched(graph, st, id, children);
      FetchProvenance(rootQueue, st, id, graph[id], children);
    }
  }

  /** The loop keeps the provenance to its end. */
  lemma {:induction false} RunProvenance(graph: Graph, rootQueue: seq<Json>, st: CrawlState, final: CrawlState)
    requires Provenance(rootQueue, st) && Run(graph, st) == Ok(final)
    ensures Provenance(rootQueue, final)
    decreases |graph.Keys - Seen(st.visited)|, |st.queue|
  {
    if st.queue != [] {
      StepAdvances(graph, st);
      StepProvenance(graph, rootQueue, st);
      RunProvenance(graph, rootQueue, Step(graph, st).value, final);
    }
  }

  /**
   * What holds of every state the loop reaches from `init`: one id per
   * crawled node, plus the counter's one; the root first; no id crawled
   * twice; every other crawled node is the graph's node for its id; and
   * every reference the root or a crawled node holds is queued or resolved.
   */
  predicate Inv(graph: Graph, init: CrawlState, st: CrawlState) {
    && init.data != [] && init.visited != []
    && |st.data| == |st.visited| == st.counter + 1
    && st.data[0] == init.data[0] && st.visited[0] == init.visited[0]
    && Distinct(st.visited)
    && (forall i :: 1 <= i < |st.visited| ==> st.visited[i] in graph && st.data[i] == graph[st.visited[i]])
    && (forall i :: 1 <= i < |st.data| ==> ChildrenOf(st.data[i]).Ok? && Covered(graph, st, ChildrenOf(st.data[i]).value))
    && Covered(graph, st, init.queue)
  }

  /** The state before the loop satisfies the invariant. */
  lemma StartInv(root: Obj, graph: Graph, init: CrawlState)
    requires Start(root) == Ok(init)
    ensures Inv(graph, init, init)
  {
    assert Distinct(init.visited);
    assert Covered(graph, init, init.queue);
  }

  /** Coverage survives an iteration that resolves the front and keeps the rest queued. */
  lemma CoveredAfterStep(graph: Graph, st: CrawlState, next: CrawlState, refs: seq<Json>)
    requires st.queue != [] && Covered(graph, st, refs)
    requires Resolved(graph, next.visited, st.queue[0])
    requires |next.queue| >= |st.queue| - 1 && next.queue[..|st.queue| - 1] == st.queue[1..]
    requires |next.visited| >= |st.visited| && next.visited[..|st.visited|] == st.visited
    ensures Covered(graph, next, refs)
  {
    forall k | 0 <= k < |refs|
      ensures refs[k] in next.queue || Resolved(graph, next.visited, refs[k])
    {
      if refs[k] in st.queue {
        var j :| 0 <= j < |st.queue| && st.queue[j] == refs[k];
        if j > 0 {
          assert next.queue[j - 1] == st.queue[1..][j - 1];
        }
      } else {
        var id := NodeId(refs[k].s).value;
        if id in st.visited {
          var j :| 0 <= j < |st.visited| && st.visited[j] == id;
          assert next.visited[j] == id;
        }
      }
    }
  }

  /** An iteration that drops its front reference keeps the invariant. */
  lemma DropPreservesInv(graph: Graph, init: CrawlState, st: CrawlState)
    requires Inv(graph, init, st) && st.queue != []
    requires Resolved(graph, st.visited, st.queue[0])
    ensures Inv(graph, init, st.(queue := st.queue[1..]))
  {
    var next := st.(queue := st.queue[1..]);
    CoveredAfterStep(graph, st, next, init.queue);
    forall i | 1 <= i < |next.data|
      ensures ChildrenOf(next.data[i]).Ok? && Covered(graph, next, ChildrenOf(next.data[i]).value)
    {
      CoveredAfterStep(graph, st, next, ChildrenOf(st.data[i]).value);
    }
  }

  /** An iteration that crawls a new node keeps the invariant. */
  lemma FetchPreservesInv(graph: Graph, init: CrawlState, st: CrawlState, id: string, children: seq<Json>)
    requires Inv(graph, init, st) && st.queue != []
    requires st.queue[0].JStr? && NodeId(st.queue[0].s) == Ok(id)
    requires id !in st.visited && id in graph && ChildrenOf(graph[id]) == Ok(children)
    ensures Inv(graph, init, CrawlState(st.visited + [id], st.queue[1..] + children, st.data + [graph[id]], st.counter + 1))
  {
    var next := CrawlState(st.visited + [id], st.queue[1..] + children, st.data + [graph[id]], st.counter + 1);
    assert next.queue[..|st.queue| - 1] == st.queue[1..];
    assert next.visited[..|st.visited|] == st.visited;
    assert Resolved(graph, next.visited, st.queue[0]);
    CoveredAfterStep(graph, st, next, init.queue);
    forall i | 1 <= i < |next.data|
      ensures ChildrenOf(next.data[i]).Ok? && Covered(graph, next, ChildrenOf(next.data[i]).value)
    {
      if i < |st.data| {
        CoveredAfterStep(graph, st, next, ChildrenOf(st.data[i]).value);
      } else {
        forall k | 0 <= k < |children|
          ensures children[k] in next.queue
        {
          assert next.queue[|st.queue| - 1 + k] == children[k];
        }
      }
    }
  }

  /** Every iteration that succeeds keeps the invariant. */
  lemma StepPreservesInv(graph: Graph, init: CrawlState, st: CrawlState)
    requires Inv(graph, init, st) && st.queue != [] && Step(graph, st).Ok?
    ensures Inv(graph, init, Step(graph, st).value)
  {
    var id := NodeId(st.queue[0].s).value;
    if id in st.visited || id !in graph {
      DropPreservesInv(graph, init, st);
    } else {
      FetchPreservesInv(graph, init, st, id, ChildrenOf(graph[id]).value);
    }
  }

  /** The loop keeps the invariant to its end, where the queue is empty. */
  lemma {:induction false} RunPreservesInv(graph: Graph, init: CrawlState, st: CrawlState, final: CrawlState)
    requires Inv(graph, init, st) && Run(graph, st) == Ok(final)
    ensures Inv(graph, init, final) && final.queue == []
    decreases |graph.Keys - Seen(st.visited)|, |st.queue|
  {
    if st.queue != [] {
      var next := Step(graph, st).value;
      StepAdvances(graph, st);
      StepPreservesInv(graph, init, st);
      RunPreservesInv(graph, init, next, final);
    }
  }

  /**
   * A crawl that ends without an exception returns the root first, one node
   * per crawled id (the counter counts all but the root), no id twice, for
   * every other id the graph's node, and for every such id a reference of
   * the root or of a node crawled before it that names it. It leaves no
   * reference behind: every reference the root or a crawled node holds
   * names an id that was crawled or that `get_node` failed on.
   */
  lemma CrawlSpec(root: Obj, graph: Graph, final: CrawlState)
    requires Crawl(root, graph) == Ok(final)
    ensures final.queue == []
    ensures final.data != [] && final.data[0] == root
    ensures |final.data| == |final.visited| == final.counter + 1
    ensures RootId(root).Some? && final.visited[0] == RootId(root).value
    ensures Distinct(final.visited)
    ensures forall i :: 1 <= i < |final.visited| ==> final.visited[i] in graph && final.data[i] == graph[final.visited[i]]
    ensures Start(root).Ok? && AllResolved(graph, final.visited, Start(root).value.queue)
    ensures forall i :: 1 <= i < |final.data| ==>
              ChildrenOf(final.data[i]).Ok? && AllResolved(graph, final.visited, ChildrenOf(final.data[i]).value)
    ensures forall i :: 1 <= i < |final.visited| ==>
              NamedIn(Emitted(Start(root).value.queue, final.data[..i]), final.visited[i])
  {
    var init := Start(root).value;
    StartInv(root, graph, init);
    RunPreservesInv(graph, init, init, final);
    StartProvenance(root, init);
    RunProvenance(graph, init.queue, init, final);
  }

  /**
   * Exactly the reachable ids are crawled: an id other than the root's is
   * crawled if and only if the graph has it and some reference the root or
   * a crawled node holds names it. With no id crawled twice, the result
   * holds the root and one node per such id.
   */
  lemma CrawledExactly(root: Obj, graph: Graph, final: CrawlState)
    requires Crawl(root, graph) == Ok(final)
    ensures Start(root).Ok? && RootId(root).Some? && final.visited != []
    ensures final.visited[0] == RootId(root).value
    ensures forall id :: id != RootId(root).value ==>
              (id in final.visited <==> id in graph && NamedIn(Emitted(Start(root).value.queue, final.data), id))
  {
    CrawlSpec(root, graph, final);
    var queued := Emitted(Start(root).value.queue, final.data);
    EmittedResolved(graph, final.visited, Start(root).value.queue, final.data);
    forall id | id != RootId(root).value
      ensures id in final.visited <==> id in graph && NamedIn(queued, id)
    {
      if id in final.visited {
        var i :| 0 <= i < |final.visited| && final.visited[i] == id;
        var early := Emitted(Start(root).value.queue, final.data[..i]);
        var p :| 0 <= p < |early| && Names(early[p], id);
        EmittedPrefix(Start(root).value.queue, final.data, i);
        assert queued[p] == early[p];
      }
      if id in graph && NamedIn(queued, id) {
        var p :| 0 <= p < |queued| && Names(queued[p], id);
        assert Resolved(graph, final.visited, queued[p]);
      }
    }
  }

  /** The ids the example below derives from its references. */
  lemma ExampleIds()
    ensures LastSegment("r") == "r"
    ensures NodeId("a/x") == Ok("x")
  {
    assert "a/x" == "a" + "/" + "x";
    LastSegmentOf("", "r");
    NodeIdPlain("a", "x");
  }

  /** Two references to the missing id "x" each request it: the failure does not mark "x" as crawled. */
  lemma RetryRequests(data: seq<Obj>)
    ensures Requests(map[], CrawlState(["r"], [JStr("a/x"), JStr("a/x")], data, 0)) == ["x", "x"]
  {
    var graph: Graph := map[];
    var s0 := CrawlState(["r"], [JStr("a/x"), JStr("a/x")], data, 0);
    var s1 := s0.(queue := [JStr("a/x")]);
    assert "x" !in ["r"];
    ExampleIds();
    assert s0.queue[1..] == s1.queue && s1.queue[1..] == [];
    StepFetchFails(graph, s0, "x");
    StepFetchFails(graph, s1, "x");
    assert Requests(graph, s1) == ["x"];
  }

  /**
   * A reference to an id the graph lacks is requested each time it is
   * reached: two references to the missing node "x" make two requests,
   * and the crawl still ends with the root alone.
   */
  lemma RetryExample()
    ensures var root := [("@id", JStr("r")), ("child", JArr([JStr("a/x"), JStr("a/x")]))];
      && Crawl(root, map[]) == Ok(CrawlState(["r"], [], [root], 0))
      && Requests(map[], Start(root).value) == ["x", "x"]
  {
    var root := [("@id", JStr("r")), ("child", JArr([JStr("a/x"), JStr("a/x")]))];
    var graph: Graph := map[];
    assert Lookup(root, "@id") == Some(JStr("r"));
    assert Lookup(root, "child") == Some(JArr([JStr("a/x"), JStr("a/x")]));
    assert "x" !in ["r"];
    ExampleIds();
    var s0 := CrawlState(["r"], [JStr("a/x"), JStr("a/x")], [root], 0);
    var s1 := s0.(queue := [JStr("a/x")]);
    var s2 := s0.(queue := []);
    assert Start(root) == Ok(s0);
    assert s0.queue[1..] == s1.queue && s1.queue[1..] == [];
    StepFetchFails(graph, s0, "x");
    StepFetchFails(graph, s1, "x");
    assert Run(graph, s1) == Ok(s2);
    RetryRequests([root]);
  }

  /**
   * A failed request costs only its own node: of two queued references to
   * new ids, a leaf of the graph is crawled, the missing id is dropped, and
   * the crawl completes with one node more.
   */
  lemma LeafThenMissing(graph: Graph, st: CrawlState, id1: string, id2: string)
    requires |st.queue| == 2 && st.queue[0].JStr? && st.queue[1].JStr?
    requires NodeId(st.queue[0].s) == Ok(id1) && NodeId(st.queue[1].s) == Ok(id2)
    requires id1 !in st.visited && id1 in graph && ChildrenOf(graph[id1]) == Ok([])
    requires id2 !in st.visited && id2 != id1 && id2 !in graph
    ensures Run(graph, st) == Ok(CrawlState(st.visited + [id1], [], st.data + [graph[id1]], st.counter + 1))
  {
    var s1 := CrawlState(st.visited + [id1], [st.queue[1]], st.data + [graph[id1]], st.counter + 1);
    assert st.queue[1..] + [] == s1.queue;
    StepFetched(graph, st, id1, []);
    StepFetchFails(graph, s1, id2);
    assert Run(graph, s1) == Ok(s1.(queue := []));
  }

  /**
   * One pass of the `while queue` loop body, on the loop's variables, with
   * the source's early exits. It computes what `Step` states; it is a method
   * of its own so that the loop's proof in `GetTaxonomy` stays small.
   */
  method Visit(graph: Graph, hasCrawled: seq<string>, queue: seq<Json>, data: seq<Obj>, counter: nat)
    returns (r: Result<CrawlState, PyError>)
    requires queue != []
    ensures r == Step(graph, CrawlState(hasCrawled, queue, data, counter))
  {
    var nodeUri := queue[0];
    var rest := queue[1..];
    if !nodeUri.JStr? {
      return Err(AttributeError);
    }
    var id := NodeId(nodeUri.s);
    if id.Err? {
      return Err(id.error);
    }
    if id.value in hasCrawled {
      return Ok(CrawlState(hasCrawled, rest, data, counter));
    }
    if id.value !in graph {
      return Ok(CrawlState(hasCrawled, rest, data, counter));
    }
    var node := graph[id.value];
    var children := ChildrenOf(node);
    if children.Err? {
      return Err(children.error);
    }
    return Ok(CrawlState(hasCrawled + [id.value], rest + children.value, data + [node], counter + 1));
  }

  /** `get_icd11_taxonomy`, with the source's loop, and the root's child list copied into the queue. */
  method GetTaxonomy(root: Obj, graph: Graph) returns (r: Result<seq<Obj>, PyError>)
    ensures r == Taxonomy(root, graph)
    ensures r.Ok? ==> r.value != [] && r.value[0] == root
  {
    var rootRef := Get(root, "@id");
    if rootRef.Err? {
      return Err(rootRef.error);
    }
    if !rootRef.value.JStr? {
      return Err(AttributeError);
    }
    var hasCrawled := [LastSegment(rootRef.value.s)];
    var data := [root];
    var rootChild := Get(root, "child");
    if rootChild.Err? {
      return Err(rootChild.error);
    }
    var rootQueue := RootQueue(rootChild.value);
    if rootQueue.Err? {
      return Err(rootQueue.error);
    }
    var queue := rootQueue.value;
    var counter: nat := 0;
    assert Start(root) == Ok(CrawlState(hasCrawled, queue, data, counter));

    while queue != []
      invariant Run(graph, CrawlState(hasCrawled, queue, data, counter)) == Crawl(root, graph)
      invariant data != [] && data[0] == root
      decreases |graph.Keys - Seen(hasCrawled)|, |queue|
    {
      ghost var st := CrawlState(hasCrawled, queue, data, counter);
      var next := Visit(graph, hasCrawled, queue, data, counter);
      if next.Err? {
        return Err(next.error);
      }
      StepAdvances(graph, st);
      assert next.value.data[0] == next.value.data[..|data|][0];
      hasCrawled, queue, data, counter := next.value.visited, next.value.queue, next.value.data, next.value.counter;
    }
    r := Ok(data);
  }

  /** `data[0]["child"]` as the source leaves it: the queue itself, emptied by the loop. */
  function RootAsReturned(root: Obj): (r: Obj)
    ensures Keys(r) == Keys(root)
  {
    match Lookup(root, "child")
    case Some(JArr(_)) => Assign(root, "child", JArr([]))
    case _ => root
  }

  /**
   * The result as the source computes it: `queue = root["child"]` makes the
   * queue the root's own child list, so the loop's `pop(0)` and `extend`
   * rewrite `data[0]["child"]`, which is empty when the loop ends.
   */
  function TaxonomyAsWritten(root: Obj, graph: Graph): (r: Result<seq<Obj>, PyError>)
    ensures r.Ok? <==> Taxonomy(root, graph).Ok?
    ensures r.Ok? ==> |r.value| == |Taxonomy(root, graph).value| >= 1 && r.value[1..] == Taxonomy(root, graph).value[1..]
  {
    var final :- Crawl(root, graph);
    CrawlSpec(root, graph, final);
    Ok(final.data[0 := RootAsReturned(final.data[0])])
  }

  /**
   * With a non-empty child list at the root, the result as written loses
   * the root's children: its first node has an empty `child` list and so
   * differs from the root, while the corrected crawl returns the root intact.
   */
  lemma RootChildrenLost(root: Obj, graph: Graph)
    requires Crawl(root, graph).Ok?
    requires Lookup(root, "child").Some? && Lookup(root, "child").value.JArr? && Lookup(root, "child").value.items != []
    ensures TaxonomyAsWritten(root, graph).Ok? && Taxonomy(root, graph).Ok?
    ensures Lookup(TaxonomyAsWritten(root, graph).value[0], "child") == Some(JArr([]))
    ensures TaxonomyAsWritten(root, graph).value[0] != root
    ensures Taxonomy(root, graph).value[0] == root
  {
    CrawlSpec(root, graph, Crawl(root, graph).value);
    assert "child" in Keys(root);
  }
}
