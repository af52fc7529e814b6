/** `RandomWalker.__init__` of 1-text/graphes.py (lines 10-48): the sub-graph
    the link-analysis scorers work on. Its nodes are the seed documents, their
    successors and a sample of their predecessors; each node gets a dense local
    index, and a 0/1 adjacency keeps the links between two nodes of the set. */
module Graphs {
  import opened Wrappers
  import opened Links
  import opened Indexation

  // ---------------------------------------------------------------------------
  // The node set

  /** The predecessors drawn for `seed` from `sample`, the output of
      `np.random.choice` (1-text/graphes.py:30-33): none when the seed has no
      parents. */
  function Sampled(net: Network, seed: nat, sample: seq<nat>): set<nat> {
    if PrevNodes(net, seed).Ok? && |PrevNodes(net, seed).value| > 0 then set x: nat | x in sample else {}
  }

  /** What `np.random.choice(parents, size=prevNeighbours)` promises: when the
      seed has parents and the size is not negative, `sample` holds
      `prevNeighbours` values, each one a parent. */
  ghost predicate Drawn(net: Network, seed: nat, prevNeighbours: int, sample: seq<nat>) {
    PrevNodes(net, seed).Ok? && |PrevNodes(net, seed).value| > 0 && prevNeighbours >= 0 ==>
      |sample| == prevNeighbours && forall x :: x in sample ==> x in PrevNodes(net, seed).value
  }

  /** One turn of the seed loop (1-text/graphes.py:26-33): the nodes seed
      `seed` brings in (itself, its successors and its sampled predecessors),
      or the error it raises: IndexError from `getSuccNodes` for a row out of
      range, ValueError from `np.random.choice` for a negative size when the
      seed has parents. */
  function Contribution(net: Network, seed: nat, prevNeighbours: int, sample: seq<nat>): (r: Result<set<nat>>)
    ensures r.Err? ==> r.error == IndexError || r.error == ValueError
    ensures r.Ok? ==> seed in r.value && SuccNodes(net, seed).Ok? && SuccNodes(net, seed).value <= r.value
  {
    match SuccNodes(net, seed)
    case Err(e) => Err(e)
    case Ok(children) =>
      if |PrevNodes(net, seed).value| > 0 && prevNeighbours < 0 then Err(ValueError)
      else
        var succ: set<nat> := children;
        Ok({seed} + succ + Sampled(net, seed, sample))
  }

  /** The contributions of all the seeds, in order. */
  function Contributions(net: Network, seeds: seq<nat>, prevNeighbours: int, samples: seq<seq<nat>>): (r: seq<Result<set<nat>>>)
    requires |samples| == |seeds|
    ensures |r| == |seeds|
    ensures forall k :: 0 <= k < |seeds| ==> r[k] == Contribution(net, seeds[k], prevNeighbours, samples[k])
  {
    seq(|seeds|, k requires 0 <= k < |seeds| => Contribution(net, seeds[k], prevNeighbours, samples[k]))
  }

  /** `self.nodes` after the first `k` turns of the seed loop, starting from
      `init`, or the first error a turn raises. */
  function Gather(init: set<nat>, turns: seq<Result<set<nat>>>, k: nat): (r: Result<set<nat>>)
    requires k <= |turns|
    ensures r.Ok? ==> init <= r.value
  {
    if k == 0 then Ok(init)
    else match Gather(init, turns, k - 1)
      case Err(e) => Err(e)
      case Ok(nodes) => if turns[k - 1].Err? then Err(turns[k - 1].error) else Ok(nodes + turns[k - 1].value)
  }

  /** `set(seeds)`. */
  function SeedSet(seeds: seq<nat>): (r: set<nat>)
    ensures forall x :: x in r <==> x in seeds
  {
    set x: nat | x in seeds
  }

  /** `self.nodes` at the end of the seed loop (1-text/graphes.py:19-33),
      starting from `set(seeds)`, or the error that stops `__init__`. */
  function SubgraphNodes(net: Network, seeds: seq<nat>, prevNeighbours: int, samples: seq<seq<nat>>): (r: Result<set<nat>>)
    requires |samples| == |seeds|
    ensures r.Ok? ==> forall x :: x in seeds ==> x in r.value
  {
    Gather(SeedSet(seeds), Contributions(net, seeds, prevNeighbours, samples), |seeds|)
  }

  /** The seed loop fails exactly when one of its turns raises, and then with
      the error of the first such turn. */
  lemma {:induction false} GatherFails(init: set<nat>, turns: seq<Result<set<nat>>>, k: nat)
    requires k <= |turns|
    ensures Gather(init, turns, k).Err? <==> exists j :: 0 <= j < k && turns[j].Err?
    ensures Gather(init, turns, k).Err? ==>
              exists j :: 0 <= j < k && turns[j] == Err(Gather(init, turns, k).error)
                && forall i :: 0 <= i < j ==> turns[i].Ok?
  {
    if k > 0 {
      GatherFails(init, turns, k - 1);
    }
  }

  /** When the seed loop gets through, `nodes` holds the initial nodes and
      everything a turn brings in, and nothing else. */
  lemma {:induction false} GatherExactly(init: set<nat>, turns: seq<Result<set<nat>>>, k: nat, x: nat)
    requires k <= |turns| && Gather(init, turns, k).Ok?
    ensures x in Gather(init, turns, k).value
            <==> x in init || exists j :: 0 <= j < k && turns[j].Ok? && x in turns[j].value
  {
    if k > 0 {
      GatherExactly(init, turns, k - 1, x);
    }
  }

  /** One more turn of the loop. */
  lemma GatherStep(init: set<nat>, turns: seq<Result<set<nat>>>, k: nat, nodes: set<nat>, turn: Result<set<nat>>)
    requires k < |turns| && Gather(init, turns, k) == Ok(nodes) && turn == turns[k]
    ensures Gather(init, turns, k + 1) == if turn.Err? then Err(turn.error) else Ok(nodes + turn.value)
  {
  }

  /** Once a turn has failed, the loop stays failed with the same error. */
  lemma {:induction false} GatherStaysFailed(init: set<nat>, turns: seq<Result<set<nat>>>, k: nat)
    requires k <= |turns| && Gather(init, turns, k).Err?
    ensures Gather(init, turns, |turns|) == Gather(init, turns, k)
    decreases |turns| - k
  {
    if k < |turns| {
      GatherStaysFailed(init, turns, k + 1);
    }
  }

  /** At most `n` distinct values are drawn by `n` draws. */
  lemma {:induction false} DistinctBound(s: seq<nat>)
    ensures |set x: nat | x in s| <= |s|
  {
    if s != [] {
      var rest := s[1..];
      DistinctBound(rest);
      assert (set x: nat | x in s) == (set x: nat | x in rest) + {s[0]} by {
        assert forall x :: x in s <==> x == s[0] || x in rest;
      }
    }
  }

  /** A turn that gets through brings in its seed, all of the seed's
      successors, and some of its parents: at most `prevNeighbours` of them,
      none when it has no parents. */
  lemma ContributionNodes(net: Network, seed: nat, prevNeighbours: int, sample: seq<nat>)
    requires Drawn(net, seed, prevNeighbours, sample)
    requires Contribution(net, seed, prevNeighbours, sample).Ok?
    ensures var nodes := Contribution(net, seed, prevNeighbours, sample).value;
            && seed in nodes
            && SuccNodes(net, seed).Ok? && PrevNodes(net, seed).Ok?
            && (forall x :: x in SuccNodes(net, seed).value ==> x in nodes)
            && (forall x :: x in nodes && x != seed && x !in SuccNodes(net, seed).value ==>
                  x in PrevNodes(net, seed).value)
    ensures |PrevNodes(net, seed).value| == 0 ==> Sampled(net, seed, sample) == {}
    ensures |Sampled(net, seed, sample)| <= if prevNeighbours < 0 then 0 else prevNeighbours
  {
    if |PrevNodes(net, seed).value| > 0 {
      DistinctBound(sample);
    }
  }

  /** The contribution of a seed fails exactly when `getSuccNodes` fails on it,
      or when it has parents and `prevNeighbours` is negative. */
  lemma ContributionFails(net: Network, seed: nat, prevNeighbours: int, sample: seq<nat>)
    ensures Contribution(net, seed, prevNeighbours, sample).Err?
            <==> !(-(net.n as int) <= seed - 1 < net.n)
                 || (|PrevNodes(net, seed).value| > 0 && prevNeighbours < 0)
    ensures Contribution(net, seed, prevNeighbours, sample).Err? && -(net.n as int) <= seed - 1 < net.n ==>
              Contribution(net, seed, prevNeighbours, sample).error == ValueError
  {
  }

  /** `getSuccNodes` succeeds on every node of `nodes`. */
  ghost predicate Closed(net: Network, nodes: set<nat>) {
    forall x :: x in nodes ==> SuccNodes(net, x).Ok?
  }

  /** A turn that gets through only brings in nodes `getSuccNodes` accepts:
      the seed it just looked up, and ids of documents. */
  lemma ContributionClosed(net: Network, seed: nat, prevNeighbours: int, sample: seq<nat>)
    requires Drawn(net, seed, prevNeighbours, sample)
    requires Contribution(net, seed, prevNeighbours, sample).Ok?
    ensures Closed(net, Contribution(net, seed, prevNeighbours, sample).value)
  {
    var nodes := Contribution(net, seed, prevNeighbours, sample).value;
    forall x | x in nodes ensures SuccNodes(net, x).Ok? {
      if x != seed {
        assert 1 <= x <= net.n;
      }
    }
  }

  /** Once the seed loop is through, the second loop's `getSuccNodes` calls
      cannot raise: each seed is in its own turn, and each turn is closed. */
  lemma SubgraphClosed(net: Network, seeds: seq<nat>, prevNeighbours: int, samples: seq<seq<nat>>)
    requires |samples| == |seeds|
    requires forall k :: 0 <= k < |seeds| ==> Drawn(net, seeds[k], prevNeighbours, samples[k])
    requires SubgraphNodes(net, seeds, prevNeighbours, samples).Ok?
    ensures Closed(net, SubgraphNodes(net, seeds, prevNeighbours, samples).value)
  {
    var init, turns := SeedSet(seeds), Contributions(net, seeds, prevNeighbours, samples);
    var nodes := SubgraphNodes(net, seeds, prevNeighbours, samples).value;
    GatherFails(init, turns, |seeds|);
    forall x | x in nodes ensures SuccNodes(net, x).Ok? {
      GatherExactly(init, turns, |seeds|, x);
      var j: nat;
      if x in init {
        j :| 0 <= j < |seeds| && seeds[j] == x;
        assert x in turns[j].value by {
          ContributionNodes(net, seeds[j], prevNeighbours, samples[j]);
        }
      } else {
        j :| 0 <= j < |seeds| && turns[j].Ok? && x in turns[j].value;
      }
      ContributionClosed(net, seeds[j], prevNeighbours, samples[j]);
    }
  }

  /** The seed loop raises exactly when some seed is outside the matrix, or
      has parents while `prevNeighbours` is negative. */
  lemma SubgraphFails(net: Network, seeds: seq<nat>, prevNeighbours: int, samples: seq<seq<nat>>)
    requires |samples| == |seeds|
    ensures SubgraphNodes(net, seeds, prevNeighbours, samples).Err?
            <==> exists k :: 0 <= k < |seeds| &&
                   (!(-(net.n as int) <= seeds[k] - 1 < net.n)
                    || (|PrevNodes(net, seeds[k]).value| > 0 && prevNeighbours < 0))
  {
    var turns := Contributions(net, seeds, prevNeighbours, samples);
    GatherFails(SeedSet(seeds), turns, |seeds|);
    forall k | 0 <= k < |seeds|
      ensures turns[k].Err? <==> (!(-(net.n as int) <= seeds[k] - 1 < net.n)
                                  || (|PrevNodes(net, seeds[k]).value| > 0 && prevNeighbours < 0))
    {
      ContributionFails(net, seeds[k], prevNeighbours, samples[k]);
    }
  }

  /** When the seed loop gets through, the node set holds every seed and every
      successor of a seed, and each of its nodes is a seed, a successor of a
      seed or a parent of a seed. */
  lemma SubgraphMembers(net: Network, seeds: seq<nat>, prevNeighbours: int, samples: seq<seq<nat>>, x: nat)
    requires |samples| == |seeds|
    requires forall k :: 0 <= k < |seeds| ==> Drawn(net, seeds[k], prevNeighbours, samples[k])
    requires SubgraphNodes(net, seeds, prevNeighbours, samples).Ok?
    ensures (exists k :: 0 <= k < |seeds| &&
               (x == seeds[k] || (SuccNodes(net, seeds[k]).Ok? && x in SuccNodes(net, seeds[k]).value)))
            ==> x in SubgraphNodes(net, seeds, prevNeighbours, samples).value
    ensures x in SubgraphNodes(net, seeds, prevNeighbours, samples).value
            ==> exists k :: 0 <= k < |seeds| && SuccNodes(net, seeds[k]).Ok? && PrevNodes(net, seeds[k]).Ok? &&
                  (x == seeds[k] || x in SuccNodes(net, seeds[k]).value || x in PrevNodes(net, seeds[k]).value)
  {
    var init, turns := SeedSet(seeds), Contributions(net, seeds, prevNeighbours, samples);
    var nodes := SubgraphNodes(net, seeds, prevNeighbours, samples).value;
    GatherFails(init, turns, |seeds|);
    GatherExactly(init, turns, |seeds|, x);
    if k :| 0 <= k < |seeds| && (x == seeds[k] || (SuccNodes(net, seeds[k]).Ok? && x in SuccNodes(net, seeds[k]).value)) {
      if x != seeds[k] {
        assert turns[k].Ok?;
        ContributionNodes(net, seeds[k], prevNeighbours, samples[k]);
      }
    }
    if x in nodes {
      var j: nat;
      if x in init {
        j :| 0 <= j < |seeds| && seeds[j] == x;
      } else {
        j :| 0 <= j < |seeds| && turns[j].Ok? && x in turns[j].value;
      }
      assert turns[j].Ok?;
      ContributionNodes(net, seeds[j], prevNeighbours, samples[j]);
    }
  }

  // ---------------------------------------------------------------------------
  // The local index and the adjacency

  /** `nodeList` and `idxMap` number `nodes` densely: `idxMap` sends each node
      to its position in `nodeList`, and `nodeList` lists each node once. */
  ghost predicate Dense(nodes: set<nat>, nodeList: seq<nat>, idxMap: map<nat, nat>) {
    && idxMap.Keys == nodes
    && |nodeList| == |nodes|
    && (forall x :: x in idxMap ==> idxMap[x] < |nodeList| && nodeList[idxMap[x]] == x)
    && (forall j :: 0 <= j < |nodeList| ==> nodeList[j] in idxMap && idxMap[nodeList[j]] == j)
  }

  /** Moving one node from the nodes still to visit to the visited ones keeps
      the two a partition of `nodes`. */
  lemma MoveOne(nodes: set<nat>, done: set<nat>, rest: set<nat>, x: nat)
    requires done + rest == nodes && done !! rest && x in rest
    ensures (done + {x}) + (rest - {x}) == nodes && (done + {x}) !! (rest - {x})
    ensures rest - {x} < rest && x !in done
  {
  }

  /** Numbering one more node with the next index keeps the numbering dense. */
  lemma DenseGrows(done: set<nat>, nodeList: seq<nat>, idxMap: map<nat, nat>, x: nat)
    requires Dense(done, nodeList, idxMap) && x !in done
    ensures Dense(done + {x}, nodeList + [x], idxMap[x := |nodeList|])
  {
    var list, map' := nodeList + [x], idxMap[x := |nodeList|];
    forall j | 0 <= j < |list| ensures list[j] in map' && map'[list[j]] == j {
      if j < |nodeList| {
        assert list[j] == nodeList[j];
      }
    }
  }

  /** A dense numbering is a bijection from `nodes` onto `0..N-1`. */
  lemma DenseBijection(nodes: set<nat>, nodeList: seq<nat>, idxMap: map<nat, nat>)
    requires Dense(nodes, nodeList, idxMap)
    ensures forall x, y :: x in nodes && y in nodes && idxMap[x] == idxMap[y] ==> x == y
    ensures forall j :: 0 <= j < |nodes| ==> nodeList[j] in nodes && idxMap[nodeList[j]] == j
    ensures forall j, i :: 0 <= i < j < |nodeList| ==> nodeList[i] != nodeList[j]
  {
  }

  /** `graph` is the 0/1 adjacency of the nodes listed in `nodeList`: cell
      `(i, j)` is 1 when `nodeList[j]` is a successor of `nodeList[i]`, and
      absent (0) otherwise. */
  ghost predicate Local(net: Network, nodeList: seq<nat>, graph: map<(nat, nat), nat>)
    requires forall i :: 0 <= i < |nodeList| ==> SuccNodes(net, nodeList[i]).Ok?
  {
    && (forall i: nat, j: nat :: (i, j) in graph <==>
          i < |nodeList| && j < |nodeList| && nodeList[j] in SuccNodes(net, nodeList[i]).value)
    && (forall c :: c in graph ==> graph[c] == 1)
  }

  /** `graph` holds the rows of the nodes in `done`: cell `(i, j)` is 1 when
      `nodeList[i]` is in `done` and `nodeList[j]` is one of its successors. */
  ghost predicate Rows(net: Network, nodeList: seq<nat>, done: set<nat>, graph: map<(nat, nat), nat>)
  {
    && (forall i: nat, j: nat :: (i, j) in graph <==>
          i < |nodeList| && j < |nodeList| && nodeList[i] in done
          && SuccNodes(net, nodeList[i]).Ok? && nodeList[j] in SuccNodes(net, nodeList[i]).value)
    && (forall c :: c in graph ==> graph[c] == 1)
  }

  /** Filling the row of one more node, with the indices of its successors
      inside the node set, gives the rows of one more node. */
  lemma RowAdded(net: Network, nodes: set<nat>, nodeList: seq<nat>, idxMap: map<nat, nat>, done: set<nat>,
                 graph: map<(nat, nat), nat>, node: nat, childrenIdx: set<nat>)
    requires Dense(nodes, nodeList, idxMap) && Closed(net, nodes) && Rows(net, nodeList, done, graph)
    requires node in nodes && node !in done
    requires childrenIdx == set c | c in SuccNodes(net, node).value * nodes :: idxMap[c]
    ensures Rows(net, nodeList, done + {node}, graph + map j | j in childrenIdx :: (idxMap[node], j) := 1)
  {
    var row := map j | j in childrenIdx :: (idxMap[node], j) := 1;
    var grown := graph + row;
    var succ := SuccNodes(net, node).value;
    forall i: nat, j: nat
      ensures (i, j) in grown <==>
                i < |nodeList| && j < |nodeList| && nodeList[i] in done + {node}
                && SuccNodes(net, nodeList[i]).Ok? && nodeList[j] in SuccNodes(net, nodeList[i]).value
    {
      if j < |nodeList| {
        InRow(nodes, nodeList, idxMap, succ, childrenIdx, j);
      } else {
        assert j !in childrenIdx;
      }
      if i < |nodeList| {
        assert i == idxMap[node] <==> nodeList[i] == node;
      }
    }
  }

  /** The indices of the successors inside the node set are those of the
      listed nodes that are successors. */
  lemma InRow(nodes: set<nat>, nodeList: seq<nat>, idxMap: map<nat, nat>, succ: set<nat>, childrenIdx: set<nat>, j: nat)
    requires Dense(nodes, nodeList, idxMap) && j < |nodeList|
    requires childrenIdx == set c | c in succ * nodes :: idxMap[c]
    ensures j in childrenIdx <==> nodeList[j] in succ
  {
    if j in childrenIdx {
      var c :| c in succ * nodes && idxMap[c] == j;
      assert nodeList[j] == c;
    }
    if nodeList[j] in succ {
      assert nodeList[j] in nodes;
    }
  }

  /** Within the sub-graph, an edge `i -> j` is the same as node `i` being a
      predecessor of node `j` in the whole network. */
  lemma LocalEdgeIsPrev(net: Network, nodeList: seq<nat>, graph: map<(nat, nat), nat>, i: nat, j: nat)
    requires forall k :: 0 <= k < |nodeList| ==> SuccNodes(net, nodeList[k]).Ok?
    requires Local(net, nodeList, graph)
    requires i < |nodeList| && j < |nodeList| && 1 <= nodeList[i] <= net.n && 1 <= nodeList[j] <= net.n
    ensures (i, j) in graph <==> nodeList[i] in PrevNodes(net, nodeList[j]).value
  {
    SuccPrevDual(net, nodeList[i], nodeList[j]);
  }

  class RandomWalker {
    /** `self.index`. */
    var index: Index
    /** `self.seeds`: the seed document ids. */
    var seeds: seq<nat>
    /** `self.prevNeighbours`: how many predecessors to draw per seed. */
    var prevNeighbours: int
    /** `self.nodes`: the node set of the sub-graph. */
    var nodes: set<nat>
    /** `self.nodeList`: the nodes in the order of their local index. */
    var nodeList: seq<nat>
    /** `self.idxMap`: each node to its local index. */
    var idxMap: map<nat, nat>
    /** The dimension of the `dok_matrix`. */
    var size: nat
    /** `self.graph`: the nonzero cells of the `dok_matrix`. */
    var graph: map<(nat, nat), nat>

    /** The state `__init__` leaves: a dense numbering of the node set, on
        which `getSuccNodes` succeeds, and the adjacency restricted to it. */
    ghost predicate Valid()
      reads this, index
    {
      && Dense(nodes, nodeList, idxMap)
      && size == |nodes|
      && Closed(index.network, nodes)
      && Local(index.network, nodeList, graph)
    }

    /** `__init__` (1-text/graphes.py:11-48). `samples[k]` stands for what
        `np.random.choice` draws for `seeds[k]`. The walker is built when the
        seed loop gets through, and the error it raises is returned otherwise. */
    static method Create(index: Index, seeds: seq<nat>, prevNeighbours: int, samples: seq<seq<nat>>)
      returns (r: Result<RandomWalker>)
      requires |samples| == |seeds|
      requires forall k :: 0 <= k < |seeds| ==> Drawn(index.network, seeds[k], prevNeighbours, samples[k])
      ensures r.Err? ==> SubgraphNodes(index.network, seeds, prevNeighbours, samples) == Err(r.error)
      ensures r.Ok? ==> && fresh(r.value)
                        && r.value.index == index && r.value.seeds == seeds
                        && r.value.prevNeighbours == prevNeighbours
                        && SubgraphNodes(index.network, seeds, prevNeighbours, samples) == Ok(r.value.nodes)
                        && r.value.Valid()
    {
      var gathered := GatherNodes(index, seeds, prevNeighbours, samples);
      match gathered
      case Err(e) =>
        r := Err(e);
      case Ok(nodes) =>
        SubgraphClosed(index.network, seeds, prevNeighbours, samples);
        var walker := new RandomWalker(index, seeds, prevNeighbours, nodes);
        r := Ok(walker);
    }

    /** The last two loops of `__init__` (1-text/graphes.py:34-48), over the
        node set the seed loop gathered. */
    constructor (index: Index, seeds: seq<nat>, prevNeighbours: int, nodes: set<nat>)
      requires Closed(index.network, nodes)
      ensures this.index == index && this.seeds == seeds && this.prevNeighbours == prevNeighbours
      ensures this.nodes == nodes
      ensures Valid()
    {
      var nodeList, idxMap := Enumerate(nodes);
      var graph := Adjacency(index, nodes, nodeList, idxMap);
      this.index := index;
      this.seeds := seeds;
      this.prevNeighbours := prevNeighbours;
      this.nodes := nodes;
      this.nodeList := nodeList;
      this.idxMap := idxMap;
      this.size := |nodeList|;
      this.graph := graph;
    }

    /** The seed loop (1-text/graphes.py:19-33): `r` holds `self.nodes`, or
        the error that ends the loop. */
    static method GatherNodes(index: Index, seeds: seq<nat>, prevNeighbours: int, samples: seq<seq<nat>>)
      returns (r: Result<set<nat>>)
      requires |samples| == |seeds|
      ensures r == SubgraphNodes(index.network, seeds, prevNeighbours, samples)
    {
      var start := SeedSet(seeds);
      ghost var turns := Contributions(index.network, seeds, prevNeighbours, samples);
      r := Ok(start);
      var k := 0;
      while k < |seeds| && r.Ok?
        invariant k <= |seeds| == |turns|
        invariant Gather(start, turns, k) == r
      {
        ghost var turn := turns[k];
        var next := Visit(index, seeds, prevNeighbours, samples, k, r.value, turn);
        GatherStep(start, turns, k, r.value, turn);
        r := next;
        k := k + 1;
      }
      if r.Err? {
        GatherStaysFailed(start, turns, k);
      }
    }

    /** Turn `k` of the seed loop (1-text/graphes.py:26-33): `nodes` grows by
        the contribution of `seeds[k]`, or the turn raises its error. */
    static method Visit(index: Index, seeds: seq<nat>, prevNeighbours: int, samples: seq<seq<nat>>, k: nat,
                        nodes: set<nat>, ghost turn: Result<set<nat>>)
      returns (r: Result<set<nat>>)
      requires k < |seeds| == |samples|
      requires turn == Contributions(index.network, seeds, prevNeighbours, samples)[k]
      ensures r == if turn.Err? then Err(turn.error) else Ok(nodes + turn.value)
    {
      var seed, sample := seeds[k], samples[k];
      assert turn == Contribution(index.network, seed, prevNeighbours, sample);
      var grown := nodes + {seed};
      var children := index.GetSuccNodes(seed);
      if children.Err? {
        return Err(children.error);
      }
      var succ: set<nat> := children.value;
      grown := grown + succ;
      var parents := index.GetPrevNodes(seed);
      if |parents.value| > 0 {
        if prevNeighbours < 0 {
          return Err(ValueError);
        }
        grown := grown + set x: nat | x in sample;
      }
      assert grown == nodes + turn.value;
      r := Ok(grown);
    }

    /** The numbering loop (1-text/graphes.py:35-39): each node, in the set's
        iteration order, gets the next index and is appended to `nodeList`. */
    static method Enumerate(nodes: set<nat>) returns (nodeList: seq<nat>, idxMap: map<nat, nat>)
      ensures Dense(nodes, nodeList, idxMap)
    {
      nodeList, idxMap := [], map[];
      var rest := nodes;
      ghost var done: set<nat> := {};
      var i := 0;
      while rest != {}
        invariant done + rest == nodes && done !! rest
        invariant i == |nodeList| && Dense(done, nodeList, idxMap)
        decreases rest
      {
        var node :| node in rest;
        MoveOne(nodes, done, rest, node);
        DenseGrows(done, nodeList, idxMap, node);
        idxMap := idxMap[node := i];
        nodeList := nodeList + [node];
        i := i + 1;
        done := done + {node};
        rest := rest - {node};
      }
    }

    /** The adjacency loop (1-text/graphes.py:42-48): for each node, its
        successors inside the node set get a 1 in its row. */
    static method Adjacency(index: Index, nodes: set<nat>, nodeList: seq<nat>, idxMap: map<nat, nat>)
      returns (graph: map<(nat, nat), nat>)
      requires Dense(nodes, nodeList, idxMap) && Closed(index.network, nodes)
      ensures Local(index.network, nodeList, graph)
    {
      graph := map[];
      var rest := nodes;
      ghost var done: set<nat> := {};
      while rest != {}
        invariant done + rest == nodes && done !! rest
        invariant Rows(index.network, nodeList, done, graph)
        decreases rest
      {
        var node :| node in rest;
        MoveOne(nodes, done, rest, node);
        var nodeIdx := idxMap[node];
        var succ := index.GetSuccNodes(node).value;
        var children := succ * nodes;
        var childrenIdx := set c | c in children :: idxMap[c];
        RowAdded(index.network, nodes, nodeList, idxMap, done, graph, node, childrenIdx);
        graph := graph + map j | j in childrenIdx :: (nodeIdx, j) := 1;
        done := done + {node};
        rest := rest - {node};
      }
    }
  }

}
