/** The tree of call paths. A recursive call leads back to the node of the same call further
    up, so paths stay finite however deep the recursion. */
module CallPaths {

  // --- Sums over a tree given by parent numbers ----------------------------------------------

  /** Node 0 is the root and every other node's parent has a smaller number. */
  predicate IsTree(parents: seq<nat>) {
    0 < |parents| && parents[0] == 0 && forall i :: 0 < i < |parents| ==> parents[i] < i
  }

  /** Node j lies in the subtree of node i. */
  predicate Within(parents: seq<nat>, j: nat, i: nat)
    requires IsTree(parents) && j < |parents|
    decreases j
  {
    j == i || (0 < j && Within(parents, parents[j], i))
  }

  /** The sum of the chosen entries among the first n. */
  function Sum(stats: seq<nat>, chosen: set<nat>, n: nat): (s: nat)
    requires n <= |stats|
  {
    if n == 0 then 0 else Sum(stats, chosen, n - 1) + if n - 1 in chosen then stats[n - 1] else 0
  }

  function Subtree(parents: seq<nat>, i: nat): (js: set<nat>)
    requires IsTree(parents)
  {
    set j: nat | j < |parents| && Within(parents, j, i)
  }

  /** The statistics of a node and of all nodes below it. */
  function SubtreeSum(parents: seq<nat>, stats: seq<nat>, i: nat): (s: nat)
    requires IsTree(parents) && |stats| == |parents|
  {
    Sum(stats, Subtree(parents, i), |stats|)
  }

  function SubtreeSums(parents: seq<nat>, stats: seq<nat>): (ss: seq<nat>)
    requires IsTree(parents) && |stats| == |parents|
  {
    seq(|parents|, i requires 0 <= i < |parents| => SubtreeSum(parents, stats, i))
  }

  /** The nearest node at or above j with a number below k. */
  function Lowest(parents: seq<nat>, j: nat, k: nat): (l: nat)
    requires IsTree(parents) && j < |parents| && 0 < k
    ensures l < k && l <= j
    decreases j
  {
    if j < k then j else Lowest(parents, parents[j], k)
  }

  function Caught(parents: seq<nat>, i: nat, k: nat): (js: set<nat>)
    requires IsTree(parents) && 0 < k
  {
    set j: nat | j < |parents| && Lowest(parents, j, k) == i
  }

  /** What node i holds once the nodes from k on have been added to their parents. */
  function Gathered(parents: seq<nat>, stats: seq<nat>, i: nat, k: nat): (s: nat)
    requires IsTree(parents) && |stats| == |parents| && 0 < k
  {
    Sum(stats, Caught(parents, i, k), |stats|)
  }

  lemma {:induction false} SumUnion(stats: seq<nat>, xs: set<nat>, ys: set<nat>, n: nat)
    requires n <= |stats| && xs !! ys
    ensures Sum(stats, xs + ys, n) == Sum(stats, xs, n) + Sum(stats, ys, n)
  {
    if n > 0 {
      SumUnion(stats, xs, ys, n - 1);
    }
  }

  lemma {:induction false} SumNone(stats: seq<nat>, chosen: set<nat>, n: nat)
    requires n <= |stats| && chosen == {}
    ensures Sum(stats, chosen, n) == 0
  {
    if n > 0 {
      SumNone(stats, chosen, n - 1);
    }
  }

  lemma {:induction false} SumOne(stats: seq<nat>, i: nat, n: nat)
    requires i < |stats| && n <= |stats|
    ensures Sum(stats, {i}, n) == if i < n then stats[i] else 0
  {
    if n > 0 {
      SumOne(stats, i, n - 1);
    }
  }

  lemma {:induction false} WithinSmaller(parents: seq<nat>, j: nat, i: nat)
    requires IsTree(parents) && j < |parents| && Within(parents, j, i)
    ensures i <= j
    decreases j
  {
    if j != i {
      WithinSmaller(parents, parents[j], i);
    }
  }

  /** Numbers fall along the way up, so what passes through node m first meets it below m + 1. */
  lemma {:induction false} WithinIsLowest(parents: seq<nat>, j: nat, m: nat)
    requires IsTree(parents) && j < |parents|
    ensures Within(parents, j, m) <==> Lowest(parents, j, m + 1) == m
    decreases j
  {
    if j > m {
      WithinIsLowest(parents, parents[j], m);
    } else if Within(parents, j, m) {
      WithinSmaller(parents, j, m);
    }
  }

  /** One node further down the numbers. */
  lemma {:induction false} LowestStep(parents: seq<nat>, j: nat, m: nat)
    requires IsTree(parents) && j < |parents| && 0 < m < |parents|
    ensures Lowest(parents, j, m) == if Lowest(parents, j, m + 1) == m then parents[m] else Lowest(parents, j, m + 1)
    decreases j
  {
    if j > m {
      LowestStep(parents, parents[j], m);
    }
  }

  /** When its turn comes a node holds the sum of its subtree. */
  lemma {:induction false} GatheredSubtree(parents: seq<nat>, stats: seq<nat>, m: nat)
    requires IsTree(parents) && |stats| == |parents|
    ensures Gathered(parents, stats, m, m + 1) == SubtreeSum(parents, stats, m)
  {
    forall j | 0 <= j < |parents| ensures Within(parents, j, m) <==> Lowest(parents, j, m + 1) == m {
      WithinIsLowest(parents, j, m);
    }
    assert Caught(parents, m, m + 1) == Subtree(parents, m);
  }

  /** Adding node m to its parent. */
  lemma {:induction false} GatheredStep(parents: seq<nat>, stats: seq<nat>, i: nat, m: nat)
    requires IsTree(parents) && |stats| == |parents| && 0 < m < |parents| && i < m
    ensures Gathered(parents, stats, i, m)
         == Gathered(parents, stats, i, m + 1) + if parents[m] == i then Gathered(parents, stats, m, m + 1) else 0
  {
    forall j | 0 <= j < |parents|
      ensures Lowest(parents, j, m) == if Lowest(parents, j, m + 1) == m then parents[m] else Lowest(parents, j, m + 1)
    {
      LowestStep(parents, j, m);
    }
    var xs, ys := Caught(parents, i, m + 1), Caught(parents, m, m + 1);
    if parents[m] == i {
      assert Caught(parents, i, m) == xs + ys;
      SumUnion(stats, xs, ys, |stats|);
    } else {
      assert Caught(parents, i, m) == xs;
    }
  }

  lemma {:induction false} GatheredNothing(parents: seq<nat>, stats: seq<nat>, i: nat)
    requires IsTree(parents) && |stats| == |parents| && i < |stats|
    ensures Gathered(parents, stats, i, |parents|) == stats[i]
  {
    assert Caught(parents, i, |parents|) == {i};
    SumOne(stats, i, |stats|);
  }

  // --- The table of calls -------------------------------------------------------------------------

  /** A call site and the function called there. */
  datatype Call = Call(callSite: nat, function_: nat)

  datatype CallSiteInfo = CallSiteInfo(count: nat, statistics: nat)

  /** The nodes with at least this number that stand for a call. */
  function Positions(calls: seq<Call>, c: Call, from: nat): (ns: set<nat>) {
    set i: nat | from <= i < |calls| && calls[i] == c
  }

  /** The table has exactly the calls of the nodes from `from` on, with the sums over them. */
  ghost predicate Tabled(results: map<Call, CallSiteInfo>, calls: seq<Call>, counts: seq<nat>, sums: seq<nat>,
                         from: nat) {
    && |calls| == |counts| == |sums|
    && (forall c :: c in results <==> Positions(calls, c, from) != {})
    && forall c :: c in results ==>
         results[c] == CallSiteInfo(Sum(counts, Positions(calls, c, from), |calls|),
                                    Sum(sums, Positions(calls, c, from), |calls|))
  }

  /** One more node is counted under its call. */
  function Tally(results: map<Call, CallSiteInfo>, c: Call, count: nat, sum: nat): (r: map<Call, CallSiteInfo>) {
    var before := if c in results then results[c] else CallSiteInfo(0, 0);
    results[c := CallSiteInfo(before.count + count, before.statistics + sum)]
  }

  lemma {:induction false} TallyOne(results: map<Call, CallSiteInfo>, calls: seq<Call>, counts: seq<nat>,
                                    sums: seq<nat>,
                                    m: nat)
    requires m < |calls| && Tabled(results, calls, counts, sums, m + 1)
    ensures Tabled(Tally(results, calls[m], counts[m], sums[m]), calls, counts, sums, m)
  {
    hide Sum;
    var r, later := Tally(results, calls[m], counts[m], sums[m]), Positions(calls, calls[m], m + 1);
    assert Positions(calls, calls[m], m) == later + {m};
    SumUnion(counts, later, {m}, |calls|);
    SumUnion(sums, later, {m}, |calls|);
    SumOne(counts, m, |calls|);
    SumOne(sums, m, |calls|);
    if calls[m] !in results {
      SumNone(counts, later, |calls|);
      SumNone(sums, later, |calls|);
    }
    assert r[calls[m]] == CallSiteInfo(Sum(counts, later + {m}, |calls|), Sum(sums, later + {m}, |calls|));
    forall c | c != calls[m] ensures Positions(calls, c, m) == Positions(calls, c, m + 1) {}
  }

  lemma {:induction false} NothingTabled(calls: seq<Call>, counts: seq<nat>, sums: seq<nat>)
    requires |calls| == |counts| == |sums|
    ensures Tabled(map[], calls, counts, sums, |calls|)
  {
    forall c ensures Positions(calls, c, |calls|) == {} {}
  }

  // --- Nodes ------------------------------------------------------------------------------------

  class CallPathNode {
    const parent: CallPathNode?
    const call: Call
    var children: map<Call, CallPathNode>
    var statistics: nat
    var summaryStatistics: nat
    var count: nat
    ghost const number: nat
    ghost const trail: set<Call>

    constructor (parent: CallPathNode?, call: Call, ghost number: nat)
      ensures this.parent == parent && this.call == call && this.number == number
      ensures children == map[] && statistics == 0 && summaryStatistics == 0 && count == 0
      ensures trail == (if parent == null then {} else parent.trail) + {call}
    {
      this.parent, this.call, this.number := parent, call, number;
      children, statistics, summaryStatistics, count := map[], 0, 0, 0;
      trail := (if parent == null then {} else parent.trail) + {call};
    }
  }

  /** A call made from the root (asker 0) or from the node that answered an earlier request. */
  datatype Request = Request(asker: nat, call: Call)

  function Requested(requests: seq<Request>): (cs: set<Call>) {
    set k | 0 <= k < |requests| :: requests[k].call
  }

  /** m is a proper ancestor of n; parents have smaller numbers. */
  ghost predicate Above(m: CallPathNode, n: CallPathNode)
    decreases n.number
  {
    n.parent != null && n.parent.number < n.number && (m == n.parent || Above(m, n.parent))
  }

  ghost predicate AtOrAbove(m: CallPathNode, n: CallPathNode) {
    m == n || Above(m, n)
  }

  /** The parent of an ancestor is an ancestor. */
  lemma {:induction false} FurtherUp(m: CallPathNode, n: CallPathNode)
    requires AtOrAbove(m, n) && m.parent != null && m.parent.number < m.number
    ensures Above(m.parent, n)
    decreases n.number
  {
    if m != n {
      FurtherUp(m, n.parent);
    }
  }

  class CallPathManager {
    const root: CallPathNode
    var paths: seq<CallPathNode>

    ghost function Node(i: nat): (n: CallPathNode)
      requires i <= |paths|
      reads this
    {
      if i == 0 then root else paths[i - 1]
    }

    /** Every node comes after its parent and makes a call that is new on its chain; a child
        entry leads to a node of that call, below this one or else on its chain. */
    ghost predicate NodeOk(i: nat)
      requires i <= |paths|
      reads this, Node(i)
    {
      var n := Node(i);
      && n.number == i && (i == 0 <==> n.parent == null)
      && (n.parent != null ==>
            && n.parent.number < i && Node(n.parent.number) == n.parent
            && n.call !in n.parent.trail && n.trail == n.parent.trail + {n.call})
      && (n.parent == null ==> n.trail == {n.call})
      && forall c :: c in n.children ==>
           && n.children[c].call == c && n.children[c].number <= |paths| && Node(n.children[c].number) == n.children[c]
           && if c in n.trail then AtOrAbove(n.children[c], n) else n.children[c].parent == n
    }

    ghost predicate Valid()
      reads this, root, paths
    {
      forall i :: 0 <= i <= |paths| ==> NodeOk(i)
    }

    constructor ()
      ensures Valid() && paths == [] && fresh(root)
    {
      root := new CallPathNode(null, Call(0, 0), 0);
      paths := [];
    }

    ghost predicate InTree(n: CallPathNode)
      reads this
    {
      n.number <= |paths| && Node(n.number) == n
    }

    /** The node at or above the parent that makes the same call, or else a new one below it. */
    method ComputeCallPath(parent: CallPathNode, call: Call) returns (cp: CallPathNode)
      requires Valid() && InTree(parent)
      modifies this`paths
      ensures Valid() && InTree(cp) && cp.call == call
      ensures if call in parent.trail then paths == old(paths) && AtOrAbove(cp, parent)
              else fresh(cp) && cp.children == map[] && paths == old(paths) + [cp] && cp.parent == parent
    {
      var p: CallPathNode? := parent;
      while p != null
        invariant Valid() && InTree(parent) && paths == old(paths)
        invariant p != null ==> InTree(p) && AtOrAbove(p, parent)
        invariant call in parent.trail <==> p != null && call in p.trail
        decreases if p == null then 0 else p.number + 1
      {
        assert NodeOk(p.number);
        if p.call == call {
          return p;
        }
        if p.parent != null {
          FurtherUp(p, parent);
        }
        p := p.parent;
      }
      cp := AddPath(parent, call);
    }

    method AddPath(parent: CallPathNode, call: Call) returns (cp: CallPathNode)
      requires Valid() && InTree(parent) && call !in parent.trail
      modifies this`paths
      ensures Valid() && InTree(cp) && cp.call == call
      ensures fresh(cp) && cp.children == map[] && paths == old(paths) + [cp] && cp.parent == parent
    {
      assert NodeOk(parent.number);
      cp := new CallPathNode(parent, call, |paths| + 1);
      paths := paths + [cp];
      forall i | 0 <= i <= |paths| ensures NodeOk(i) {
        if i < |paths| {
          assert old(NodeOk(i)) && Node(i) == old(Node(i));
        }
      }
    }

    /** The node for a call from a given path; asking again gives the same node. */
    method GetCallPath(from: CallPathNode?, call: Call) returns (cp: CallPathNode)
      requires Valid() && (from != null ==> InTree(from))
      modifies this`paths, if from == null then root else from
      ensures Valid() && InTree(cp) && cp.call == call
      ensures var parent := if from == null then root else from;
              call in parent.children && parent.children[call] == cp
              && parent.children == old(parent.children)[call := cp]
      ensures old(paths) <= paths && |paths| <= |old(paths)| + 1
      ensures |paths| > |old(paths)| ==> fresh(cp) && cp == paths[|old(paths)|] && cp.children == map[]
      ensures old(call in (if from == null then root else from).children) ==>
                paths == old(paths) && cp == old((if from == null then root else from).children[call])
    {
      var parent := if from == null then root else from;
      assert NodeOk(0) && NodeOk(parent.number);
      if call in parent.children {
        cp := parent.children[call];
        assert parent.children == parent.children[call := cp];
      } else {
        cp := ComputeCallPath(parent, call);
        label Computed:
        parent.children := parent.children[call := cp];
        forall i | 0 <= i <= |paths| ensures NodeOk(i) {
          assert old@Computed(NodeOk(i));
        }
      }
    }

    ghost function Depth(n: CallPathNode): (d: nat)
      requires Valid() && InTree(n)
      reads this, root, paths
      decreases n.number
    {
      assert NodeOk(n.number);
      if n.parent == null then 0 else 1 + Depth(n.parent)
    }

    ghost function DepthOf(i: nat): (d: nat)
      requires Valid() && i <= |paths|
      reads this, root, paths
    {
      assert NodeOk(i);
      Depth(Node(i))
    }

    /** No call repeats on the way up from a node, however deep the recursion was. */
    lemma {:induction false} CallsDistinct(m: CallPathNode, n: CallPathNode)
      requires Valid() && InTree(n) && Above(m, n)
      ensures InTree(m) && m.call != n.call && m.trail <= n.trail - {n.call} && m.call in m.trail && m.number < n.number
      decreases n.number
    {
      assert NodeOk(n.number) && NodeOk(n.parent.number);
      if m != n.parent {
        CallsDistinct(m, n.parent);
      }
    }

    /** So the depth is bounded by the number of calls there are. */
    lemma {:induction false} DepthBounded(n: CallPathNode, calls: set<Call>)
      requires Valid() && InTree(n) && forall i :: 0 <= i <= |paths| ==> Node(i).call in calls
      ensures n.trail <= calls && |n.trail| == Depth(n) + 1 <= |calls|
      decreases n.number
    {
      assert NodeOk(n.number) && Node(n.number).call in calls;
      if n.parent != null {
        DepthBounded(n.parent, calls);
      }
      SubsetSmaller(n.trail, calls);
    }

    // --- Whole call sequences -----------------------------------------------------------------

    ghost function CallSet(): (cs: set<Call>)
      reads this
    {
      set i: nat | i <= |paths| :: Node(i).call
    }

    /** Who makes request k: the root, or the node some earlier request was answered with. */
    ghost function Asker(requests: seq<Request>, answers: seq<CallPathNode>, k: nat): (n: CallPathNode)
      requires k < |requests| && requests[k].asker <= |answers|
    {
      if requests[k].asker == 0 then root else answers[requests[k].asker - 1]
    }

    ghost predicate SameQuestion(requests: seq<Request>, answers: seq<CallPathNode>, j: nat, k: nat)
      requires j < |requests| && k < |requests| && requests[j].asker <= |answers| && requests[k].asker <= |answers|
    {
      requests[j].call == requests[k].call && Asker(requests, answers, j) == Asker(requests, answers, k)
    }

    /** The asker knows the answer by the call. */
    ghost predicate Remembered(requests: seq<Request>, answers: seq<CallPathNode>, k: nat)
      requires k < |requests| && k < |answers| && requests[k].asker <= |answers|
      reads Asker(requests, answers, k)
    {
      var n := Asker(requests, answers, k);
      requests[k].call in n.children && n.children[requests[k].call] == answers[k]
    }

    /** The answer is in the tree, for the right call, and remembered. */
    ghost predicate Answered(requests: seq<Request>, answers: seq<CallPathNode>, k: nat)
      requires k < |requests| && k < |answers| && requests[k].asker <= |answers|
      reads this, Asker(requests, answers, k)
    {
      && InTree(answers[k]) && InTree(Asker(requests, answers, k)) && answers[k].call == requests[k].call
      && Remembered(requests, answers, k)
    }

    ghost predicate Served(requests: seq<Request>, answers: seq<CallPathNode>)
      requires |answers| <= |requests| && forall k :: 0 <= k < |requests| ==> requests[k].asker <= k
      reads this, root, answers
    {
      forall k :: 0 <= k < |answers| ==> Answered(requests, answers, k)
    }

    /** Any sequence of calls, made from anywhere reached before: the same call from the same
        node gets the same answer, a call that is new on the asker's chain leads to a child and
        any other back up the chain, and however deep the recursion, no path is longer than the
        number of different calls. */
    method Serve(requests: seq<Request>) returns (answers: seq<CallPathNode>)
      requires Valid() && forall k :: 0 <= k < |requests| ==> requests[k].asker <= k
      modifies this`paths, root, set n | n in paths
      ensures Valid() && |answers| == |requests| && old(paths) <= paths && Served(requests, answers)
      ensures forall j, k :: 0 <= j < k < |answers| && SameQuestion(requests, answers, j, k) ==>
                answers[j] == answers[k]
      ensures forall k :: 0 <= k < |answers| ==> UpOrDown(Asker(requests, answers, k), answers[k])
      ensures forall i :: 0 <= i <= |paths| ==> DepthOf(i) < |old(CallSet()) + Requested(requests)|
    {
      hide CallPathManager.NodeOk, CallPathManager.Valid, CallPathManager.CallSet;
      answers := [];
      for i := 0 to |requests|
        invariant Valid() && |answers| == i && old(paths) <= paths && Served(requests, answers)
        invariant forall n :: n in paths ==> n in old(paths) || fresh(n)
        invariant CallSet() <= old(CallSet()) + Requested(requests)
      {
        AskerInTree(requests, answers, i);
        InPaths(Asker(requests, answers, i));
        var cp := ServeOne(requests, answers, i);
        answers := answers + [cp];
      }
      Consistent(requests, answers);
      DepthsBounded(old(CallSet()) + Requested(requests));
    }

    method ServeOne(requests: seq<Request>, answers: seq<CallPathNode>, i: nat) returns (cp: CallPathNode)
      requires Valid() && i == |answers| < |requests| && forall k :: 0 <= k < |requests| ==> requests[k].asker <= k
      requires Served(requests, answers)
      modifies this`paths, Asker(requests, answers, i)
      ensures Valid() && old(paths) <= paths && Served(requests, answers + [cp])
      ensures forall n :: n in paths ==> n in old(paths) || fresh(n)
      ensures CallSet() <= old(CallSet()) + {requests[i].call}
    {
      hide CallPathManager.NodeOk, CallPathManager.Valid, CallPathManager.CallSet;
      AskerInTree(requests, answers, i);
      var asker := requests[i].asker;
      cp := GetCallPath(if asker == 0 then null else answers[asker - 1], requests[i].call);
      assert Asker(requests, answers + [cp], i) == Asker(requests, answers, i);
      forall k | 0 <= k < i ensures Answered(requests, answers + [cp], k) {
        assert old(Answered(requests, answers, k));
        StillInTree(answers[k]);
        StillInTree(Asker(requests, answers, k));
        assert Remembered(requests, answers, k);
        StillAnswered(requests, answers, cp, k);
      }
      CallSetGrows(cp);
    }

    lemma {:induction false} AskerInTree(requests: seq<Request>, answers: seq<CallPathNode>, i: nat)
      requires Valid() && i == |answers| < |requests| && forall k :: 0 <= k < |requests| ==> requests[k].asker <= k
      requires Served(requests, answers)
      ensures InTree(root) && InTree(Asker(requests, answers, i))
    {
      RootInTree();
      var asker := requests[i].asker;
      assert asker > 0 ==> Answered(requests, answers, asker - 1);
    }

    twostate lemma {:induction false} StillInTree(n: CallPathNode)
      requires old(InTree(n)) && old(paths) <= paths
      ensures InTree(n)
    {
    }

    /** An answer stands, whatever follows it, while its asker still has it. */
    lemma {:induction false} StillAnswered(requests: seq<Request>, answers: seq<CallPathNode>, cp: CallPathNode, k: nat)
      requires k < |answers| && k < |requests| && requests[k].asker <= k
      requires InTree(answers[k]) && InTree(Asker(requests, answers, k)) && answers[k].call == requests[k].call
      requires Remembered(requests, answers, k)
      ensures Answered(requests, answers + [cp], k)
    {
      assert Asker(requests, answers + [cp], k) == Asker(requests, answers, k);
    }

    twostate lemma {:induction false} CallSetGrows(new cp: CallPathNode)
      requires old(paths) <= paths && |paths| <= |old(paths)| + 1
      requires |paths| > |old(paths)| ==> cp == paths[|old(paths)|]
      ensures CallSet() <= old(CallSet()) + {cp.call}
      ensures forall n :: n in paths ==> n in old(paths) || n == cp
    {
      forall c | c in CallSet() ensures c in old(CallSet()) + {cp.call} {
        var j: nat :| j <= |paths| && Node(j).call == c;
        assert j <= |old(paths)| ==> Node(j) == old(Node(j));
      }
    }

    lemma {:induction false} RootInTree()
      requires Valid()
      ensures InTree(root)
    {
      assert NodeOk(0);
    }

    lemma {:induction false} InPaths(n: CallPathNode)
      requires Valid()
      ensures InTree(root) && (InTree(n) ==> n == root || n in paths)
    {
      RootInTree();
    }

    /** The answer makes its call: either a child of the asker, if that call is new on the
        asker's chain, or the asker itself or one above it. */
    ghost predicate UpOrDown(asker: CallPathNode, answer: CallPathNode)
      reads {}
    {
      if answer.call in asker.trail then AtOrAbove(answer, asker) else answer.parent == asker
    }

    lemma {:induction false} ChildUpOrDown(asker: CallPathNode, answer: CallPathNode)
      requires Valid() && InTree(asker)
      requires answer.call in asker.children && asker.children[answer.call] == answer
      ensures UpOrDown(asker, answer)
    {
      assert NodeOk(asker.number);
    }

    lemma {:induction false} Consistent(requests: seq<Request>, answers: seq<CallPathNode>)
      requires Valid() && |answers| <= |requests| && forall k :: 0 <= k < |requests| ==> requests[k].asker <= k
      requires Served(requests, answers)
      ensures forall j, k :: 0 <= j < k < |answers| && SameQuestion(requests, answers, j, k) ==>
                answers[j] == answers[k]
      ensures forall k :: 0 <= k < |answers| ==> UpOrDown(Asker(requests, answers, k), answers[k])
    {
      hide CallPathManager.NodeOk, CallPathManager.Valid, UpOrDown;
      forall k | 0 <= k < |answers| ensures UpOrDown(Asker(requests, answers, k), answers[k]) {
        assert Answered(requests, answers, k);
        ChildUpOrDown(Asker(requests, answers, k), answers[k]);
      }
      forall j, k | 0 <= j < k < |answers| && SameQuestion(requests, answers, j, k) ensures answers[j] == answers[k] {
        assert Answered(requests, answers, j) && Answered(requests, answers, k);
      }
    }

    lemma {:induction false} DepthsBounded(calls: set<Call>)
      requires Valid() && CallSet() <= calls
      ensures forall i :: 0 <= i <= |paths| ==> DepthOf(i) < |calls|
    {
      forall i | 0 <= i <= |paths| ensures DepthOf(i) < |calls| {
        assert NodeOk(i);
        DepthBounded(Node(i), calls);
      }
    }

    // --- Summaries --------------------------------------------------------------------------------

    ghost function ParentOf(i: nat): (p: nat)
      requires Valid() && i <= |paths|
      reads this, root, paths
      ensures i == 0 ==> p == 0
      ensures 0 < i ==> p < i && Node(i).parent == Node(p)
    {
      assert NodeOk(i);
      if i == 0 then 0 else Node(i).parent.number
    }

    ghost function Parents(): (ps: seq<nat>)
      requires Valid()
      reads this, root, paths
      ensures IsTree(ps) && |ps| == |paths| + 1 && forall i :: 0 <= i <= |paths| ==> ps[i] == ParentOf(i)
    {
      seq(|paths| + 1, i requires 0 <= i <= |paths| && Valid() reads this, root, paths => ParentOf(i))
    }

    /** The statistics of all nodes; the root has none of its own, only what its last summary
        left there. */
    ghost function Statistics(): (ss: seq<nat>)
      reads this, root, paths
      ensures |ss| == |paths| + 1
    {
      seq(|paths| + 1, i requires 0 <= i <= |paths| reads this, root, paths =>
            if i == 0 then root.summaryStatistics else Node(i).statistics)
    }

    /** Nothing but summaries changed. */
    twostate predicate OnlySummaries()
      reads this, root, paths
    {
      && paths == old(paths)
      && forall i :: 0 <= i <= |paths| ==>
           && Node(i).statistics == old(Node(i).statistics) && Node(i).children == old(Node(i).children)
           && Node(i).count == old(Node(i).count)
    }

    twostate lemma {:induction false} StillValid()
      requires old(Valid()) && OnlySummaries()
      ensures Valid() && forall i :: 0 <= i <= |paths| ==> ParentOf(i) == old(ParentOf(i))
    {
      forall i | 0 <= i <= |paths| ensures NodeOk(i) {
        assert old(NodeOk(i));
      }
    }

    lemma {:induction false} NodesDistinct(i: nat, j: nat)
      requires Valid() && i <= |paths| && j <= |paths| && i != j
      ensures Node(i) != Node(j)
    {
      assert NodeOk(i) && NodeOk(j);
    }

    /** Every summary starts as the node's own statistics. */
    method StartSummaries()
      requires Valid()
      modifies (set n | n in paths)`summaryStatistics
      ensures Valid() && OnlySummaries() && root.summaryStatistics == old(root.summaryStatistics)
      ensures forall i :: 1 <= i <= |paths| ==> Node(i).summaryStatistics == old(Node(i).statistics)
    {
      forall i | 1 <= i <= |paths| ensures Node(i) != root {
        NodesDistinct(i, 0);
      }
      for k := 0 to |paths|
        invariant OnlySummaries() && root.summaryStatistics == old(root.summaryStatistics)
        invariant forall i :: 1 <= i <= k ==> Node(i).summaryStatistics == old(Node(i).statistics)
      {
        assert paths[k] == Node(k + 1);
        paths[k].summaryStatistics := paths[k].statistics;
      }
      StillValid();
    }

    ghost function Calls(): (cs: seq<Call>)
      reads this
    {
      seq(|paths| + 1, i requires 0 <= i <= |paths| reads this => Node(i).call)
    }

    ghost function Counts(): (cs: seq<nat>)
      reads this, root, paths
    {
      seq(|paths| + 1, i requires 0 <= i <= |paths| reads this, root, paths => Node(i).count)
    }

    /** One pass from the last node to the first leaves in each the sum of its subtree; the
        root gathers the whole on top of what it had. The same pass fills the table: for every
        call that some node stands for, the sums over all of them. */
    method Summarize() returns (results: map<Call, CallSiteInfo>)
      requires Valid()
      modifies root`summaryStatistics, (set n | n in paths)`summaryStatistics
      ensures Valid() && OnlySummaries()
      ensures forall i :: 0 <= i <= |paths| ==>
                Node(i).summaryStatistics == SubtreeSum(old(Parents()), old(Statistics()), i)
      ensures Tabled(results, Calls(), old(Counts()), SubtreeSums(old(Parents()), old(Statistics())), 1)
    {
      hide CallPathManager.NodeOk, CallPathManager.Valid, Gathered, SubtreeSum, IsTree, Tabled;
      ghost var parents, stats, counts := Parents(), Statistics(), Counts();
      ghost var sums := SubtreeSums(parents, stats);
      StartSummaries();
      StillValid();
      forall i | 0 <= i <= |paths| ensures Node(i).summaryStatistics == Gathered(parents, stats, i, |paths| + 1) {
        GatheredNothing(parents, stats, i);
      }
      results := map[];
      NothingTabled(Calls(), counts, sums);
      for k := |paths| downto 0
        invariant OnlySummaries()
        invariant forall i :: 0 <= i <= k ==> Node(i).summaryStatistics == Gathered(parents, stats, i, k + 1)
        invariant forall i :: k < i <= |paths| ==> Node(i).summaryStatistics == SubtreeSum(parents, stats, i)
        invariant Tabled(results, Calls(), counts, sums, k + 1)
      {
        StillValid();
        AddToParent(k + 1, parents, stats);
        assert paths[k] == Node(k + 1);
        TallyOne(results, Calls(), counts, sums, k + 1);
        results := Tally(results, paths[k].call, paths[k].count, paths[k].summaryStatistics);
      }
      StillValid();
      GatheredSubtree(parents, stats, 0);
    }

    method AddToParent(m: nat, ghost parents: seq<nat>, ghost stats: seq<nat>)
      requires Valid() && 1 <= m <= |paths| && IsTree(parents) && |parents| == |stats| == |paths| + 1
      requires forall i :: 0 <= i <= |paths| ==> parents[i] == ParentOf(i)
      requires forall i :: 0 <= i <= m ==> Node(i).summaryStatistics == Gathered(parents, stats, i, m + 1)
      requires forall i :: m < i <= |paths| ==> Node(i).summaryStatistics == SubtreeSum(parents, stats, i)
      modifies root`summaryStatistics, (set n | n in paths)`summaryStatistics
      ensures OnlySummaries()
      ensures forall i :: 0 <= i < m ==> Node(i).summaryStatistics == Gathered(parents, stats, i, m)
      ensures forall i :: m <= i <= |paths| ==> Node(i).summaryStatistics == SubtreeSum(parents, stats, i)
    {
      hide CallPathManager.NodeOk, CallPathManager.Valid, Gathered, SubtreeSum, IsTree;
      var cp := paths[m - 1];
      var parent := ParentNode(m);
      ghost var p := ParentOf(m);
      forall i | 0 <= i <= |paths| && i != p ensures Node(i) != parent {
        NodesDistinct(i, p);
      }
      parent.summaryStatistics := parent.summaryStatistics + cp.summaryStatistics;
      GatheredSubtree(parents, stats, m);
      forall i | 0 <= i < m ensures Node(i).summaryStatistics == Gathered(parents, stats, i, m) {
        GatheredStep(parents, stats, i, m);
      }
    }

    method ParentNode(m: nat) returns (parent: CallPathNode)
      requires Valid() && 1 <= m <= |paths|
      ensures parent == Node(ParentOf(m)) && ParentOf(m) < m
    {
      assert NodeOk(m);
      parent := paths[m - 1].parent;
    }
  }

  lemma {:induction false} SubsetSmaller(xs: set<Call>, ys: set<Call>)
    requires xs <= ys
    ensures |xs| <= |ys|
    decreases xs
  {
    if x :| x in xs {
      SubsetSmaller(xs - {x}, ys - {x});
    }
  }
}
