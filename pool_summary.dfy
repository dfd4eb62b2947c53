/**
 * The pool summary that `render` (main.go) shows for one cluster: the
 * cluster's nodes are grouped by the value of their "pool" label, and three
 * numbers are reported — total nodes, total pods and the number of distinct
 * node pools.
 *
 * The grouping is modelled exactly as written. In the loop, a node whose pool
 * is already a key appends its name to a local copy of the group that is never
 * stored back into the map, so each pool keeps only the name of the FIRST node
 * seen in it. `FirstMembers` is that behaviour as a function of the node list,
 * and `GroupPools` is the loop, proved against it. The grouping the code
 * evidently meant (every member's name) is `AllMembers`, built by the
 * corrected loop `GroupAllMembers`; both have the same key set, so the pool
 * count the summary reports is the same either way.
 */
module PoolSummary {

  datatype Option<T> = None | Some(value: T)

  /** The label whose value names a node's pool. */
  const PoolLabel: string := "pool"

  /** The two fields of a cluster node that the summary reads. */
  datatype Node = Node(name: string, labels: map<string, string>)

  /** A pod of the cluster; the summary only counts pods. */
  datatype Pod = Pod(namespace: string, name: string)

  /** The three numbers the summary reports. */
  datatype Summary = Summary(totalNodes: nat, totalPods: nat, nodePools: nat)

  /** The pool of a node: the value of its "pool" label, when it has one. */
  function PoolOf(n: Node): (r: Option<string>)
    ensures r.Some? <==> PoolLabel in n.labels
    ensures r.Some? ==> r.value == n.labels[PoolLabel]
  {
    if PoolLabel in n.labels then Some(n.labels[PoolLabel]) else None
  }

  /**
   * Every "pool" label value carried by some node of the list (that every
   * value in it is carried by a node is `FirstIndexFound`).
   */
  function PoolValues(nodes: seq<Node>): (pools: set<string>)
    ensures forall k :: 0 <= k < |nodes| && PoolOf(nodes[k]).Some? ==> PoolOf(nodes[k]).value in pools
  {
    set k | 0 <= k < |nodes| && PoolOf(nodes[k]).Some? :: PoolOf(nodes[k]).value
  }

  /** The index of the earliest node of the list that belongs to pool `p`. */
  function FirstIndex(nodes: seq<Node>, p: string): (r: Option<nat>)
    ensures r.Some? ==> r.value < |nodes| && PoolOf(nodes[r.value]) == Some(p)
    ensures r.Some? ==> forall j :: 0 <= j < r.value ==> PoolOf(nodes[j]) != Some(p)
    ensures r.None? ==> forall j :: 0 <= j < |nodes| ==> PoolOf(nodes[j]) != Some(p)
  {
    if nodes == [] then None
    else if PoolOf(nodes[0]) == Some(p) then Some(0)
    else match FirstIndex(nodes[1..], p)
      case Some(k) => Some(k + 1)
      case None => None
  }

  /**
   * The map `render` builds, as written: every pool found among the nodes
   * maps to the one-element list holding the name of the earliest node in it.
   */
  function FirstMembers(nodes: seq<Node>): (pools: map<string, seq<string>>)
    ensures pools.Keys == PoolValues(nodes)
    ensures forall p :: p in pools ==> |pools[p]| == 1
  {
    map p | p in PoolValues(nodes) ::
      FirstIndexFound(nodes, p);
      [nodes[FirstIndex(nodes, p).value].name]
  }

  /** The names of all nodes in pool `p`, in node order. */
  function Members(nodes: seq<Node>, p: string): (names: seq<string>)
    ensures |names| <= |nodes|
    ensures forall k :: 0 <= k < |nodes| && PoolOf(nodes[k]) == Some(p) ==> nodes[k].name in names
    ensures forall x :: x in names ==>
              exists k :: 0 <= k < |nodes| && PoolOf(nodes[k]) == Some(p) && nodes[k].name == x
  {
    if nodes == [] then []
    else
      var last := nodes[|nodes| - 1];
      var init := nodes[..|nodes| - 1];
      assert forall k :: 0 <= k < |init| ==> init[k] == nodes[k];
      Members(init, p) + (if PoolOf(last) == Some(p) then [last.name] else [])
  }

  /** The grouping the loop evidently meant: every pool maps to all its members' names. */
  function AllMembers(nodes: seq<Node>): (pools: map<string, seq<string>>)
    ensures pools.Keys == PoolValues(nodes)
  {
    map p | p in PoolValues(nodes) :: Members(nodes, p)
  }

  // ---------------------------------------------------------------------------
  // Facts about the specification functions
  // ---------------------------------------------------------------------------

  /** A pool has an earliest node exactly when some node carries it. */
  lemma FirstIndexFound(nodes: seq<Node>, p: string)
    ensures FirstIndex(nodes, p).Some? <==> p in PoolValues(nodes)
  {
    if FirstIndex(nodes, p).Some? {
      var k := FirstIndex(nodes, p).value;
      assert PoolOf(nodes[k]).value in PoolValues(nodes);
    }
    if p in PoolValues(nodes) {
      var k :| 0 <= k < |nodes| && PoolOf(nodes[k]).Some? && PoolOf(nodes[k]).value == p;
      assert PoolOf(nodes[k]) == Some(p);
    }
  }

  /** Appending a node adds its pool, if any, to the pool values. */
  lemma PoolValuesSnoc(s: seq<Node>, n: Node)
    ensures PoolValues(s + [n]) ==
            PoolValues(s) + (if PoolOf(n).Some? then {PoolOf(n).value} else {})
  {
    var t := s + [n];
    assert forall k :: 0 <= k < |s| ==> t[k] == s[k];
    assert t[|s|] == n;
    forall p | p in PoolValues(t)
      ensures p in PoolValues(s) || PoolOf(n) == Some(p)
    {
      var k :| 0 <= k < |t| && PoolOf(t[k]).Some? && PoolOf(t[k]).value == p;
      if k < |s| {
        assert PoolOf(s[k]).value in PoolValues(s);
      }
    }
    forall p | p in PoolValues(s)
      ensures p in PoolValues(t)
    {
      var k :| 0 <= k < |s| && PoolOf(s[k]).Some? && PoolOf(s[k]).value == p;
      assert PoolOf(t[k]).value in PoolValues(t);
    }
    if PoolOf(n).Some? {
      assert PoolOf(t[|s|]).value in PoolValues(t);
    }
  }

  /** Appending a node moves no earliest index; it can only supply a missing one. */
  lemma FirstIndexSnoc(s: seq<Node>, n: Node, p: string)
    ensures FirstIndex(s + [n], p) ==
            if FirstIndex(s, p).Some? then FirstIndex(s, p)
            else if PoolOf(n) == Some(p) then Some(|s|)
            else None
  {
    var t := s + [n];
    assert forall k :: 0 <= k < |s| ==> t[k] == s[k];
    assert t[|s|] == n;
    var r, r0 := FirstIndex(t, p), FirstIndex(s, p);
    if r0.Some? {
      assert PoolOf(t[r0.value]) == Some(p);
      assert r.Some?;
      assert forall j :: 0 <= j < r0.value ==> PoolOf(t[j]) != Some(p);
    } else if PoolOf(n) == Some(p) {
      assert PoolOf(t[|s|]) == Some(p);
    } else {
      assert forall j :: 0 <= j < |t| ==> PoolOf(t[j]) != Some(p);
    }
  }

  /** Appending a node keeps the entry of every pool already present. */
  lemma OldPoolsKept(s: seq<Node>, n: Node)
    ensures forall p :: p in FirstMembers(s) ==>
              p in FirstMembers(s + [n]) && FirstMembers(s + [n])[p] == FirstMembers(s)[p]
  {
    PoolValuesSnoc(s, n);
    var t := s + [n];
    forall p | p in PoolValues(s)
      ensures FirstMembers(t)[p] == FirstMembers(s)[p]
    {
      FirstIndexFound(s, p);
      FirstIndexSnoc(s, n, p);
      assert t[FirstIndex(s, p).value] == s[FirstIndex(s, p).value];
    }
  }

  /** Loop step at main.go:59: a node without a "pool" label leaves the map unchanged. */
  lemma UnlabeledNodeIgnored(s: seq<Node>, n: Node)
    requires PoolLabel !in n.labels
    ensures FirstMembers(s + [n]) == FirstMembers(s)
  {
    PoolValuesSnoc(s, n);
    OldPoolsKept(s, n);
  }

  /**
   * Loop step at main.go:60-61: a node whose pool is already a key leaves the
   * map unchanged — its name goes into a copy that is thrown away.
   */
  lemma LaterMemberDropped(s: seq<Node>, n: Node)
    requires PoolOf(n).Some? && PoolOf(n).value in FirstMembers(s)
    ensures FirstMembers(s + [n]) == FirstMembers(s)
  {
    PoolValuesSnoc(s, n);
    OldPoolsKept(s, n);
  }

  /**
   * Loop step at main.go:62-63: the first node seen in a pool makes that pool
   * a new key whose entry is the one-element list of the node's name.
   */
  lemma FirstEncounterRecorded(s: seq<Node>, n: Node)
    requires PoolOf(n).Some? && PoolOf(n).value !in FirstMembers(s)
    ensures FirstMembers(s + [n]) == FirstMembers(s)[PoolOf(n).value := [n.name]]
  {
    PoolValuesSnoc(s, n);
    OldPoolsKept(s, n);
    var t := s + [n];
    var q := PoolOf(n).value;
    FirstIndexFound(s, q);
    FirstIndexSnoc(s, n, q);
    assert t[|s|] == n;
  }

  /**
   * The entry of every pool is the name of a node of that pool with no node
   * of the same pool before it.
   */
  lemma FirstMembersAreEarliest(nodes: seq<Node>, p: string)
    requires p in FirstMembers(nodes)
    ensures exists k :: 0 <= k < |nodes| && PoolOf(nodes[k]) == Some(p)
                        && FirstMembers(nodes)[p] == [nodes[k].name]
                        && forall j :: 0 <= j < k ==> PoolOf(nodes[j]) != Some(p)
  {
    FirstIndexFound(nodes, p);
    var k := FirstIndex(nodes, p).value;
    assert FirstMembers(nodes)[p] == [nodes[k].name];
  }

  /** The number of nodes that carry a "pool" label. */
  function LabeledCount(nodes: seq<Node>): (c: nat)
    ensures c <= |nodes|
  {
    if nodes == [] then 0
    else LabeledCount(nodes[..|nodes| - 1]) + (if PoolOf(nodes[|nodes| - 1]).Some? then 1 else 0)
  }

  /** There are never more pools than nodes carrying a pool label, so never more than nodes. */
  lemma {:induction false} PoolCountBound(nodes: seq<Node>)
    ensures |PoolValues(nodes)| <= LabeledCount(nodes) <= |nodes|
  {
    if nodes != [] {
      var init, last := nodes[..|nodes| - 1], nodes[|nodes| - 1];
      assert init + [last] == nodes;
      PoolValuesSnoc(init, last);
      PoolCountBound(init);
    }
  }

  /** A list in which every node belongs to pool `p` forms exactly one pool, headed by its first node. */
  lemma SinglePool(nodes: seq<Node>, p: string)
    requires |nodes| > 0
    requires forall k :: 0 <= k < |nodes| ==> PoolOf(nodes[k]) == Some(p)
    ensures |PoolValues(nodes)| == 1
    ensures FirstMembers(nodes) == map[p := [nodes[0].name]]
  {
    assert PoolOf(nodes[0]).value in PoolValues(nodes);
    assert PoolValues(nodes) == {p};
    FirstIndexFound(nodes, p);
  }

  /** The names of pool `p` are empty exactly when no node is in it, and start with its earliest node. */
  lemma {:induction false} MembersHead(nodes: seq<Node>, p: string)
    ensures Members(nodes, p) == [] <==> FirstIndex(nodes, p).None?
    ensures FirstIndex(nodes, p).Some? ==>
              Members(nodes, p)[0] == nodes[FirstIndex(nodes, p).value].name
  {
    if nodes != [] {
      var init, last := nodes[..|nodes| - 1], nodes[|nodes| - 1];
      assert init + [last] == nodes;
      MembersHead(init, p);
      FirstIndexSnoc(init, last, p);
      if FirstIndex(init, p).Some? {
        assert nodes[FirstIndex(init, p).value] == init[FirstIndex(init, p).value];
      }
    }
  }

  /** Appending a node extends the names of its own pool, and of no other, by its name. */
  lemma MembersSnoc(s: seq<Node>, n: Node, p: string)
    ensures Members(s + [n], p) == Members(s, p) + (if PoolOf(n) == Some(p) then [n.name] else [])
  {
    assert (s + [n])[..|s|] == s;
  }

  /**
   * Loop step of the intended grouping: an unlabeled node changes nothing; a
   * labeled one appends its name to its pool's group, or starts the group.
   */
  lemma AllMembersSnoc(s: seq<Node>, n: Node)
    ensures PoolOf(n).None? ==> AllMembers(s + [n]) == AllMembers(s)
    ensures PoolOf(n).Some? ==>
              var p := PoolOf(n).value;
              AllMembers(s + [n]) ==
                if p in AllMembers(s) then AllMembers(s)[p := AllMembers(s)[p] + [n.name]]
                else AllMembers(s)[p := [n.name]]
  {
    if PoolOf(n).Some? {
      if PoolOf(n).value in AllMembers(s) {
        KnownPoolExtended(s, n);
      } else {
        NewPoolStarted(s, n);
      }
    } else {
      UnlabeledMemberIgnored(s, n);
    }
  }

  /** An unlabeled node changes no intended group. */
  lemma UnlabeledMemberIgnored(s: seq<Node>, n: Node)
    requires PoolOf(n).None?
    ensures AllMembers(s + [n]) == AllMembers(s)
  {
    PoolValuesSnoc(s, n);
    var a := AllMembers(s);
    assert a.Keys == PoolValues(s + [n]);
    assert forall q :: q in a ==> a[q] == Members(s, q) + (if PoolOf(n) == Some(q) then [n.name] else []);
    SnocEntries(s, n, a);
  }

  /** A node of a pool already grouped is appended to that group. */
  lemma KnownPoolExtended(s: seq<Node>, n: Node)
    requires PoolOf(n).Some? && PoolOf(n).value in AllMembers(s)
    ensures AllMembers(s + [n]) ==
            AllMembers(s)[PoolOf(n).value := AllMembers(s)[PoolOf(n).value] + [n.name]]
  {
    PoolValuesSnoc(s, n);
    var a, p := AllMembers(s), PoolOf(n).value;
    var m := a[p := a[p] + [n.name]];
    assert m.Keys == PoolValues(s + [n]);
    assert forall q :: q in m ==> m[q] == Members(s, q) + (if PoolOf(n) == Some(q) then [n.name] else []);
    SnocEntries(s, n, m);
  }

  /** The first node of a pool starts that pool's group with its name. */
  lemma NewPoolStarted(s: seq<Node>, n: Node)
    requires PoolOf(n).Some? && PoolOf(n).value !in AllMembers(s)
    ensures AllMembers(s + [n]) == AllMembers(s)[PoolOf(n).value := [n.name]]
  {
    PoolValuesSnoc(s, n);
    var a, p := AllMembers(s), PoolOf(n).value;
    FirstIndexFound(s, p);
    MembersHead(s, p);
    var m := a[p := [n.name]];
    assert m.Keys == PoolValues(s + [n]);
    assert forall q :: q in m ==> m[q] == Members(s, q) + (if PoolOf(n) == Some(q) then [n.name] else []);
    SnocEntries(s, n, m);
  }

  /** Map extensionality for `AllMembersSnoc`: a map with the right keys and entries is `AllMembers(s + [n])`. */
  lemma SnocEntries(s: seq<Node>, n: Node, m: map<string, seq<string>>)
    requires m.Keys == PoolValues(s + [n])
    requires forall q :: q in m ==> m[q] == Members(s, q) + (if PoolOf(n) == Some(q) then [n.name] else [])
    ensures AllMembers(s + [n]) == m
  {
    forall q | q in m ensures AllMembers(s + [n])[q] == m[q] {
      MembersSnoc(s, n, q);
    }
  }

  /**
   * The map `render` builds has the same pools as the intended grouping, and
   * each pool's entry is the first name of the intended group.
   */
  lemma FirstMembersArePrefixes(nodes: seq<Node>)
    ensures FirstMembers(nodes).Keys == AllMembers(nodes).Keys
    ensures forall p :: p in FirstMembers(nodes) ==>
              FirstMembers(nodes)[p] == AllMembers(nodes)[p][..1]
  {
    forall p | p in FirstMembers(nodes)
      ensures FirstMembers(nodes)[p] == AllMembers(nodes)[p][..1]
    {
      FirstIndexFound(nodes, p);
      MembersHead(nodes, p);
    }
  }

  /**
   * The three-node example of a two-member pool and an unlabeled node: as
   * written, the pool keeps only the first name; the intended grouping keeps
   * both. The unlabeled node is in neither, and both count one pool.
   */
  lemma DroppedSecondMember()
    ensures var nodes := [Node("a", map[PoolLabel := "x"]), Node("b", map[PoolLabel := "x"]), Node("c", map[])];
            && FirstMembers(nodes) == map["x" := ["a"]]
            && AllMembers(nodes) == map["x" := ["a", "b"]]
            && |PoolValues(nodes)| == 1
  {
    var nodes := [Node("a", map[PoolLabel := "x"]), Node("b", map[PoolLabel := "x"]), Node("c", map[])];
    assert PoolOf(nodes[0]) == Some("x") && PoolOf(nodes[1]) == Some("x") && PoolOf(nodes[2]) == None;
    assert PoolOf(nodes[0]).value in PoolValues(nodes);
    assert PoolValues(nodes) == {"x"};
    FirstIndexFound(nodes, "x");
    assert nodes[..2][..1] == nodes[..1];
    assert Members(nodes[..1], "x") == ["a"];
    assert Members(nodes[..2], "x") == ["a", "b"];
    assert Members(nodes, "x") == ["a", "b"];
  }

  // ---------------------------------------------------------------------------
  // The loop of `render` and the summary it reports
  // ---------------------------------------------------------------------------

  /**
   * The pool-grouping loop of `render`, as written: the map it builds is
   * `FirstMembers(nodes)` — its keys are exactly the pool values present, and
   * each maps to the name of the earliest node in that pool.
   */
  method GroupPools(nodes: seq<Node>) returns (pools: map<string, seq<string>>)
    ensures pools == FirstMembers(nodes)
    ensures pools.Keys == PoolValues(nodes)
  {
    pools := map[];
    var i := 0;
    while i < |nodes|
      invariant 0 <= i <= |nodes|
      invariant pools == FirstMembers(nodes[..i])
    {
      var n := nodes[i];
      assert nodes[..i + 1] == nodes[..i] + [n];
      if PoolLabel in n.labels {
        var pool := n.labels[PoolLabel];
        if pool in pools {
          var group := pools[pool];
          group := group + [n.name];  // extends a copy; the map keeps the old group
          LaterMemberDropped(nodes[..i], n);
        } else {
          pools := pools[pool := [n.name]];
          FirstEncounterRecorded(nodes[..i], n);
        }
      } else {
        UnlabeledNodeIgnored(nodes[..i], n);
      }
      i := i + 1;
    }
    assert nodes[..i] == nodes;
  }

  /**
   * The pool-grouping loop with the group written back after the append: the
   * map it builds is `AllMembers(nodes)`, every pool's names in node order.
   */
  method GroupAllMembers(nodes: seq<Node>) returns (pools: map<string, seq<string>>)
    ensures pools == AllMembers(nodes)
    ensures forall k :: 0 <= k < |nodes| && PoolOf(nodes[k]).Some? ==>
              PoolOf(nodes[k]).value in pools && nodes[k].name in pools[PoolOf(nodes[k]).value]
    ensures forall p, x :: p in pools && x in pools[p] ==>
              exists k :: 0 <= k < |nodes| && PoolOf(nodes[k]) == Some(p) && nodes[k].name == x
  {
    pools := map[];
    var i := 0;
    while i < |nodes|
      invariant 0 <= i <= |nodes|
      invariant pools == AllMembers(nodes[..i])
    {
      var n := nodes[i];
      assert nodes[..i + 1] == nodes[..i] + [n];
      AllMembersSnoc(nodes[..i], n);
      if PoolLabel in n.labels {
        var pool := n.labels[PoolLabel];
        assert PoolOf(n) == Some(pool);
        if pool in pools {
          pools := pools[pool := pools[pool] + [n.name]];
        } else {
          pools := pools[pool := [n.name]];
        }
      } else {
        assert PoolOf(n).None?;
      }
      i := i + 1;
    }
    assert nodes[..i] == nodes;
    forall k | 0 <= k < |nodes| && PoolOf(nodes[k]).Some?
      ensures PoolOf(nodes[k]).value in pools && nodes[k].name in pools[PoolOf(nodes[k]).value]
    {
      assert PoolOf(nodes[k]).value in PoolValues(nodes);
    }
  }

  /**
   * The three numbers `render` reports for a cluster: the node and pod counts
   * whatever the labels, and the number of distinct pool values, which never
   * exceeds the number of labelled nodes, nor so the node count.
   */
  method Render(nodes: seq<Node>, pods: seq<Pod>) returns (s: Summary)
    ensures s.totalNodes == |nodes| && s.totalPods == |pods|
    ensures s.nodePools == |PoolValues(nodes)|
    ensures s.nodePools <= LabeledCount(nodes) <= |nodes|
  {
    var pools := GroupPools(nodes);
    PoolCountBound(nodes);
    assert |pools| == |pools.Keys|;
    s := Summary(|nodes|, |pods|, |pools|);
  }
}
