/** The dependency graph of a packet: which nodes lie on a cycle. */
module PacketCensus {
  import opened Sorting

  type Edges = map<string, set<string>>

  function Successors(edges: Edges, node: string): set<string> {
    if node in edges then edges[node] else {}
  }

  /** A walk of at least one edge. */
  ghost predicate IsWalk(edges: Edges, p: seq<string>) {
    |p| >= 2 && forall i | 0 <= i < |p| - 1 :: p[i + 1] in Successors(edges, p[i])
  }

  /** Some non-empty walk leads from `a` to `b`. */
  ghost predicate Reaches(edges: Edges, a: string, b: string) {
    exists p :: IsWalk(edges, p) && p[0] == a && p[|p| - 1] == b
  }

  ghost predicate OnCycle(edges: Edges, node: string) {
    Reaches(edges, node, node)
  }

  lemma EdgeReaches(edges: Edges, a: string, b: string)
    requires b in Successors(edges, a)
    ensures Reaches(edges, a, b)
  {
    assert IsWalk(edges, [a, b]);
  }

  lemma ReachesFurther(edges: Edges, a: string, b: string, c: string)
    requires Reaches(edges, a, b) && c in Successors(edges, b)
    ensures Reaches(edges, a, c)
  {
    var p :| IsWalk(edges, p) && p[0] == a && p[|p| - 1] == b;
    assert IsWalk(edges, p + [c]);
  }

  /** Everything seen has its successors seen or stacked, and so has the start. */
  ghost predicate Explored(edges: Edges, start: string, seen: set<string>, stack: seq<string>) {
    forall n, s | (n == start || n in seen) && s in Successors(edges, n) :: s in seen || s in stack
  }

  /** A search that ran dry without meeting its start proves the start is on no cycle. */
  lemma DryMeansAcyclic(edges: Edges, start: string, seen: set<string>)
    requires Explored(edges, start, seen, []) && start !in seen
    ensures !OnCycle(edges, start)
  {
    if OnCycle(edges, start) {
      var p :| IsWalk(edges, p) && p[0] == start && p[|p| - 1] == start;
      WalkStaysSeen(edges, start, seen, p, |p| - 1);
    }
  }

  lemma {:induction false} WalkStaysSeen(edges: Edges, start: string, seen: set<string>, p: seq<string>, i: nat)
    requires Explored(edges, start, seen, []) && IsWalk(edges, p) && p[0] == start && 1 <= i < |p|
    ensures p[i] in seen
  {
    if i > 1 {
      WalkStaysSeen(edges, start, seen, p, i - 1);
    }
    assert p[(i - 1) + 1] in Successors(edges, p[i - 1]);
  }

  /** Every node some edge points at. */
  ghost function Targets(edges: Edges): set<string> {
    set n, s | n in edges && s in edges[n] :: s
  }

  /** `list(s)` of a set: its elements, in some order. */
  method Listing(s: set<string>) returns (l: seq<string>)
    ensures (forall x :: x in l <==> x in s) && Distinct(l)
  {
    l := [];
    var todo := s;
    while todo != {}
      invariant todo <= s && (forall x :: x in l <==> x in s - todo) && Distinct(l)
      decreases |todo|
    {
      var x :| x in todo;
      DistinctSnoc(l, x);
      l, todo := l + [x], todo - {x};
    }
  }

  /**
    The search from one node. The stack may hold a node many times; each round either sees
    a new node or shortens the stack.
   */
  method SearchFrom(edges: Edges, start: string) returns (found: bool)
    ensures found <==> OnCycle(edges, start)
  {
    var stack := Listing(Successors(edges, start));
    var seen: set<string> := {};
    ghost var targets := Targets(edges);
    forall n | n in stack ensures Reaches(edges, start, n) && n in targets {
      EdgeReaches(edges, start, n);
    }
    while stack != []
      invariant start !in seen && Explored(edges, start, seen, stack)
      invariant forall n | n in stack :: Reaches(edges, start, n) && n in targets
      invariant forall n | n in seen :: Reaches(edges, start, n)
      decreases targets - seen, |stack|
    {
      var node := stack[|stack| - 1];
      var rest := stack[..|stack| - 1];
      assert stack == rest + [node];
      if node == start {
        return true;
      }
      if node !in seen {
        var more := Listing(Successors(edges, node));
        forall n | n in more ensures Reaches(edges, start, n) && n in targets {
          ReachesFurther(edges, start, node, n);
        }
        seen := seen + {node};
        rest := rest + more;
      }
      stack := rest;
    }
    DryMeansAcyclic(edges, start, seen);
    return false;
  }

  /** `_cyclic`: exactly the given nodes that lie on a cycle, each once, in code-point order. */
  method Cyclic(nodes: seq<string>, edges: Edges) returns (onCycle: seq<string>)
    ensures forall n :: n in onCycle <==> n in nodes && OnCycle(edges, n)
    ensures Distinct(onCycle) && Sorted(onCycle, TextLe)
  {
    var found: set<string> := {};
    for i := 0 to |nodes|
      invariant forall n :: n in found <==> n in nodes[..i] && OnCycle(edges, n)
    {
      var cyclic := SearchFrom(edges, nodes[i]);
      if cyclic {
        found := found + {nodes[i]};
      }
    }
    assert nodes[..|nodes|] == nodes;
    var listed := Listing(found);
    onCycle := Sort(listed, TextLe);
    TextOrder();
    SortSorted(listed, TextLe);
    SortKeepsDistinct(listed);
  }

  lemma {:induction false} OnceEach(s: seq<string>)
    ensures Distinct(s) <==> forall x :: multiset(s)[x] <= 1
  {
    if s != [] {
      OnceEach(s[1..]);
      assert s == [s[0]] + s[1..];
      assert multiset(s) == multiset{s[0]} + multiset(s[1..]);
      if Distinct(s) {
        assert s[0] !in s[1..];
        assert multiset(s[1..])[s[0]] == 0;
      }
      if forall x :: multiset(s)[x] <= 1 {
        forall x ensures multiset(s[1..])[x] <= 1 {
          assert multiset(s)[x] <= 1;
        }
        assert multiset(s)[s[0]] == 1 + multiset(s[1..])[s[0]];
        assert s[0] !in multiset(s[1..]);
      }
    }
  }

  lemma SortKeepsDistinct(s: seq<string>)
    requires Distinct(s)
    ensures Distinct(Sort(s, TextLe))
    ensures forall x :: x in Sort(s, TextLe) <==> x in s
  {
    OnceEach(s);
    OnceEach(Sort(s, TextLe));
    forall x ensures x in Sort(s, TextLe) <==> x in s {
      assert x in s <==> x in multiset(s);
      assert x in Sort(s, TextLe) <==> x in multiset(Sort(s, TextLe));
    }
  }
}
