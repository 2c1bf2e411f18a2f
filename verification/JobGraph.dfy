/**
 The needs-coverage rule over a workflow's job graph (magefile.go): a recursive
 walk with one shared `seen` set decides which jobs sit downstream of the
 aggregate, and every other job must be listed in its `needs`. The graph may be
 cyclic and may name jobs the file does not define.
 */
module JobGraph {
  /** Each defined job with the jobs it needs; an unreadable list counts as empty. */
  type Graph = map<string, seq<string>>

  function Needs(g: Graph, id: string): (r: seq<string>) { if id in g then g[id] else [] }

  /** `p` follows needs edges. */
  ghost predicate Path(g: Graph, p: seq<string>) {
    |p| >= 1 && forall i :: 0 <= i < |p| - 1 ==> Edge(g, p[i], p[i + 1])
  }

  /** A job the file defines lists the other in its needs. */
  ghost predicate Edge(g: Graph, id: string, d: string) { id in g && d in g[id] }

  /** A path of at least one edge leads from `id` to `target`. */
  ghost predicate Reaches(g: Graph, id: string, target: string) {
    exists p :: Path(g, p) && |p| >= 2 && p[0] == id && p[|p| - 1] == target
  }

  lemma DirectEdge(g: Graph, id: string, target: string)
    requires Edge(g, id, target)
    ensures Reaches(g, id, target)
  {
    var p := [id, target];
    assert Path(g, p) && |p| >= 2 && p[0] == id && p[|p| - 1] == target;
  }

  lemma EdgeThenPath(g: Graph, id: string, d: string, target: string)
    requires Edge(g, id, d) && Reaches(g, d, target)
    ensures Reaches(g, id, target)
  {
    var p :| Path(g, p) && |p| >= 2 && p[0] == d && p[|p| - 1] == target;
    var q := [id] + p;
    forall i | 0 <= i < |q| - 1 ensures Edge(g, q[i], q[i + 1]) {
      if i > 0 {
        assert q[i] == p[i - 1] && q[i + 1] == p[i - 1 + 1];
      }
    }
    assert Path(g, q) && |q| >= 2 && q[0] == id && q[|q| - 1] == target;
  }

  /** Everything `x` needs is in `s`, and none of it is the target. */
  ghost predicate Closed(g: Graph, x: string, s: set<string>, target: string) {
    forall d :: Edge(g, x, d) ==> d in s && d != target
  }

  /** A closed set without the target cannot be left. */
  lemma {:induction false} ClosedIsUnreachable(g: Graph, s: set<string>, target: string, p: seq<string>)
    requires Path(g, p) && |p| >= 2 && Closed(g, p[0], s, target)
    requires forall x :: x in s ==> Closed(g, x, s, target)
    ensures p[|p| - 1] != target
    decreases |p|
  {
    assert Edge(g, p[0], p[0 + 1]);
    if |p| == 2 {
    } else {
      var q := p[1..];
      forall i | 0 <= i < |q| - 1 ensures Edge(g, q[i], q[i + 1]) {
        assert Edge(g, p[i + 1], p[i + 1 + 1]);
      }
      ClosedIsUnreachable(g, s, target, q);
    }
  }

  /** Every name the graph mentions. */
  function Names(g: Graph): (r: set<string>) {
    g.Keys + set id, d | id in g && d in g[id] :: d
  }

  /** The walk's shared state. */
  class Walk {
    const graph: Graph
    const target: string
    var seen: set<string>

    constructor (graph: Graph, target: string)
      ensures this.graph == graph && this.target == target && seen == {}
    {
      this.graph, this.target, seen := graph, target, {};
    }

    /**
     One call of the recursive closure. A true answer comes with a path. A false
     one leaves `id`, and everything newly seen, closed under needs without the
     target, which is what makes the answer right for nodes still being walked.
     */
    method DependsOnAggregate(id: string) returns (r: bool)
      modifies this`seen
      ensures old(seen) <= seen
      ensures r ==> Reaches(graph, id, target)
      ensures !r ==> Closed(graph, id, seen, target)
      ensures !r ==> forall x :: x in seen - old(seen) ==> Closed(graph, x, seen, target)
      decreases Names(graph) - seen
    {
      var deps := Needs(graph, id);
      for i := 0 to |deps|
        invariant old(seen) <= seen
        invariant forall j :: 0 <= j < i ==> deps[j] in seen && deps[j] != target
        invariant forall x :: x in seen - old(seen) ==> Closed(graph, x, seen, target)
      {
        var d := deps[i];
        if d == target {
          DirectEdge(graph, id, target);
          return true;
        }
        if d !in seen {
          assert id in graph && d in graph[id];
          seen := seen + {d};
          ghost var marked := seen;
          var found := DependsOnAggregate(d);
          if found {
            EdgeThenPath(graph, id, d, target);
            return true;
          }
          assert forall x :: x in seen - old(seen) ==> x == d || x in seen - marked || x in marked - {d} - old(seen);
        }
      }
      r := false;
    }
  }

  /** A fresh walk answers reachability exactly, for every finite graph. */
  method Downstream(g: Graph, id: string, target: string) returns (r: bool)
    ensures r <==> Reaches(g, id, target)
  {
    var walk := new Walk(g, target);
    r := walk.DependsOnAggregate(id);
    if !r {
      forall p | Path(g, p) && |p| >= 2 && p[0] == id ensures p[|p| - 1] != target {
        ClosedIsUnreachable(g, walk.seen, target, p);
      }
    }
  }

  /** A job the aggregate has to need: defined, not the aggregate, and not downstream of it. */
  ghost predicate MustBeNeeded(g: Graph, aggregate: string, id: string) {
    id in g && id != aggregate && !Reaches(g, id, aggregate)
  }

  /** The coverage loop over the job names in order; one error per job left out. */
  method UncoveredJobs(g: Graph, order: seq<string>, aggregate: string, needs: seq<string>) returns (errs: seq<string>)
    requires forall id :: id in order <==> id in g
    ensures forall id :: id in errs <==> MustBeNeeded(g, aggregate, id) && id !in needs
    ensures errs == [] <==> forall id :: MustBeNeeded(g, aggregate, id) ==> id in needs
  {
    errs := [];
    for i := 0 to |order|
      invariant forall id :: id in errs <==> id in order[..i] && MustBeNeeded(g, aggregate, id) && id !in needs
    {
      var id := order[i];
      assert id in order;
      if id == aggregate {
        continue;
      }
      var downstream := Downstream(g, id, aggregate);
      if downstream {
        continue;
      }
      if id !in needs {
        errs := errs + [id];
      }
    }
    if errs != [] {
      assert errs[0] in errs;
    }
  }
}
