/** The check that a parsed YAML document holds no non-finite number and no recursive alias
    (habitus/config/loader.py). The document is a finite object graph in which nodes may be shared. */
module ConfigGraph {
  datatype Label = Key(name: string) | Index(i: nat)

  datatype Node = Scalar | NonFinite | Container(items: seq<(Label, nat)>)

  /** Objects by identity, every item of a container among them. */
  type Graph = g: map<nat, Node> |
    forall n :: n in g && g[n].Container? ==> forall i :: 0 <= i < |g[n].items| ==> g[n].items[i].1 in g
    witness map[]

  datatype Reason = NonFiniteNumber | RecursiveAlias

  datatype Verdict = Accepted | Rejected(reason: Reason, path: seq<Label>)

  /** The containers being visited, shared by all calls of one check. */
  class Active {
    var ids: set<nat>

    constructor ()
      ensures ids == {}
    {
      ids := {};
    }
  }

  /** The specification of the check of one value. */
  function Checked(g: Graph, node: nat, path: seq<Label>, active: set<nat>): Verdict
    requires node in g && active <= g.Keys
    decreases g.Keys - active, 1, 0
  {
    match g[node]
    case Scalar => Accepted
    case NonFinite => Rejected(NonFiniteNumber, path)
    case Container(items) =>
      if node in active then Rejected(RecursiveAlias, path)
      else CheckedItems(g, node, 0, path, active + {node})
  }

  /** The specification of the loop over the items of a container, from one of them on. */
  function CheckedItems(g: Graph, node: nat, from: nat, path: seq<Label>, active: set<nat>): Verdict
    requires node in g && g[node].Container? && from <= |g[node].items| && active <= g.Keys && node in active
    decreases g.Keys - (active - {node}), 0, |g[node].items| - from
  {
    var items := g[node].items;
    if from == |items| then Accepted
    else
      assert g.Keys - active < g.Keys - (active - {node}) by {
        assert node in g.Keys - (active - {node}) && node !in g.Keys - active;
      }
      var first := Checked(g, items[from].1, path + [items[from].0], active);
      if first.Rejected? then first else CheckedItems(g, node, from + 1, path, active)
  }

  /** Whatever the outcome, the set of active containers is as it was found. */
  method RejectNonFinite(g: Graph, node: nat, path: seq<Label>, visited: Active) returns (r: Verdict)
    requires node in g && visited.ids <= g.Keys
    modifies visited
    ensures visited.ids == old(visited.ids)
    ensures r == Checked(g, node, path, old(visited.ids))
    decreases g.Keys - visited.ids
  {
    match g[node]
    case Scalar => return Accepted;
    case NonFinite => return Rejected(NonFiniteNumber, path);
    case Container(items) =>
      if node in visited.ids {
        return Rejected(RecursiveAlias, path);
      }
      ghost var before := visited.ids;
      visited.ids := visited.ids + {node};
      assert visited.ids - {node} == before;
      r := Accepted;
      var i := 0;
      while i < |items|
        invariant 0 <= i <= |items|
        invariant visited.ids == before + {node}
        invariant r.Accepted?
        invariant CheckedItems(g, node, i, path, before + {node}) == CheckedItems(g, node, 0, path, before + {node})
      {
        assert node in g.Keys - before && node !in g.Keys - visited.ids;
        r := RejectNonFinite(g, items[i].1, path + [items[i].0], visited);
        if r.Rejected? {
          break;
        }
        i := i + 1;
      }
      visited.ids := visited.ids - {node};
      assert visited.ids == before;
  }

  /** The check of a whole document: no container is active yet. */
  method Validate(g: Graph, root: nat, path: seq<Label>) returns (r: Verdict)
    requires root in g
    ensures r == Checked(g, root, path, {})
  {
    var visited := new Active();
    r := RejectNonFinite(g, root, path, visited);
  }

  // ---- What a document must not hold ----

  /** A walk down the graph, by position in each container. */
  predicate IsWalk(g: Graph, node: nat, steps: seq<nat>)
    decreases steps
  {
    node in g &&
    (steps == [] || (g[node].Container? && steps[0] < |g[node].items| && IsWalk(g, g[node].items[steps[0]].1, steps[1..])))
  }

  function EndOf(g: Graph, node: nat, steps: seq<nat>): nat
    requires IsWalk(g, node, steps)
    ensures EndOf(g, node, steps) in g
    decreases steps
  {
    if steps == [] then node else EndOf(g, g[node].items[steps[0]].1, steps[1..])
  }

  function LabelsOf(g: Graph, node: nat, steps: seq<nat>): seq<Label>
    requires IsWalk(g, node, steps)
    decreases steps
  {
    if steps == [] then []
    else [g[node].items[steps[0]].0] + LabelsOf(g, g[node].items[steps[0]].1, steps[1..])
  }

  /** The containers a walk goes through before its end. */
  function Passed(g: Graph, node: nat, steps: seq<nat>): seq<nat>
    requires IsWalk(g, node, steps)
    decreases steps
  {
    if steps == [] then [] else [node] + Passed(g, g[node].items[steps[0]].1, steps[1..])
  }

  /** A walk that ends at a non-finite number. */
  predicate ReachesNonFinite(g: Graph, node: nat, steps: seq<nat>) {
    IsWalk(g, node, steps) && g[EndOf(g, node, steps)].NonFinite?
  }

  /** A walk that comes back to a container it has passed, or that was active before it. */
  predicate ComesBack(g: Graph, node: nat, steps: seq<nat>, active: set<nat>) {
    IsWalk(g, node, steps) && g[EndOf(g, node, steps)].Container? &&
    (EndOf(g, node, steps) in active || EndOf(g, node, steps) in Passed(g, node, steps))
  }

  predicate Bad(g: Graph, node: nat, steps: seq<nat>, active: set<nat>) {
    ReachesNonFinite(g, node, steps) || ComesBack(g, node, steps, active)
  }

  /** A rejection points at a walk that is bad for the reason given, by its labels. */
  ghost predicate PointsAtFault(g: Graph, node: nat, path: seq<Label>, active: set<nat>, r: Verdict) {
    r.Rejected? ==> exists steps ::
      && Bad(g, node, steps, active)
      && r.path == path + LabelsOf(g, node, steps)
      && (r.reason.NonFiniteNumber? ==> ReachesNonFinite(g, node, steps))
      && (r.reason.RecursiveAlias? ==> ComesBack(g, node, steps, active))
  }

  lemma Descend(g: Graph, node: nat, i: nat, steps: seq<nat>, active: set<nat>)
    requires node in g && g[node].Container? && i < |g[node].items| && IsWalk(g, g[node].items[i].1, steps)
    ensures var child := g[node].items[i].1;
      && IsWalk(g, node, [i] + steps)
      && EndOf(g, node, [i] + steps) == EndOf(g, child, steps)
      && LabelsOf(g, node, [i] + steps) == [g[node].items[i].0] + LabelsOf(g, child, steps)
      && Passed(g, node, [i] + steps) == [node] + Passed(g, child, steps)
      && (ReachesNonFinite(g, node, [i] + steps) <==> ReachesNonFinite(g, child, steps))
      && (ComesBack(g, node, [i] + steps, active) <==> ComesBack(g, child, steps, active + {node}))
  {
    assert ([i] + steps)[1..] == steps;
  }

  lemma {:induction false} RejectionPoints(g: Graph, node: nat, path: seq<Label>, active: set<nat>)
    requires node in g && active <= g.Keys
    ensures PointsAtFault(g, node, path, active, Checked(g, node, path, active))
    decreases g.Keys - active, 1, 0
  {
    match g[node]
    case Scalar =>
    case NonFinite =>
      assert ReachesNonFinite(g, node, []) && path + [] == path;
    case Container(items) =>
      if node in active {
        assert ComesBack(g, node, [], active) && path + [] == path;
      } else {
        assert active + {node} - {node} == active;
        ItemRejectionPoints(g, node, 0, path, active);
      }
  }

  lemma {:induction false} ItemRejectionPoints(g: Graph, node: nat, from: nat, path: seq<Label>, active: set<nat>)
    requires node in g && g[node].Container? && from <= |g[node].items| && active <= g.Keys && node !in active
    ensures PointsAtFault(g, node, path, active, CheckedItems(g, node, from, path, active + {node}))
    decreases g.Keys - active, 0, |g[node].items| - from
  {
    var items := g[node].items;
    if from < |items| {
      var child, step := items[from].1, items[from].0;
      assert node in g.Keys - active && node !in g.Keys - (active + {node});
      var first := Checked(g, child, path + [step], active + {node});
      if first.Rejected? {
        RejectionPoints(g, child, path + [step], active + {node});
        var steps :| && Bad(g, child, steps, active + {node})
                     && first.path == path + [step] + LabelsOf(g, child, steps)
                     && (first.reason.NonFiniteNumber? ==> ReachesNonFinite(g, child, steps))
                     && (first.reason.RecursiveAlias? ==> ComesBack(g, child, steps, active + {node}));
        Descend(g, node, from, steps, active);
        assert path + [step] + LabelsOf(g, child, steps) == path + LabelsOf(g, node, [from] + steps);
        assert Bad(g, node, [from] + steps, active);
      } else {
        ItemRejectionPoints(g, node, from + 1, path, active);
      }
    }
  }

  lemma {:induction false} AcceptanceIsClean(g: Graph, node: nat, path: seq<Label>, active: set<nat>, steps: seq<nat>)
    requires node in g && active <= g.Keys && Checked(g, node, path, active).Accepted?
    ensures !Bad(g, node, steps, active)
    decreases g.Keys - active, 1, 0
  {
    if g[node].Container? && steps != [] && steps[0] < |g[node].items| && IsWalk(g, node, steps) {
      var i := steps[0];
      assert [i] + steps[1..] == steps;
      assert node in g.Keys - active && node !in g.Keys - (active + {node});
      ItemAccepted(g, node, 0, path, active, i);
      AcceptanceIsClean(g, g[node].items[i].1, path + [g[node].items[i].0], active + {node}, steps[1..]);
      Descend(g, node, i, steps[1..], active);
    }
  }

  lemma {:induction false} ItemAccepted(g: Graph, node: nat, from: nat, path: seq<Label>, active: set<nat>, i: nat)
    requires node in g && g[node].Container? && from <= i < |g[node].items| && active <= g.Keys && node !in active
    requires CheckedItems(g, node, from, path, active + {node}).Accepted?
    ensures Checked(g, g[node].items[i].1, path + [g[node].items[i].0], active + {node}).Accepted?
    decreases i - from
  {
    if from < i {
      ItemAccepted(g, node, from + 1, path, active, i);
    }
  }

  /** A document is accepted exactly when no walk from its root reaches a non-finite number or comes back to a
      container it has passed: containers that are only shared are fine. */
  lemma AcceptedExactlyWhenSound(g: Graph, root: nat, path: seq<Label>)
    requires root in g
    ensures Checked(g, root, path, {}).Accepted? <==>
            forall steps :: !ReachesNonFinite(g, root, steps) && !ComesBack(g, root, steps, {})
  {
    var r := Checked(g, root, path, {});
    if r.Accepted? {
      forall steps ensures !Bad(g, root, steps, {}) {
        AcceptanceIsClean(g, root, path, {}, steps);
      }
      assert forall steps :: !Bad(g, root, steps, {}) ==> !ReachesNonFinite(g, root, steps) && !ComesBack(g, root, steps, {});
    } else {
      RejectionPoints(g, root, path, {});
      var steps :| Bad(g, root, steps, {});
    }
  }
}
