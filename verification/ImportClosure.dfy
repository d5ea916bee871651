/**
 * The worklist that decides which units of the component mirror get copied: the requested
 * components and whatever their sources import, transitively.
 */
module ImportClosure {
  import opened Options

  /** A unit id such as `components/sheet` or `utils/compose`. */
  type Unit = string

  /** The mirror's resolvable units, each with the units its sources import, in order of appearance. */
  type Mirror = map<Unit, seq<Unit>>

  function Requested(components: seq<string>): (r: seq<Unit>)
    ensures |r| == |components| && forall i :: 0 <= i < |r| ==> r[i] == "components/" + components[i]
  {
    seq(|components|, i requires 0 <= i < |components| => "components/" + components[i])
  }

  predicate Imports(mirror: Mirror, a: Unit, b: Unit) { a in mirror && b in mirror[a] }

  /** A chain of imports that starts at a requested unit. */
  ghost predicate IsTrail(mirror: Mirror, roots: seq<Unit>, p: seq<Unit>) {
    p != [] && p[0] in roots && forall i :: 0 <= i < |p| - 1 ==> Imports(mirror, p[i], p[i + 1])
  }

  ghost predicate TrailTo(mirror: Mirror, roots: seq<Unit>, p: seq<Unit>, u: Unit) {
    IsTrail(mirror, roots, p) && p[|p| - 1] == u
  }

  ghost predicate Reachable(mirror: Mirror, roots: seq<Unit>, u: Unit) {
    exists p :: TrailTo(mirror, roots, p, u)
  }

  lemma RootIsReachable(mirror: Mirror, roots: seq<Unit>, u: Unit)
    requires u in roots
    ensures Reachable(mirror, roots, u)
  {
    assert TrailTo(mirror, roots, [u], u);
  }

  lemma ImportIsReachable(mirror: Mirror, roots: seq<Unit>, u: Unit, v: Unit)
    requires Reachable(mirror, roots, u) && Imports(mirror, u, v)
    ensures Reachable(mirror, roots, v)
  {
    var p :| TrailTo(mirror, roots, p, u);
    assert TrailTo(mirror, roots, p + [v], v);
  }

  ghost predicate Closed(mirror: Mirror, roots: seq<Unit>, units: set<Unit>) {
    (forall u :: u in roots ==> u in units) && forall u, v :: u in units && Imports(mirror, u, v) ==> v in units
  }

  lemma {:induction false} ClosedHoldsTrail(mirror: Mirror, roots: seq<Unit>, units: set<Unit>, p: seq<Unit>)
    requires Closed(mirror, roots, units) && IsTrail(mirror, roots, p)
    ensures p[|p| - 1] in units
  {
    if |p| > 1 {
      var n := |p| - 1;
      ClosedHoldsTrail(mirror, roots, units, p[..n]);
      assert Imports(mirror, p[n - 1], p[n]);
    }
  }

  lemma ClosedHoldsReachable(mirror: Mirror, roots: seq<Unit>, units: set<Unit>, u: Unit)
    requires Closed(mirror, roots, units) && Reachable(mirror, roots, u)
    ensures u in units
  {
    var p :| TrailTo(mirror, roots, p, u);
    ClosedHoldsTrail(mirror, roots, units, p);
  }

  /**
   * On any finite mirror, cyclic or not, the walk ends. It fails exactly when some unit it must
   * reach does not resolve; otherwise it copies exactly the units reachable from the request.
   */
  method CollectUnits(mirror: Mirror, components: seq<string>) returns (copied: Option<set<Unit>>)
    ensures copied.None? <==> exists u :: Reachable(mirror, Requested(components), u) && u !in mirror
    ensures copied.Some? ==>
              forall u :: u in copied.value <==> Reachable(mirror, Requested(components), u)
  {
    hide Reachable;
    var roots := Requested(components);
    var units: set<Unit> := {};
    var queue := roots;
    forall u | u in roots ensures Reachable(mirror, roots, u) {
      RootIsReachable(mirror, roots, u);
    }
    while queue != []
      invariant units <= mirror.Keys
      invariant forall u :: u in units || u in queue ==> Reachable(mirror, roots, u)
      invariant forall u :: u in roots ==> u in units || u in queue
      invariant forall u, v :: u in units && Imports(mirror, u, v) ==> v in units || v in queue
      decreases mirror.Keys - units, |queue|
    {
      var id := queue[0];
      assert queue == [id] + queue[1..];
      queue := queue[1..];
      if id in units {
        continue;
      }
      if id !in mirror {
        return None;
      }
      units := units + {id};
      queue := queue + mirror[id];
      forall v | v in mirror[id] ensures Reachable(mirror, roots, v) {
        ImportIsReachable(mirror, roots, id, v);
      }
    }
    forall u | Reachable(mirror, roots, u) ensures u in units {
      ClosedHoldsReachable(mirror, roots, units, u);
    }
    copied := Some(units);
  }

  /** The copied set is the least set that holds the request and is closed under imports. */
  lemma ReachableIsLeastClosed(mirror: Mirror, roots: seq<Unit>, units: set<Unit>)
    requires forall u :: u in units <==> Reachable(mirror, roots, u)
    ensures Closed(mirror, roots, units)
    ensures forall other :: Closed(mirror, roots, other) ==> units <= other
  {
    hide Reachable;
    forall u | u in roots ensures u in units {
      RootIsReachable(mirror, roots, u);
    }
    forall u, v | u in units && Imports(mirror, u, v) ensures v in units {
      ImportIsReachable(mirror, roots, u, v);
    }
    forall other | Closed(mirror, roots, other) ensures units <= other {
      forall u | u in units ensures u in other {
        ClosedHoldsReachable(mirror, roots, other, u);
      }
    }
  }
}
